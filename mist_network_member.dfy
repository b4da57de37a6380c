/**
 * A member of the Mist network as the directory sees it
 * (`MistNetworkMember`), and the RPC handlers of the member server it
 * talks to (`MistNetworkMemberServerHTTPRequestHandler`).
 *
 * The class exists in two revisions: mist_network_member.py sends payloads
 * base64-encoded, translates a missing payload into `error_message` and
 * can ask the member to disconnect; the one in mist_network.py forwards
 * payloads as they are. `encodesPayloads` tells them apart.
 */
module MistNetworkMember {
  import opened Common
  import Base64

  /** One entry of `_history`. */
  datatype HistoryEntry =
    | Activated(address: string)
    | Deactivated
    | StoreRequest(size: nat)
    | RetrieveRequest(dataUid: Uid)
    | DeleteRequest(dataUid: Uid)
    | DisconnectRequest

  /** `"%s" % n` for a natural number. */
  function Decimal(n: nat): (s: string)
    ensures |s| >= 1 && forall i :: 0 <= i < |s| ==> '0' <= s[i] <= '9'
  {
    if n < 10 then [('0' as int + n) as char]
    else Decimal(n / 10) + [('0' as int + n % 10) as char]
  }

  /** The text `_history` holds for an entry. */
  function Render(e: HistoryEntry): (s: string)
    ensures |s| > 0
  {
    match e
    case Activated(a) => "Activated: " + a
    case Deactivated => "Deactivated"
    case StoreRequest(n) => "store: size: " + Decimal(n)
    case RetrieveRequest(u) => "retrieve: " + UuidString(u)
    case DeleteRequest(u) => "delete: " + UuidString(u)
    case DisconnectRequest => "disconnect request"
  }

  // ---------------------------------------------------------------------
  // The member server's handlers
  // ---------------------------------------------------------------------

  /** The `encoding` argument of `store` and of a `retrieve` reply. */
  datatype Encoding = Ascii | Base64Codec

  /**
   * `data.decode(encoding)`: `"ascii"` keeps the characters and fails on
   * one outside ASCII; `"base64"` is the codec of the Base64 module.
   */
  function DecodeWith(text: string, encoding: Encoding): (r: Exc<Bytes>)
    ensures encoding == Ascii && r.Returned? ==> |r.value| == |text|
  {
    match encoding
    case Ascii =>
      if forall i :: 0 <= i < |text| ==> text[i] as int < 128 then
        Returned(seq(|text|, i requires 0 <= i < |text| => text[i] as int))
      else Raised
    case Base64Codec => Base64.DecodeString(text)
  }

  /** What the member server's `retrieve` sends back. */
  datatype RetrieveReply = DataReply(data: string, encoding: Encoding) | ErrorReply(errorMessage: string)

  const UNABLE_TO_RETRIEVE: string := "Unable to retrieve data."

  /**
   * The `retrieve` handler: `error_message` exactly when the local store
   * has nothing, otherwise the payload in base64.
   */
  function RetrieveReplyFor(local: Option<Bytes>): (reply: RetrieveReply)
    ensures reply.ErrorReply? <==> local.None?
    ensures reply.DataReply? ==> reply.encoding == Base64Codec
  {
    if local.None? then ErrorReply(UNABLE_TO_RETRIEVE)
    else DataReply(Base64.EncodeString(local.value), Base64Codec)
  }

  /**
   * What `SendRetrieveRequest` makes of a reply: nothing on
   * `error_message`, otherwise the data decoded with the encoding the reply
   * names.
   */
  function ClientRetrieve(reply: RetrieveReply): (r: Exc<Option<Bytes>>)
    ensures reply.ErrorReply? ==> r == Returned(None)
    ensures reply.DataReply? && r.Returned? ==> r.value.Some?
  {
    match reply
    case ErrorReply(_) => Returned(None)
    case DataReply(d, e) =>
      var b := DecodeWith(d, e);
      if b.Raised? then Raised else Returned(Some(b.value))
  }

  /** A payload the member encodes for `store` reaches the peer unchanged. */
  lemma StoreRoundTrip(data: Bytes)
    ensures DecodeWith(Base64.EncodeString(data), Base64Codec) == Returned(data)
  {
    Base64.RoundTrip(data);
  }

  /** Retrieval through the handler and the client gives back what the peer holds. */
  lemma RetrieveRoundTrip(local: Option<Bytes>)
    ensures ClientRetrieve(RetrieveReplyFor(local)) == Returned(local)
  {
    if local.Some? {
      Base64.RoundTrip(local.value);
    }
  }

  /**
   * The member server reached at a member's address, with the `Mist` behind
   * it reduced to its data files by uid (`StoreDataFile`, `RetrieveDataFile`
   * and `DeleteDataFile` of mist.py). A data file here is its payload, so a
   * retrieve never raises, where mist.py's read of a data file can.
   */
  class PeerServer {
    var stored: map<Uid, Bytes>

    constructor (initial: map<Uid, Bytes>)
      ensures stored == initial
    {
      stored := initial;
    }

    /** `StoreData`: a new data file under the fresh uid `newUid`. */
    method StoreData(data: Bytes, newUid: Uid) returns (u: Uid)
      requires newUid !in stored
      modifies this
      ensures u == newUid && stored == old(stored)[newUid := data]
    {
      stored := stored[newUid := data];
      u := newUid;
    }

    /** `RetrieveData`: nothing for an unknown uid. */
    method RetrieveData(u: Uid) returns (r: Option<Bytes>)
      ensures r == if u in stored then Some(stored[u]) else None
    {
      r := if u in stored then Some(stored[u]) else None;
    }

    /**
     * `DeleteData`: the data file under `u` is gone, and nothing else
     * changes; like `DeleteDataFile`, it answers nothing either way.
     */
    method DeleteData(u: Uid)
      modifies this
      ensures stored == old(stored) - {u}
      ensures u !in stored && forall v :: v != u ==> (v in stored <==> v in old(stored))
    {
      stored := stored - {u};
    }

    /** The `store` handler of mist_network_member.py: decode, then store. */
    method HandleStore(text: string, encoding: Encoding, newUid: Uid) returns (r: Exc<Uid>)
      requires newUid !in stored
      modifies this
      ensures DecodeWith(text, encoding).Raised? ==> r == Raised && stored == old(stored)
      ensures DecodeWith(text, encoding).Returned? ==>
        r == Returned(newUid) && stored == old(stored)[newUid := DecodeWith(text, encoding).value]
    {
      var data := DecodeWith(text, encoding);
      if data.Raised? {
        return Raised;
      }
      var u := StoreData(data.value, newUid);
      r := Returned(u);
    }

    /** The `retrieve` handler of mist_network_member.py. */
    method HandleRetrieve(u: Uid) returns (reply: RetrieveReply)
      ensures reply == RetrieveReplyFor(if u in stored then Some(stored[u]) else None)
    {
      var data := RetrieveData(u);
      reply := RetrieveReplyFor(data);
    }

    /**
     * The `disconnect` handler: its `LeaveNetwork` calls the Mist's
     * `LeaveNetwork(local=True)`, which takes no such argument, so the
     * call raises a `TypeError` before anything changes.
     */
    method HandleDisconnect() returns (r: Exc<()>)
      ensures r.Raised?
    {
      r := Raised;
    }
  }

  // ---------------------------------------------------------------------
  // The member as the directory holds it
  // ---------------------------------------------------------------------

  class Member {
    const uid: Uid
    var address: Option<string>
    var active: bool
    var history: seq<HistoryEntry>
    /** True for mist_network_member.py, false for the class in mist_network.py. */
    const encodesPayloads: bool

    /** A member is active exactly when it has an address. */
    ghost predicate Valid()
      reads this
    {
      active <==> address.Some?
    }

    /** `__init__`: a fresh uid, then `Activate(address)`. */
    constructor (newUid: Uid, address: string, encodesPayloads: bool)
      ensures Valid() && uid == newUid && this.encodesPayloads == encodesPayloads
      ensures active && this.address == Some(address) && history == [Activated(address)]
    {
      uid := newUid;
      this.encodesPayloads := encodesPayloads;
      this.address := Some(address);
      active := true;
      history := [Activated(address)];
    }

    method Activate(a: string)
      modifies this
      ensures Valid() && active && address == Some(a)
      ensures history == old(history) + [Activated(a)]
    {
      address := Some(a);
      active := true;
      history := history + [Activated(a)];
    }

    method Deactivate()
      modifies this
      ensures Valid() && !active && address.None?
      ensures history == old(history) + [Deactivated]
    {
      address := None;
      active := false;
      history := history + [Deactivated];
    }

    /**
     * The objects an RPC from this member may change: the member server
     * listening at its address, when there is one.
     */
    static function Reached(peer: Option<PeerServer>): set<object>
    {
      if peer.Some? then {peer.value} else {}
    }

    /**
     * `SendStoreRequest`: logs the size, then has the member server at the
     * member's address (`peer`, `None` when nothing listens there) store the
     * payload, base64-encoded in the later revision, and returns the uid the
     * server chose. A member without an address, or with no server at it,
     * cannot be reached and the call raises.
     */
    method SendStoreRequest(data: Bytes, peer: Option<PeerServer>, newUid: Uid) returns (r: Exc<Uid>)
      requires peer.Some? ==> newUid !in peer.value.stored
      modifies this, Reached(peer)
      ensures history == old(history) + [StoreRequest(|data|)]
      ensures address == old(address) && active == old(active)
      ensures r.Raised? <==> address.None? || peer.None?
      ensures r.Raised? && peer.Some? ==> peer.value.stored == old(peer.value.stored)
      ensures r.Returned? ==> r.value == newUid && peer.value.stored == old(peer.value.stored)[newUid := data]
    {
      history := history + [StoreRequest(|data|)];
      if address.None? || peer.None? {
        return Raised;
      }
      if encodesPayloads {
        StoreRoundTrip(data);
        r := peer.value.HandleStore(Base64.EncodeString(data), Base64Codec, newUid);
      } else {
        var u := peer.value.StoreData(data, newUid);
        r := Returned(u);
      }
    }

    /**
     * `SendRetrieveRequest`: logs the uid and returns what the member's
     * server holds under it, or nothing; the later revision gets there
     * through the `error_message` translation and the base64 decoding.
     */
    method SendRetrieveRequest(dataUid: Uid, peer: Option<PeerServer>) returns (r: Exc<Option<Bytes>>)
      modifies this
      ensures history == old(history) + [RetrieveRequest(dataUid)]
      ensures address == old(address) && active == old(active)
      ensures r.Raised? <==> address.None? || peer.None?
      ensures r.Returned? ==>
        r.value == if dataUid in peer.value.stored then Some(peer.value.stored[dataUid]) else None
    {
      history := history + [RetrieveRequest(dataUid)];
      if address.None? || peer.None? {
        return Raised;
      }
      var server := peer.value;
      if encodesPayloads {
        var reply := server.HandleRetrieve(dataUid);
        RetrieveRoundTrip(if dataUid in server.stored then Some(server.stored[dataUid]) else None);
        r := ClientRetrieve(reply);
      } else {
        var data := server.RetrieveData(dataUid);
        r := Returned(data);
      }
    }

    /**
     * `SendDeleteRequest`: logs the uid and has the member's server delete
     * the data file. The server answers nothing, so both revisions return
     * nothing; an unreachable member raises.
     */
    method SendDeleteRequest(dataUid: Uid, peer: Option<PeerServer>) returns (r: Exc<()>)
      modifies this, Reached(peer)
      ensures history == old(history) + [DeleteRequest(dataUid)]
      ensures address == old(address) && active == old(active)
      ensures r.Raised? <==> address.None? || peer.None?
      ensures r.Raised? && peer.Some? ==> peer.value.stored == old(peer.value.stored)
      ensures r.Returned? ==> peer.value.stored == old(peer.value.stored) - {dataUid}
    {
      history := history + [DeleteRequest(dataUid)];
      if address.None? || peer.None? {
        return Raised;
      }
      peer.value.DeleteData(dataUid);
      r := Returned(());
    }

    /**
     * `SendDisconnectRequest` (mist_network_member.py only): logs the request;
     * the member's server, when reached, fails in its `disconnect` handler,
     * so the call raises in every case and the server keeps its data files.
     */
    method SendDisconnectRequest(peer: Option<PeerServer>) returns (r: Exc<()>)
      requires encodesPayloads
      modifies this
      ensures history == old(history) + [DisconnectRequest]
      ensures address == old(address) && active == old(active)
      ensures r.Raised?
    {
      history := history + [DisconnectRequest];
      if address.None? || peer.None? {
        return Raised;
      }
      r := peer.value.HandleDisconnect();
    }

    /** `__str__`: `"uid@address"` for an active member, the uid alone otherwise. */
    function ToString(): (s: string)
      reads this
      ensures |s| >= 36 && s[..36] == UuidString(uid)
      ensures !active ==> |s| == 36
    {
      if active then UuidString(uid) + "@" + (if address.Some? then address.value else "None")
      else UuidString(uid)
    }
  }

  /** No hexadecimal digit is an `@`. */
  lemma {:induction false} HexHasNoAt(b: Bytes)
    ensures forall i :: 0 <= i < |Hex(b)| ==> Hex(b)[i] != '@'
  {
    if b != [] {
      HexHasNoAt(b[1..]);
    }
  }

  /** The text of a member carries an `@` exactly when the member is active. */
  lemma ActiveShownByAt(m: Member)
    ensures ('@' in m.ToString()) <==> m.active
  {
    var s := m.ToString();
    HexHasNoAt(m.uid);
    if m.active {
      assert s[36] == '@';
    } else {
      assert forall i :: 0 <= i < |s| ==> s[i] != '@';
    }
  }
}
