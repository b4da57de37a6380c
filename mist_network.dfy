/**
 * The directory of the Mist network (`MistNetworkServer`): the members that
 * are connected, the members that left, and the routing of store, retrieve
 * and delete requests to members, with the RPC handlers that turn a routing
 * error into an `error_message` reply.
 */
module MistNetwork {
  import opened Common
  import opened MistNetworkMember

  /** A routed request: its answer, `MistNetworkError` for a member that is not connected, or another exception. */
  datatype Routed<T> = Done(value: T) | NotConnected(member: Uid) | Failed

  /** `"Network member is not connected. Member uid: %s" % member_uid`. */
  function NotConnectedMessage(u: Uid): string
  {
    "Network member is not connected. Member uid: " + UuidString(u)
  }

  /** What the directory's `retrieve` and `delete` handlers send back. */
  datatype Reply<T> = Answer(value: T) | ErrorMessage(errorMessage: string)

  /**
   * The `retrieve` and `delete` handlers: a routing error becomes an
   * `error_message` reply; any other exception still propagates.
   */
  function HandlerReply<T>(r: Routed<T>): (reply: Exc<Reply<T>>)
    ensures reply.Raised? <==> r.Failed?
    ensures r.Done? ==> reply == Returned(Answer(r.value))
    ensures r.NotConnected? ==> reply == Returned(ErrorMessage(NotConnectedMessage(r.member)))
  {
    match r
    case Done(v) => Returned(Answer(v))
    case NotConnected(u) => Returned(ErrorMessage(NotConnectedMessage(u)))
    case Failed => Raised
  }

  /** The routing error text names the member, after a fixed prefix. */
  lemma NotConnectedNamesMember(u: Uid, v: Uid)
    ensures NotConnectedMessage(u) == NotConnectedMessage(v) <==> UuidString(u) == UuidString(v)
  {
    var p := "Network member is not connected. Member uid: ";
    if NotConnectedMessage(u) == NotConnectedMessage(v) {
      assert UuidString(u) == NotConnectedMessage(u)[|p|..];
      assert UuidString(v) == NotConnectedMessage(v)[|p|..];
    }
  }

  class Directory {
    /** `network_members`: the connected members, by uid. */
    var active: map<Uid, Member>
    /** `inactive_network_members`: members that left, by uid. */
    var inactive: map<Uid, Member>
    /**
     * The member servers of the network, by the address they listen at: an
     * RPC to a member goes to the server at the member's address, and to an
     * address where nothing listens it fails.
     */
    const servers: map<string, PeerServer>

    ghost function Members(): set<Member>
      reads this
    {
      active.Values + inactive.Values
    }

    /**
     * No uid is both active and inactive; each member sits under its own
     * uid; active members have an address and inactive ones do not. The
     * members are those of mist_network.py, which forward payloads as they
     * are.
     */
    ghost predicate Valid()
      reads this, Members()
    {
      && active.Keys !! inactive.Keys
      && (forall u | u in active :: active[u].uid == u && active[u].Valid() && active[u].active)
      && (forall u | u in inactive :: inactive[u].uid == u && inactive[u].Valid() && !inactive[u].active)
      && (forall m | m in Members() :: !m.encodesPayloads)
    }

    /** The server listening at the address of `m`, if there is one. */
    function ServerAt(m: Member): (p: Option<PeerServer>)
      reads this, m
      ensures p.Some? <==> m.address.Some? && m.address.value in servers
      ensures p.Some? ==> p.value == servers[m.address.value]
    {
      if m.address.Some? && m.address.value in servers then Some(servers[m.address.value]) else None
    }

    /** The server an RPC to the active member `u` reaches, if one listens at its address. */
    function ServerOf(u: Uid): (p: Option<PeerServer>)
      reads this, active.Values
      ensures p.Some? <==> u in active && active[u].address.Some? && active[u].address.value in servers
      ensures p.Some? ==> p.value == servers[active[u].address.value]
    {
      if u in active then ServerAt(active[u]) else None
    }

    /** The objects an RPC to member `u` touches: the member and the server it reaches. */
    function Route(u: Uid): set<object>
      reads this, active.Values
    {
      (if u in active then {active[u] as object} else {}) +
      (if ServerOf(u).Some? then {ServerOf(u).value as object} else {})
    }

    constructor (servers: map<string, PeerServer>)
      ensures Valid() && active == map[] && inactive == map[] && this.servers == servers
    {
      active := map[];
      inactive := map[];
      this.servers := servers;
    }

    /**
     * `AddMember`: a member that left and rejoins with its uid is
     * reactivated in place, keeping its history, and moves to the active
     * map; anyone else becomes a new member under the fresh uid `newUid`,
     * whatever uid it offered. Either way the member is reached at the
     * address it registered.
     */
    method AddMember(address: string, memberUid: Option<Uid>, newUid: Uid) returns (r: Uid)
      requires Valid() && newUid !in active && newUid !in inactive
      modifies this, if memberUid.Some? && memberUid.value in inactive then {inactive[memberUid.value]} else {}
      ensures Valid() && r in active && active[r].address == Some(address)
      ensures ServerOf(r) == if address in servers then Some(servers[address]) else None
      ensures memberUid.Some? && memberUid.value in old(inactive) ==>
        && r == memberUid.value
        && active == old(active)[r := old(inactive)[r]]
        && inactive == old(inactive) - {r}
        && active[r].history == old(inactive[r].history) + [Activated(address)]
      ensures !(memberUid.Some? && memberUid.value in old(inactive)) ==>
        && r == newUid
        && fresh(active[r])
        && active == old(active)[r := active[r]]
        && inactive == old(inactive)
        && active[r].history == [Activated(address)]
    {
      if memberUid.Some? && memberUid.value in inactive {
        var u := memberUid.value;
        var member := inactive[u];
        member.Activate(address);
        active := active[u := member];
        inactive := inactive - {u};
        r := u;
      } else {
        var member := new Member(newUid, address, false);
        active := active[newUid := member];
        r := newUid;
      }
    }

    /**
     * `DeleteMember`: an active member is deactivated and moves to the
     * inactive map; any other uid changes nothing.
     */
    method DeleteMember(u: Uid)
      requires Valid()
      modifies this, if u in active then {active[u]} else {}
      ensures Valid()
      ensures u in old(active) ==>
        && active == old(active) - {u}
        && inactive == old(inactive)[u := old(active)[u]]
        && inactive[u].history == old(active[u].history) + [Deactivated]
        && ServerOf(u).None?
      ensures u !in old(active) ==> active == old(active) && inactive == old(inactive)
    {
      if u in active {
        var member := active[u];
        inactive := inactive[u := member];
        member.Deactivate();
        active := active - {u};
      }
    }

    /**
     * `GetRandomMember`: `random.choice` over the active members, which
     * raises on an empty directory; `pick` is the uid the choice lands on.
     */
    method GetRandomMember(pick: Uid) returns (r: Exc<Member>)
      requires active != map[] ==> pick in active
      ensures r.Raised? <==> active == map[]
      ensures r.Returned? ==> r.value == active[pick]
    {
      if active == map[] {
        return Raised;
      }
      r := Returned(active[pick]);
    }

    /**
     * `ProcessStoreRequest`: a randomly chosen active member stores the
     * payload at the server it listens at; the answer is that member's uid
     * and the data uid it chose. An empty directory, or nothing listening
     * at the member's address, raises.
     */
    method ProcessStoreRequest(data: Bytes, pick: Uid, newDataUid: Uid) returns (r: Exc<(Uid, Uid)>)
      requires Valid() && (active != map[] ==> pick in active)
      requires ServerOf(pick).Some? ==> newDataUid !in ServerOf(pick).value.stored
      modifies Route(pick)
      ensures Valid() && active == old(active) && inactive == old(inactive)
      ensures ServerOf(pick) == old(ServerOf(pick))
      ensures r.Returned? <==> active != map[] && ServerOf(pick).Some?
      ensures r.Returned? ==>
        && r.value == (pick, newDataUid)
        && ServerOf(pick).value.stored == old(ServerOf(pick).value.stored)[newDataUid := data]
      ensures active != map[] ==> active[pick].history == old(active[pick].history) + [StoreRequest(|data|)]
    {
      var chosen := GetRandomMember(pick);
      if chosen.Raised? {
        return Raised;
      }
      var member := chosen.value;
      var stored := member.SendStoreRequest(data, ServerAt(member), newDataUid);
      if stored.Raised? {
        return Raised;
      }
      r := Returned((member.uid, stored.value));
    }

    /**
     * `ProcessRetrieveRequest`: only an active member is asked, at the
     * server it listens at; any other uid, an inactive one included, is a
     * routing error.
     */
    method ProcessRetrieveRequest(memberUid: Uid, dataUid: Uid) returns (r: Routed<Option<Bytes>>)
      requires Valid()
      modifies if memberUid in active then {active[memberUid]} else {}
      ensures Valid() && active == old(active) && inactive == old(inactive)
      ensures ServerOf(memberUid) == old(ServerOf(memberUid))
      ensures memberUid !in active ==> r == NotConnected(memberUid)
      ensures memberUid in active && ServerOf(memberUid).None? ==> r == Failed
      ensures ServerOf(memberUid).Some? ==>
        var stored := ServerOf(memberUid).value.stored;
        r == Done(if dataUid in stored then Some(stored[dataUid]) else None)
      ensures memberUid in active ==>
        active[memberUid].history == old(active[memberUid].history) + [RetrieveRequest(dataUid)]
    {
      if memberUid !in active {
        return NotConnected(memberUid);
      }
      var member := active[memberUid];
      var found := member.SendRetrieveRequest(dataUid, ServerAt(member));
      r := if found.Raised? then Failed else Done(found.value);
    }

    /**
     * `ProcessDeleteRequest`: only an active member is asked to delete, at
     * the server it listens at, and the answer is nothing.
     */
    method ProcessDeleteRequest(memberUid: Uid, dataUid: Uid) returns (r: Routed<()>)
      requires Valid()
      modifies Route(memberUid)
      ensures Valid() && active == old(active) && inactive == old(inactive)
      ensures ServerOf(memberUid) == old(ServerOf(memberUid))
      ensures memberUid !in active ==> r == NotConnected(memberUid)
      ensures memberUid in active && ServerOf(memberUid).None? ==> r == Failed
      ensures ServerOf(memberUid).Some? ==>
        && r == Done(())
        && ServerOf(memberUid).value.stored == old(ServerOf(memberUid).value.stored) - {dataUid}
      ensures memberUid in active ==>
        active[memberUid].history == old(active[memberUid].history) + [DeleteRequest(dataUid)]
    {
      if memberUid !in active {
        return NotConnected(memberUid);
      }
      var member := active[memberUid];
      var done := member.SendDeleteRequest(dataUid, ServerAt(member));
      r := if done.Raised? then Failed else Done(());
    }

    /**
     * The directory's store and retrieve fit together: the pair a store
     * answers with, handed back to `ProcessRetrieveRequest`, reaches the
     * same server and finds the payload.
     */
    method RetrieveAfterStore(data: Bytes, pick: Uid, newDataUid: Uid)
      returns (stored: Exc<(Uid, Uid)>, found: Option<Routed<Option<Bytes>>>)
      requires Valid() && (active != map[] ==> pick in active)
      requires ServerOf(pick).Some? ==> newDataUid !in ServerOf(pick).value.stored
      modifies Route(pick)
      ensures stored.Raised? <==> active == map[] || old(ServerOf(pick)).None?
      ensures stored.Raised? <==> found.None?
      ensures stored.Returned? ==> found == Some(Done(Some(data)))
    {
      stored := ProcessStoreRequest(data, pick, newDataUid);
      if stored.Raised? {
        return stored, None;
      }
      var r := ProcessRetrieveRequest(stored.value.0, stored.value.1);
      found := Some(r);
    }
  }
}
