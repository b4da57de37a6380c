/**
 * The first Mist node, mist.py: user files kept whole on the network as
 * base64 text, payloads that other members hand over (`MistDataFile`), cut
 * into network pieces above 512000 bytes and kept in one local chunk below,
 * and the catalog `Mist` that maps paths to files and uids to data files.
 */
module Mist {
  import opened Common
  import opened Storage
  import Base64
  import Split
  import Files
  import opened MistChunk

  /** `MistFile.STORAGE_FOLDER_PATH`: where a data file's local chunk is written. */
  const STORAGE_FOLDER_PATH: string := "chunks"

  /** `Mist.DEFAULT_INDEX_FILENAME`. */
  const DEFAULT_INDEX_FILENAME: string := "index"

  /** What the directory hands back for `key`: the text, when it holds any. */
  function Found(key: RemoteKey, texts: map<RemoteKey, string>): Option<string>
  {
    if key in texts then Some(texts[key]) else None
  }

  /**
   * `_StoreDataFileOnNetwork`: the frame of files.py (size, IV, ciphertext of
   * the space-padded payload) as base64 text.
   */
  function EncodeText(iv: Bytes, data: Bytes, c: Cipher): string
    requires |data| < TWO_64
  {
    Base64.EncodeString(Files.EncodeFrame(iv, data, c))
  }

  /**
   * `MistNetworkDataFile.Read` on the directory's answer. A routing error
   * (no `data` in the reply) and a missing payload (`None.decode`) both
   * raise, as do bad base64, a short size field and AES on a bad IV or an
   * unaligned body. The plaintext is cut back to the size in the header and
   * not checked any further.
   */
  function ParseText(found: Option<string>, c: Cipher): (r: Exc<Bytes>)
    ensures r.Returned? ==> found.Some?
  {
    if found.None? then Raised
    else
      var frame := Base64.DecodeString(found.value);
      if frame.Raised? then Raised
      else
        var stored := UnpackU64(Take(frame.value, Files.SIZE_FIELD));
        if stored.Raised? then Raised
        else
          var rest := Drop(frame.value, Files.SIZE_FIELD);
          var plain := AesDecrypt(c, Take(rest, Files.IV_FIELD), Drop(rest, Files.IV_FIELD));
          if plain.Raised? then Raised else Returned(Take(plain.value, stored.value))
  }

  /** Reading back the text stored for a payload gives the payload, when decryption undoes encryption. */
  lemma TextRoundTrip(iv: Bytes, data: Bytes, c: Cipher)
    requires ValidCipher(c) && |iv| == Files.IV_FIELD && |data| < TWO_64
    ensures ParseText(Some(EncodeText(iv, data, c)), c) == Returned(data)
  {
    var frame := Files.EncodeFrame(iv, data, c);
    Base64.RoundTrip(frame);
    Files.FrameFields(iv, data, c);
    EncryptThenDecrypt(c, iv, data);
    DecryptPaddedTruncates(c, iv, data);
  }

  /** `Returned(d)` becomes `Returned(Some(d))`; an exception stays one. */
  function AsFound(r: Exc<Bytes>): (f: Exc<Option<Bytes>>)
    ensures f.Raised? <==> r.Raised?
    ensures r.Returned? ==> f.value == Some(r.value)
  {
    if r.Raised? then Raised else Returned(Some(r.value))
  }

  /** `MistNetworkDataFile` of mist.py: a payload kept on the network as text. */
  class NetworkDataFile {
    /** `mist_network_member_uid` and `data_uid`, as the store answered them. */
    const key: RemoteKey

    /**
     * `__init__` and `_StoreDataFileOnNetwork`: `iv` stands for the random IV
     * and `key` for the fresh pair the directory chooses.
     */
    constructor (data: Bytes, iv: Bytes, key: RemoteKey, net: TextNetwork, c: Cipher)
      requires |iv| == Files.IV_FIELD && |data| < TWO_64 && key !in net.texts
      modifies net
      ensures this.key == key
      ensures net.texts == old(net.texts)[key := EncodeText(iv, data, c)]
    {
      this.key := key;
      new;
      var frame := PackU64(|data|);
      frame := frame + iv;
      frame := frame + c.encrypt(iv, PadWithSpaces(data));
      net.texts := net.texts[key := Base64.EncodeString(frame)];
    }

    /** `Read`: the text under the key, parsed as `ParseText` describes. */
    method Read(net: TextNetwork, c: Cipher) returns (r: Exc<Bytes>)
      ensures r == ParseText(Found(key, net.texts), c)
    {
      var found := if key in net.texts then Some(net.texts[key]) else None;
      r := ParseText(found, c);
    }

    /** `Delete`: the directory drops the text; an error reply is only printed. */
    method Delete(net: TextNetwork)
      modifies net
      ensures net.texts == old(net.texts) - {key}
    {
      net.texts := net.texts - {key};
    }
  }

  /** `MistFile` of mist.py: a user file kept whole on the network. */
  class MistFile {
    var uid: Option<Uid>
    var filename: Option<string>
    /** `mist_network_data_file`. */
    var dataFile: Option<NetworkDataFile>

    ghost predicate Valid()
      reads this
    {
      uid.Some? ==> dataFile.Some?
    }

    /**
     * `__init__` and `_MakeDataFile`: the file at `filePath` is read and
     * stored on the network; `newUid` stands for `uuid.uuid4()`. Reading it
     * back gives the contents of the file.
     */
    constructor (filePath: string, disk: Disk, newUid: Uid, iv: Bytes, key: RemoteKey,
                 net: TextNetwork, c: Cipher)
      requires filePath in disk.files && |disk.files[filePath]| < TWO_64
      requires |iv| == Files.IV_FIELD && key !in net.texts
      modifies net
      ensures Valid() && uid == Some(newUid) && filename == Some(Basename(filePath))
      ensures dataFile.Some? && fresh(dataFile.value) && dataFile.value.key == key
      ensures net.texts == old(net.texts)[key := EncodeText(iv, disk.files[filePath], c)]
      ensures ValidCipher(c) ==> Contents(net.texts, c) == Returned(Some(disk.files[filePath]))
    {
      uid := Some(newUid);
      filename := Some(Basename(filePath));
      var data := disk.files[filePath];
      var stored := new NetworkDataFile(data, iv, key, net, c);
      dataFile := Some(stored);
      new;
      if ValidCipher(c) {
        FileReadsBack(this, net.texts, iv, data, c);
      }
    }

    /** What `Read` returns while the network holds `texts`. */
    function Contents(texts: map<RemoteKey, string>, c: Cipher): Exc<Option<Bytes>>
      reads this
    {
      if uid.None? || dataFile.None? then Returned(None)
      else AsFound(ParseText(Found(dataFile.value.key, texts), c))
    }

    /** `Read`: nothing for a deleted file, otherwise the data file's contents. */
    method Read(net: TextNetwork, c: Cipher) returns (r: Exc<Option<Bytes>>)
      requires Valid()
      ensures uid.None? ==> r == Returned(None)
      ensures uid.Some? ==> r == AsFound(ParseText(Found(dataFile.value.key, net.texts), c))
      ensures r == Contents(net.texts, c)
    {
      if uid.None? {
        return Returned(None);
      }
      var d := dataFile.value.Read(net, c);
      r := AsFound(d);
    }

    /**
     * `Delete`: a live file deletes its data file, whatever the directory
     * answers, and forgets its uid, name and data file; a deleted file is
     * left as it is.
     */
    method Delete(net: TextNetwork)
      requires Valid()
      modifies this, net
      ensures Valid()
      ensures old(uid).None? ==>
        uid == old(uid) && filename == old(filename) && dataFile == old(dataFile) && net.texts == old(net.texts)
      ensures old(uid).Some? ==>
        uid.None? && filename.None? && dataFile.None? &&
        net.texts == old(net.texts) - {old(dataFile.value.key)}
    {
      if uid.Some? {
        dataFile.value.Delete(net);
        uid := None;
        filename := None;
        dataFile := None;
      }
    }
  }

  /** The text a file stored is no longer on the network once the file is deleted. */
  function Released(f: MistFile, texts: map<RemoteKey, string>): map<RemoteKey, string>
    reads f
  {
    if f.uid.Some? && f.dataFile.Some? then texts - {f.dataFile.value.key} else texts
  }

  // ---------------------------------------------------------------------
  // The pieces of a data file
  // ---------------------------------------------------------------------

  /** An element of `mist_chunks`: the local chunk or a network piece. */
  datatype Piece = OnDisk(chunk: Chunk) | OnNetwork(remote: NetworkDataFile)

  function PieceObject(p: Piece): object
  {
    if p.OnDisk? then p.chunk else p.remote
  }

  function PieceFootprint(pieces: seq<Piece>): set<object>
  {
    set p | p in pieces :: PieceObject(p)
  }

  /** No piece object occurs twice, and the local chunk is one of mist.py. */
  predicate WellFormed(pieces: seq<Piece>)
  {
    && (forall j, k :: 0 <= j < k < |pieces| ==> PieceObject(pieces[j]) != PieceObject(pieces[k]))
    && (forall j :: 0 <= j < |pieces| && pieces[j].OnDisk? ==> pieces[j].chunk.legacy)
  }

  /** The disk and the text network together. */
  datatype Place = Place(files: map<string, Bytes>, texts: map<RemoteKey, string>)

  /** What reading and deleting a piece depend on. */
  datatype PieceState =
    | DiskPiece(path: Option<string>, fileUid: Option<Uid>, uid: Option<Uid>, size: nat)
    | NetPiece(key: RemoteKey)

  function StateOfPiece(p: Piece): PieceState
    reads PieceObject(p)
  {
    match p
    case OnDisk(ch) => DiskPiece(ch.path, ch.fileUid, ch.uid, ch.size)
    case OnNetwork(n) => NetPiece(n.key)
  }

  function PieceStates(pieces: seq<Piece>): (r: seq<PieceState>)
    reads PieceFootprint(pieces)
    ensures |r| == |pieces|
    ensures forall j :: 0 <= j < |pieces| ==> r[j] == StateOfPiece(pieces[j])
  {
    if pieces == [] then [] else [StateOfPiece(pieces[0])] + PieceStates(pieces[1..])
  }

  /**
   * `chunk.Read()` as `data += chunk.Read()` uses it: a local chunk that
   * finds nothing answers None, and adding None to a string raises.
   */
  function ReadPiece(s: PieceState, place: Place, c: Cipher): Exc<Bytes>
  {
    match s
    case DiskPiece(path, fileUid, uid, size) =>
      var r := ReadChunkFile(place.files, path, fileUid, uid, size, c, false, LEGACY_CHUNK_SIZE);
      if r.Raised? || r.value.None? then Raised else Returned(r.value.value)
    case NetPiece(key) => ParseText(Found(key, place.texts), c)
  }

  /** Prefixes `d` to a successful read and leaves an exception as it is. */
  function Joined(d: Bytes, r: Exc<Bytes>): Exc<Bytes>
  {
    if r.Raised? then Raised else Returned(d + r.value)
  }

  /** The read loop of `MistDataFile.Read`: the pieces in order, joined. */
  function ReadPieces(states: seq<PieceState>, place: Place, c: Cipher): Exc<Bytes>
    decreases |states|
  {
    if states == [] then Returned([])
    else
      var first := ReadPiece(states[0], place, c);
      if first.Raised? then Raised else Joined(first.value, ReadPieces(states[1..], place, c))
  }

  /** A read raises exactly when one of the pieces does. */
  lemma {:induction false} ReadRaisesAtAPiece(states: seq<PieceState>, place: Place, c: Cipher)
    ensures ReadPieces(states, place, c).Raised? <==>
      exists j :: 0 <= j < |states| && ReadPiece(states[j], place, c).Raised?
    decreases |states|
  {
    if states != [] {
      ReadRaisesAtAPiece(states[1..], place, c);
      if ReadPiece(states[0], place, c).Raised? {
      } else if exists j :: 0 <= j < |states| && ReadPiece(states[j], place, c).Raised? {
        var j :| 0 <= j < |states| && ReadPiece(states[j], place, c).Raised?;
        assert states[1..][j - 1] == states[j];
      } else {
        forall j | 0 <= j < |states| - 1 ensures !ReadPiece(states[1..][j], place, c).Raised?
        {
          assert states[1..][j] == states[j + 1];
        }
      }
    }
  }

  /** The pieces are network pieces whose texts read back as `payloads`, in order. */
  predicate HoldsTexts(states: seq<PieceState>, payloads: seq<Bytes>, texts: map<RemoteKey, string>, c: Cipher)
  {
    && |states| == |payloads|
    && forall j :: 0 <= j < |states| ==>
         states[j].NetPiece? && ParseText(Found(states[j].key, texts), c) == Returned(payloads[j])
  }

  /** Network pieces that are all there read back as their concatenation. */
  lemma {:induction false} ReadHeld(states: seq<PieceState>, payloads: seq<Bytes>, place: Place, c: Cipher)
    requires HoldsTexts(states, payloads, place.texts, c)
    ensures ReadPieces(states, place, c) == Returned(Split.Concat(payloads))
    decreases |states|
  {
    if states != [] {
      assert HoldsTexts(states[1..], payloads[1..], place.texts, c) by {
        forall j | 0 <= j < |states| - 1
          ensures states[1..][j] == states[j + 1] && payloads[1..][j] == payloads[j + 1]
        {
        }
      }
      ReadHeld(states[1..], payloads[1..], place, c);
    }
  }

  /**
   * `chunk.Delete()`: removing a local chunk's file raises when the path is
   * unset or the file is missing; a network piece is dropped, whatever the
   * directory answers.
   */
  function DeletePiece(s: PieceState, place: Place): (Exc<()>, Place)
  {
    match s
    case DiskPiece(path, _, _, _) =>
      if path.None? || path.value !in place.files then (Raised, place)
      else (Returned(()), place.(files := place.files - {path.value}))
    case NetPiece(key) => (Returned(()), place.(texts := place.texts - {key}))
  }

  /** The delete loop of `MistDataFile.Delete`: in order, until one raises. */
  function DeletePieces(states: seq<PieceState>, place: Place): (Exc<()>, Place)
    decreases |states|
  {
    if states == [] then (Returned(()), place)
    else
      var (first, p1) := DeletePiece(states[0], place);
      if first.Raised? then (first, p1) else DeletePieces(states[1..], p1)
  }

  /** `MistDataFile.Delete` on a piece list, or on none (iterating None raises). */
  function DeleteOutcome(snapshot: Option<seq<PieceState>>, place: Place): (Exc<()>, Place)
  {
    if snapshot.None? then (Raised, place) else DeletePieces(snapshot.value, place)
  }

  /** The files of the local pieces. */
  function PathsOf(states: seq<PieceState>): set<string>
  {
    if states == [] then {}
    else (if states[0].DiskPiece? && states[0].path.Some? then {states[0].path.value} else {}) + PathsOf(states[1..])
  }

  /** The keys of the network pieces. */
  function KeysOf(states: seq<PieceState>): set<RemoteKey>
  {
    if states == [] then {}
    else (if states[0].NetPiece? then {states[0].key} else {}) + KeysOf(states[1..])
  }

  /** A delete that goes through removes exactly the pieces' files and texts. */
  lemma {:induction false} DeleteRemovesExactly(states: seq<PieceState>, place: Place)
    requires DeletePieces(states, place).0.Returned?
    ensures DeletePieces(states, place).1 ==
      Place(place.files - PathsOf(states), place.texts - KeysOf(states))
    decreases |states|
  {
    if states != [] {
      var (first, p1) := DeletePiece(states[0], place);
      DeleteRemovesExactly(states[1..], p1);
    }
  }

  /** Network pieces are always deleted: only a local chunk can make a delete raise. */
  lemma {:induction false} NetworkPiecesDelete(states: seq<PieceState>, place: Place)
    requires forall j :: 0 <= j < |states| ==> states[j].NetPiece?
    ensures DeletePieces(states, place).0 == Returned(())
    decreases |states|
  {
    if states != [] {
      var (first, p1) := DeletePiece(states[0], place);
      NetworkPiecesDelete(states[1..], p1);
    }
  }

  /** What the disk holds at `p`, if anything. */
  function At(p: string, files: map<string, Bytes>): Option<Bytes>
  {
    if p in files then Some(files[p]) else None
  }

  /** Two places hold the same at each of `paths` and `keys`. */
  predicate AgreeOn(a: Place, b: Place, paths: set<string>, keys: set<RemoteKey>)
  {
    && (forall p | p in paths :: At(p, a.files) == At(p, b.files))
    && (forall k | k in keys :: Found(k, a.texts) == Found(k, b.texts))
  }

  /** A read of the pieces sees only their own files and texts. */
  lemma {:induction false} ReadAgrees(states: seq<PieceState>, a: Place, b: Place, c: Cipher)
    requires AgreeOn(a, b, PathsOf(states), KeysOf(states))
    ensures ReadPieces(states, a, c) == ReadPieces(states, b, c)
    decreases |states|
  {
    if states != [] {
      ReadAgrees(states[1..], a, b, c);
      match states[0]
      case DiskPiece(path, _, _, _) =>
        if path.Some? {
          assert At(path.value, a.files) == At(path.value, b.files);
        }
      case NetPiece(key) =>
        assert Found(key, a.texts) == Found(key, b.texts);
    }
  }

  /** A delete of the pieces, complete or not, leaves every other file and text as it was. */
  lemma {:induction false} DeleteAgrees(states: seq<PieceState>, place: Place, paths: set<string>, keys: set<RemoteKey>)
    requires paths !! PathsOf(states) && keys !! KeysOf(states)
    ensures AgreeOn(place, DeletePieces(states, place).1, paths, keys)
    decreases |states|
  {
    if states != [] {
      var (first, p1) := DeletePiece(states[0], place);
      assert AgreeOn(place, p1, paths, keys);
      if first.Returned? {
        DeleteAgrees(states[1..], p1, paths, keys);
      }
    }
  }

  /** The fresh IVs and keys the split may use: enough of them, all new. */
  predicate FreshPieceKeys(ivs: seq<Bytes>, keys: seq<RemoteKey>, texts: map<RemoteKey, string>)
  {
    && |keys| > Split.MAX_DATA_FILE_SPLIT_NUM && |ivs| == |keys|
    && (forall j :: 0 <= j < |ivs| ==> |ivs[j]| == Files.IV_FIELD)
    && (forall j, k :: 0 <= j < k < |keys| ==> keys[j] != keys[k])
    && (forall k :: k in keys ==> k !in texts)
  }

  /** `texts` holds the text of `payloads[j]`, sealed with `ivs[j]`, under `keys[j]`. */
  predicate Stores(texts: map<RemoteKey, string>, ivs: seq<Bytes>, keys: seq<RemoteKey>, payloads: seq<Bytes>, c: Cipher)
  {
    && |payloads| <= |keys| && |payloads| <= |ivs|
    && forall j :: 0 <= j < |payloads| ==>
         |payloads[j]| < TWO_64 && keys[j] in texts && texts[keys[j]] == EncodeText(ivs[j], payloads[j], c)
  }

  /** `texts` is `base` with the first `n` keys added. */
  ghost predicate AddsKeys(base: map<RemoteKey, string>, texts: map<RemoteKey, string>, keys: seq<RemoteKey>, n: nat)
    requires n <= |keys|
  {
    && (forall k :: k in texts <==> k in base || k in keys[..n])
    && (forall k :: k in base ==> texts[k] == base[k])
  }

  /** The next key is not on the network yet. */
  lemma NextKeyFresh(base: map<RemoteKey, string>, texts: map<RemoteKey, string>, keys: seq<RemoteKey>, n: nat)
    requires n < |keys| && AddsKeys(base, texts, keys, n)
    requires forall j, k :: 0 <= j < k < |keys| ==> keys[j] != keys[k]
    requires forall k :: k in keys ==> k !in base
    ensures keys[n] !in texts
  {
    assert keys[n] in keys;
    forall j | 0 <= j < n ensures keys[..n][j] != keys[n] { }
  }

  /** Storing the next payload under a new key extends `Stores` by one. */
  lemma StoresNext(texts: map<RemoteKey, string>, ivs: seq<Bytes>, keys: seq<RemoteKey>,
                   payloads: seq<Bytes>, part: Bytes, c: Cipher)
    requires Stores(texts, ivs, keys, payloads, c)
    requires |payloads| < |keys| && |payloads| < |ivs| && |part| < TWO_64
    requires keys[|payloads|] !in texts
    ensures var n := |payloads|;
      Stores(texts[keys[n] := EncodeText(ivs[n], part, c)], ivs, keys, payloads + [part], c)
  {
    var n := |payloads|;
    var texts' := texts[keys[n] := EncodeText(ivs[n], part, c)];
    var payloads' := payloads + [part];
    forall j | 0 <= j < n + 1
      ensures |payloads'[j]| < TWO_64 && keys[j] in texts' && texts'[keys[j]] == EncodeText(ivs[j], payloads'[j], c)
    {
      if j < n {
        assert payloads'[j] == payloads[j] && keys[j] in texts;
      }
    }
  }

  /** Storing under the next key extends `AddsKeys` by one. */
  lemma AddsNext(base: map<RemoteKey, string>, texts: map<RemoteKey, string>, keys: seq<RemoteKey>, n: nat, t: string)
    requires n < |keys| && AddsKeys(base, texts, keys, n) && keys[n] !in base
    ensures AddsKeys(base, texts[keys[n] := t], keys, n + 1)
  {
    assert keys[..n + 1] == keys[..n] + [keys[n]];
  }

  /** Network pieces under the keys of `Stores` read back as the payloads joined. */
  lemma ReadStored(states: seq<PieceState>, texts: map<RemoteKey, string>, ivs: seq<Bytes>,
                   keys: seq<RemoteKey>, payloads: seq<Bytes>, files: map<string, Bytes>, c: Cipher)
    requires ValidCipher(c) && Stores(texts, ivs, keys, payloads, c)
    requires forall j :: 0 <= j < |ivs| ==> |ivs[j]| == Files.IV_FIELD
    requires |states| == |payloads| && forall j :: 0 <= j < |states| ==> states[j] == NetPiece(keys[j])
    ensures ReadPieces(states, Place(files, texts), c) == Returned(Split.Concat(payloads))
  {
    forall j | 0 <= j < |states|
      ensures ParseText(Found(states[j].key, texts), c) == Returned(payloads[j])
    {
      TextRoundTrip(ivs[j], payloads[j], c);
    }
    ReadHeld(states, payloads, Place(files, texts), c);
  }

  /** A local chunk just written reads back as the payload. */
  lemma ReadWritten(files: map<string, Bytes>, path: string, fileUid: Uid, uid: Uid, iv: Bytes, data: Bytes,
                    texts: map<RemoteKey, string>, c: Cipher)
    requires ValidCipher(c) && |iv| == Files.IV_FIELD && |data| <= LEGACY_CHUNK_SIZE
    ensures ReadPieces([DiskPiece(Some(path), Some(fileUid), Some(uid), |data|)],
                       Place(files[path := EncodeChunkFile(fileUid, uid, iv, data, c)], texts), c) == Returned(data)
  {
    var s := DiskPiece(Some(path), Some(fileUid), Some(uid), |data|);
    var place := Place(files[path := EncodeChunkFile(fileUid, uid, iv, data, c)], texts);
    WriteThenRead(files, path, fileUid, uid, iv, data, c, false, LEGACY_CHUNK_SIZE);
    assert ReadPiece(s, place, c) == Returned(data);
    assert [s][1..] == [] && data + [] == data;
  }

  /** `MistDataFile` of mist.py. */
  class DataFile {
    var uid: Option<Uid>
    var address: Option<string>
    /** `mist_chunks`. */
    var chunks: Option<seq<Piece>>

    function PieceObjects(): set<object>
      reads this
    {
      if chunks.Some? then PieceFootprint(chunks.value) else {}
    }

    /** The pieces as reading and deleting see them. */
    function Snapshot(): Option<seq<PieceState>>
      reads this, PieceObjects()
    {
      if chunks.Some? then Some(PieceStates(chunks.value)) else None
    }

    /**
     * What `Read` returns for the disk and network contents: nothing once
     * deleted, otherwise the pieces read in order and joined.
     */
    function Contents(files: map<string, Bytes>, texts: map<RemoteKey, string>, c: Cipher): Exc<Option<Bytes>>
      reads this, PieceObjects()
    {
      if uid.None? then Returned(None)
      else if chunks.None? then Raised
      else AsFound(ReadPieces(PieceStates(chunks.value), Place(files, texts), c))
    }

    ghost predicate Valid()
      reads this
    {
      && (uid.Some? ==> chunks.Some?)
      && (chunks.Some? ==> WellFormed(chunks.value))
    }

    /**
     * `__init__` and `_SplitFileIntoChunks`. Above `MistChunk.CHUNK_SIZE`
     * (512000 bytes) the payload is cut into tenths, each stored on the
     * network with `ivs[j]` under `keys[j]`; otherwise one local chunk
     * holds it, written with `ivs[0]`. `freshUid` and `chunkUid` stand for
     * `uuid.uuid4()`. Whatever the path, reading the pieces right away gives
     * the payload.
     */
    constructor (data: Bytes, address: Option<string>, rootPath: string, freshUid: Uid, chunkUid: Uid,
                 ivs: seq<Bytes>, keys: seq<RemoteKey>, disk: Disk, net: TextNetwork, c: Cipher)
      requires |data| < TWO_64 && FreshPieceKeys(ivs, keys, net.texts)
      modifies disk, net
      ensures Valid() && uid == Some(freshUid) && this.address == address && chunks.Some?
      ensures fresh(PieceObjects())
      ensures |data| > LEGACY_CHUNK_SIZE ==>
        && disk.files == old(disk.files)
        && |chunks.value| == |Split.Slices(data, Split.TenthStep(|data|))| <= |keys|
        && (forall j :: 0 <= j < |chunks.value| ==> PieceStates(chunks.value)[j] == NetPiece(keys[j]))
        && Stores(net.texts, ivs, keys, Split.Slices(data, Split.TenthStep(|data|)), c)
        && AddsKeys(old(net.texts), net.texts, keys, |chunks.value|)
      ensures |data| <= LEGACY_CHUNK_SIZE ==>
        && net.texts == old(net.texts)
        && PieceStates(chunks.value) ==
             [DiskPiece(Some(ChunkPath(rootPath, STORAGE_FOLDER_PATH, chunkUid)), Some(freshUid), Some(chunkUid), |data|)]
        && disk.files == old(disk.files)[ChunkPath(rootPath, STORAGE_FOLDER_PATH, chunkUid) :=
                                         EncodeChunkFile(freshUid, chunkUid, ivs[0], data, c)]
      ensures ValidCipher(c) ==> Contents(disk.files, net.texts, c) == Returned(Some(data))
    {
      uid := Some(freshUid);
      this.address := address;
      chunks := Some([]);
      new;
      if |data| > LEGACY_CHUNK_SIZE {
        SplitAcrossNetwork(data, ivs, keys, net, c);
      } else {
        StoreLocally(data, rootPath, chunkUid, ivs[0], disk, c);
      }
    }

    /** One local chunk, in the folder `chunks`, holds the whole payload. */
    method StoreLocally(data: Bytes, rootPath: string, chunkUid: Uid, iv: Bytes, disk: Disk, c: Cipher)
      requires uid.Some? && chunks == Some([])
      requires |data| <= LEGACY_CHUNK_SIZE && |iv| == Files.IV_FIELD
      modifies this, disk
      ensures Valid() && uid == old(uid) && address == old(address) && chunks.Some?
      ensures fresh(PieceObjects())
      ensures PieceStates(chunks.value) ==
        [DiskPiece(Some(ChunkPath(rootPath, STORAGE_FOLDER_PATH, chunkUid)), Some(uid.value), Some(chunkUid), |data|)]
      ensures disk.files == old(disk.files)[ChunkPath(rootPath, STORAGE_FOLDER_PATH, chunkUid) :=
                                           EncodeChunkFile(uid.value, chunkUid, iv, data, c)]
      ensures forall texts :: ValidCipher(c) ==>
        ReadPieces(PieceStates(chunks.value), Place(disk.files, texts), c) == Returned(data)
    {
      var chunk := new Chunk(uid.value, STORAGE_FOLDER_PATH, data, rootPath, chunkUid, iv, disk, c, true);
      chunks := Some([OnDisk(chunk)]);
      assert PieceStates(chunks.value) == [StateOfPiece(OnDisk(chunk))];
      forall texts | ValidCipher(c)
        ensures ReadPieces(PieceStates(chunks.value), Place(disk.files, texts), c) == Returned(data)
      {
        ReadWritten(old(disk.files), chunk.path.value, uid.value, chunkUid, iv, data, texts, c);
      }
    }

    /**
     * The split loop: `data[i:i+step]` for `i` in `xrange(0, len(data), step)`
     * with a step of a tenth of the payload, each piece a new network data
     * file appended to `mist_chunks`.
     */
    method SplitAcrossNetwork(data: Bytes, ivs: seq<Bytes>, keys: seq<RemoteKey>, net: TextNetwork, c: Cipher)
      requires chunks == Some([]) && LEGACY_CHUNK_SIZE < |data| < TWO_64
      requires FreshPieceKeys(ivs, keys, net.texts)
      modifies this, net
      ensures Valid() && uid == old(uid) && address == old(address) && chunks.Some?
      ensures fresh(PieceObjects())
      ensures |chunks.value| == |Split.Slices(data, Split.TenthStep(|data|))| <= |keys|
      ensures forall j :: 0 <= j < |chunks.value| ==> PieceStates(chunks.value)[j] == NetPiece(keys[j])
      ensures Stores(net.texts, ivs, keys, Split.Slices(data, Split.TenthStep(|data|)), c)
      ensures AddsKeys(old(net.texts), net.texts, keys, |chunks.value|)
      ensures forall files :: ValidCipher(c) ==>
        ReadPieces(PieceStates(chunks.value), Place(files, net.texts), c) == Returned(data)
    {
      var step := Split.TenthStep(|data|);
      Split.TenthStepBound(data);
      var i: nat, count: nat := 0, 0;
      ghost var payloads: seq<Bytes> := [];
      assert Drop(data, 0) == data;
      while i < |data|
        invariant uid == old(uid) && address == old(address) && fresh(PieceObjects())
        invariant Splitting(data, step, ivs, keys, old(net.texts), net.texts, i, count, payloads, c)
        decreases |data| - i
      {
        i, count, payloads := SplitStep(data, step, ivs, keys, old(net.texts), net, i, count, payloads, c);
      }
      assert Drop(data, i) == [];
      assert payloads == Split.Slices(data, step);
      SplitDone(chunks.value, keys);
      Split.SlicesConcat(data, step);
      forall files | ValidCipher(c)
        ensures ReadPieces(PieceStates(chunks.value), Place(files, net.texts), c) == Returned(data)
      {
        ReadStored(PieceStates(chunks.value), net.texts, ivs, keys, payloads, files, c);
      }
    }

    /**
     * The state of the split loop after `count` pieces, the first `i` bytes:
     * the pieces so far are network data files under the first `count` keys,
     * whose texts hold the payloads so far, on top of `base`.
     */
    ghost predicate Splitting(data: Bytes, step: nat, ivs: seq<Bytes>, keys: seq<RemoteKey>,
                              base: map<RemoteKey, string>, texts: map<RemoteKey, string>,
                              i: nat, count: nat, payloads: seq<Bytes>, c: Cipher)
      reads this
    {
      && step > 0 && |data| < TWO_64
      && chunks.Some? && |chunks.value| == count == |payloads| <= |keys|
      && |Split.Slices(data, step)| <= Split.MAX_DATA_FILE_SPLIT_NUM + 1
      && Split.Slices(data, step) == payloads + Split.Slices(Drop(data, i), step)
      && Under(chunks.value, keys)
      && Stores(texts, ivs, keys, payloads, c)
      && AddsKeys(base, texts, keys, count)
    }

    /** One turn of the split loop. */
    method SplitStep(data: Bytes, step: nat, ivs: seq<Bytes>, keys: seq<RemoteKey>,
                     ghost base: map<RemoteKey, string>, net: TextNetwork,
                     i: nat, count: nat, ghost payloads: seq<Bytes>, c: Cipher)
      returns (i': nat, count': nat, ghost payloads': seq<Bytes>)
      requires Splitting(data, step, ivs, keys, base, net.texts, i, count, payloads, c)
      requires i < |data| && FreshPieceKeys(ivs, keys, base)
      modifies this, net
      ensures uid == old(uid) && address == old(address)
      ensures forall o :: o in PieceObjects() ==> o in old(PieceObjects()) || fresh(o)
      ensures i' > i && Splitting(data, step, ivs, keys, base, net.texts, i', count', payloads', c)
    {
      var part := Take(Drop(data, i), step);
      Split.SlicesStep(data, step, payloads, i);
      DropDrop(data, i, step);
      NextKeyFresh(base, net.texts, keys, count);
      StoresNext(net.texts, ivs, keys, payloads, part, c);
      AddsNext(base, net.texts, keys, count, EncodeText(ivs[count], part, c));
      assert keys[count] in keys;
      var file := new NetworkDataFile(part, ivs[count], keys[count], net, c);
      UnderNext(chunks.value, keys, file);
      chunks := Some(chunks.value + [OnNetwork(file)]);
      i', count', payloads' := i + step, count + 1, payloads + [part];
    }

    /** `Read`: nothing for a deleted data file, otherwise the pieces joined in order. */
    method Read(disk: Disk, net: TextNetwork, c: Cipher) returns (r: Exc<Option<Bytes>>)
      requires Valid()
      ensures uid.None? ==> r == Returned(None)
      ensures r == Contents(disk.files, net.texts, c)
    {
      if uid.None? {
        return Returned(None);
      }
      var data := ReadInOrder(chunks.value, disk, net, c);
      r := AsFound(data);
    }

    /**
     * `Delete`: the pieces are deleted in order; the first that raises stops
     * the delete with the file untouched. When all go, the uid, the address
     * and the piece list are cleared, and a second `Delete` raises on the
     * missing list.
     */
    method Delete(disk: Disk, net: TextNetwork) returns (r: Exc<()>)
      requires Valid()
      modifies this, disk, net, PieceObjects()
      ensures (r, Place(disk.files, net.texts)) == DeleteOutcome(old(Snapshot()), Place(old(disk.files), old(net.texts)))
      ensures r.Returned? ==> uid.None? && address.None? && chunks.None?
      ensures r.Raised? ==> uid == old(uid) && address == old(address) && chunks == old(chunks)
      ensures Valid()
    {
      if chunks.None? {
        return Raised;
      }
      r := DeleteInOrder(chunks.value, disk, net);
      if r.Raised? {
        return;
      }
      uid := None;
      address := None;
      chunks := None;
    }
  }

  /** The pieces are network data files under the first keys of `keys`, in order. */
  predicate Under(list: seq<Piece>, keys: seq<RemoteKey>)
  {
    |list| <= |keys| && forall j :: 0 <= j < |list| ==> list[j].OnNetwork? && list[j].remote.key == keys[j]
  }

  lemma UnderNext(list: seq<Piece>, keys: seq<RemoteKey>, f: NetworkDataFile)
    requires Under(list, keys) && |list| < |keys| && f.key == keys[|list|]
    ensures Under(list + [OnNetwork(f)], keys)
  {
  }

  /** Pieces that are network data files under distinct keys are well formed. */
  lemma SplitDone(list: seq<Piece>, keys: seq<RemoteKey>)
    requires Under(list, keys)
    requires forall j, k :: 0 <= j < k < |keys| ==> keys[j] != keys[k]
    ensures WellFormed(list)
    ensures forall j :: 0 <= j < |list| ==> PieceStates(list)[j] == NetPiece(keys[j])
  {
  }

  /** The loop of `MistDataFile.Read`: `data += chunk.Read()` over the pieces. */
  method ReadInOrder(list: seq<Piece>, disk: Disk, net: TextNetwork, c: Cipher) returns (r: Exc<Bytes>)
    requires WellFormed(list)
    ensures r == ReadPieces(PieceStates(list), Place(disk.files, net.texts), c)
  {
    ghost var states := PieceStates(list);
    ghost var place := Place(disk.files, net.texts);
    ghost var all := ReadPieces(states, place, c);
    var data: Bytes := [];
    var i := 0;
    assert states[0..] == states;
    assert all.Returned? ==> [] + all.value == all.value;
    while i < |list|
      invariant 0 <= i <= |list|
      invariant place == Place(disk.files, net.texts)
      invariant forall j :: 0 <= j < |list| ==> StateOfPiece(list[j]) == states[j]
      invariant all == Joined(data, ReadPieces(states[i..], place, c))
    {
      var piece := ReadOnePiece(list[i], disk, net, c);
      assert states[i..][0] == states[i] && states[i..][1..] == states[i + 1..];
      if piece.Raised? {
        assert PieceStates(list) == states;
        return Raised;
      }
      assert (data + piece.value) + [] == data + piece.value;
      JoinedAssoc(data, piece.value, ReadPieces(states[i + 1..], place, c));
      data := data + piece.value;
      i := i + 1;
    }
    assert states[i..] == [] && data + [] == data;
    assert PieceStates(list) == states;
    r := Returned(data);
  }

  lemma JoinedAssoc(a: Bytes, b: Bytes, r: Exc<Bytes>)
    ensures Joined(a, Joined(b, r)) == Joined(a + b, r)
  {
    if r.Returned? {
      assert a + (b + r.value) == (a + b) + r.value;
    }
  }

  /** `chunk.Read()` for one piece, with None turned into the exception `+=` raises. */
  method ReadOnePiece(p: Piece, disk: Disk, net: TextNetwork, c: Cipher) returns (r: Exc<Bytes>)
    requires p.OnDisk? ==> p.chunk.legacy
    ensures r == ReadPiece(StateOfPiece(p), Place(disk.files, net.texts), c)
  {
    match p
    case OnDisk(ch) =>
      var found := ch.Read(disk, c);
      r := if found.Raised? || found.value.None? then Raised else Returned(found.value.value);
    case OnNetwork(n) =>
      r := n.Read(net, c);
  }

  /** The loop of `MistDataFile.Delete`: in order, until a piece raises. */
  method DeleteInOrder(list: seq<Piece>, disk: Disk, net: TextNetwork) returns (r: Exc<()>)
    requires WellFormed(list)
    modifies disk, net, PieceFootprint(list)
    ensures (r, Place(disk.files, net.texts)) ==
            DeletePieces(old(PieceStates(list)), Place(old(disk.files), old(net.texts)))
  {
    ghost var states := PieceStates(list);
    ghost var expected := DeletePieces(states, Place(disk.files, net.texts));
    var i := 0;
    assert states[0..] == states;
    while i < |list|
      invariant 0 <= i <= |list|
      invariant forall j :: i <= j < |list| ==> StateOfPiece(list[j]) == states[j]
      invariant expected == DeletePieces(states[i..], Place(disk.files, net.texts))
    {
      ghost var place := Place(disk.files, net.texts);
      assert states[i..][0] == states[i] && states[i..][1..] == states[i + 1..];
      var done := DeleteOnePiece(list, i, disk, net);
      assert (done, Place(disk.files, net.texts)) == DeletePiece(states[i], place);
      if done.Raised? {
        return done;
      }
      i := i + 1;
    }
    r := Returned(());
  }

  /** `chunk.Delete()` for `list[i]`; the pieces after it are left as they are. */
  method DeleteOnePiece(list: seq<Piece>, i: nat, disk: Disk, net: TextNetwork) returns (r: Exc<()>)
    requires i < |list| && WellFormed(list)
    modifies PieceObject(list[i]), disk, net
    ensures (r, Place(disk.files, net.texts)) ==
            DeletePiece(old(StateOfPiece(list[i])), Place(old(disk.files), old(net.texts)))
    ensures forall j :: i < j < |list| ==> StateOfPiece(list[j]) == old(StateOfPiece(list[j]))
  {
    match list[i]
    case OnDisk(ch) =>
      var done := ch.Delete(disk);
      r := if done.Raised? then Raised else Returned(());
    case OnNetwork(n) =>
      n.Delete(net);
      r := Returned(());
    forall j | i < j < |list| ensures StateOfPiece(list[j]) == old(StateOfPiece(list[j]))
    {
      assert PieceObject(list[j]) != PieceObject(list[i]);
    }
  }

  /**
   * A live file whose key holds the text of `data` reads back as `data`;
   * this is what lets `MistFile`'s constructor, and through it `AddFile` and
   * `ModifyFile`, promise that the new entry reads back the disk contents.
   */
  lemma FileReadsBack(f: MistFile, texts: map<RemoteKey, string>, iv: Bytes, data: Bytes, c: Cipher)
    requires ValidCipher(c) && |iv| == Files.IV_FIELD && |data| < TWO_64
    requires f.uid.Some? && f.dataFile.Some?
    requires Found(f.dataFile.value.key, texts) == Some(EncodeText(iv, data, c))
    ensures f.Contents(texts, c) == Returned(Some(data))
  {
    TextRoundTrip(iv, data, c);
  }

  /** Cataloguing a path anew after dropping it is replacing its entry. */
  lemma PutAfterRemove<K, V>(m: map<K, V>, k: K, v: V)
    ensures (m - {k})[k := v] == m[k := v]
  {
  }

  // ---------------------------------------------------------------------
  // The catalog
  // ---------------------------------------------------------------------

  /** `Mist` of mist.py: the node's own files by path and the payloads it keeps for others by uid. */
  class Mist {
    const rootPath: string
    /** `mist_network_address`. */
    var address: Option<string>
    /** `mist_files`. */
    var files: map<string, MistFile>
    /** `mist_data_files`. */
    var dataFiles: map<Uid, DataFile>

    ghost predicate Valid()
      reads this, files.Values, dataFiles.Values
    {
      && (forall p | p in files :: files[p].Valid())
      && (forall u | u in dataFiles :: dataFiles[u].Valid())
    }

    /** `__init__` without `autostart`: an empty catalog, not on any network. */
    constructor (rootPath: string)
      ensures Valid() && this.rootPath == rootPath
      ensures address.None? && files == map[] && dataFiles == map[]
    {
      this.rootPath := rootPath;
      address := None;
      files := map[];
      dataFiles := map[];
    }

    /**
     * `DeleteFile`: a catalogued file is deleted and dropped from the
     * catalog; any other path changes nothing.
     */
    method DeleteFile(path: string, net: TextNetwork)
      requires Valid()
      modifies this, net, if path in files then {files[path]} else {}
      ensures Valid() && dataFiles == old(dataFiles) && address == old(address)
      ensures path !in old(files) ==> files == old(files) && net.texts == old(net.texts)
      ensures path in old(files) ==>
        files == old(files) - {path} && net.texts == old(Released(files[path], net.texts))
    {
      if path in files {
        files[path].Delete(net);
        files := files - {path};
      }
    }

    /**
     * The tail of `AddFile` and `ModifyFile`: the file is read from the disk
     * (a missing file raises and nothing is added) and catalogued as a new
     * `MistFile` under its path.
     */
    method Insert(path: string, disk: Disk, newUid: Uid, iv: Bytes, key: RemoteKey, net: TextNetwork, c: Cipher)
      returns (r: Exc<()>)
      requires Valid() && |iv| == Files.IV_FIELD && key !in net.texts
      requires path in disk.files ==> |disk.files[path]| < TWO_64
      modifies this, net
      ensures Valid() && dataFiles == old(dataFiles) && address == old(address)
      ensures path !in disk.files ==> r == Raised && files == old(files) && net.texts == old(net.texts)
      ensures path in disk.files ==>
        && r == Returned(())
        && path in files && fresh(files[path]) && files == old(files)[path := files[path]]
        && files[path].uid == Some(newUid) && files[path].filename == Some(Basename(path))
        && files[path].dataFile.Some? && files[path].dataFile.value.key == key
        && net.texts == old(net.texts)[key := EncodeText(iv, disk.files[path], c)]
        && (ValidCipher(c) ==> files[path].Contents(net.texts, c) == Returned(Some(disk.files[path])))
    {
      if path !in disk.files {
        return Raised;
      }
      var file := new MistFile(path, disk, newUid, iv, key, net, c);
      files := files[path := file];
      r := Returned(());
    }

    /**
     * `AddFile`: a catalogued path is left alone unless `overwrite`, in which
     * case the old file is deleted first; then the file is read and
     * catalogued anew under the same path.
     */
    method AddFile(path: string, overwrite: bool, disk: Disk, newUid: Uid, iv: Bytes, key: RemoteKey,
                   net: TextNetwork, c: Cipher)
      returns (r: Exc<()>)
      requires Valid() && |iv| == Files.IV_FIELD && key !in net.texts
      requires path in disk.files ==> |disk.files[path]| < TWO_64
      modifies this, net, if path in files then {files[path]} else {}
      ensures Valid() && dataFiles == old(dataFiles) && address == old(address)
      ensures path in old(files) && !overwrite ==>
        r == Returned(()) && files == old(files) && net.texts == old(net.texts)
      ensures !(path in old(files) && !overwrite) ==>
        var cleared := if path in old(files) then old(Released(files[path], net.texts)) else old(net.texts);
        && (path !in disk.files ==> r == Raised && files == old(files) - {path} && net.texts == cleared)
        && (path in disk.files ==>
              && r == Returned(())
              && path in files && fresh(files[path]) && files == old(files)[path := files[path]]
              && files[path].uid == Some(newUid) && files[path].filename == Some(Basename(path))
              && files[path].dataFile.Some? && files[path].dataFile.value.key == key
              && net.texts == cleared[key := EncodeText(iv, disk.files[path], c)]
              && (ValidCipher(c) ==> files[path].Contents(net.texts, c) == Returned(Some(disk.files[path]))))
    {
      if path in files {
        if overwrite {
          DeleteFile(path, net);
        } else {
          return Returned(());
        }
      }
      r := Insert(path, disk, newUid, iv, key, net, c);
      if r.Returned? {
        PutAfterRemove(old(files), path, files[path]);
      }
    }

    /**
     * `ModifyFile`: a catalogued file is deleted and read anew under the same
     * path; an unknown path changes nothing.
     */
    method ModifyFile(path: string, disk: Disk, newUid: Uid, iv: Bytes, key: RemoteKey, net: TextNetwork, c: Cipher)
      returns (r: Exc<()>)
      requires Valid() && |iv| == Files.IV_FIELD && key !in net.texts
      requires path in disk.files ==> |disk.files[path]| < TWO_64
      modifies this, net, if path in files then {files[path]} else {}
      ensures Valid() && dataFiles == old(dataFiles) && address == old(address)
      ensures path !in old(files) ==> r == Returned(()) && files == old(files) && net.texts == old(net.texts)
      ensures path in old(files) ==>
        var cleared := old(Released(files[path], net.texts));
        && (path !in disk.files ==> r == Raised && files == old(files) - {path} && net.texts == cleared)
        && (path in disk.files ==>
              && r == Returned(())
              && path in files && fresh(files[path]) && files == old(files)[path := files[path]]
              && files[path].uid == Some(newUid) && files[path].filename == Some(Basename(path))
              && files[path].dataFile.Some? && files[path].dataFile.value.key == key
              && net.texts == cleared[key := EncodeText(iv, disk.files[path], c)]
              && (ValidCipher(c) ==> files[path].Contents(net.texts, c) == Returned(Some(disk.files[path]))))
    {
      if path !in files {
        return Returned(());
      }
      DeleteFile(path, net);
      r := Insert(path, disk, newUid, iv, key, net, c);
      if r.Returned? {
        PutAfterRemove(old(files), path, files[path]);
      }
    }

    /** `ReadFile`: the file's contents, or None for a path not in the catalog. */
    method ReadFile(path: string, net: TextNetwork, c: Cipher) returns (r: Exc<Option<Bytes>>)
      requires Valid()
      ensures path !in files ==> r == Returned(None)
      ensures path in files ==> r == files[path].Contents(net.texts, c)
    {
      if path !in files {
        return Returned(None);
      }
      r := files[path].Read(net, c);
    }

    /**
     * `StoreDataFile`: a payload handed over by another member becomes a new
     * data file under its fresh uid, which is returned; reading it back
     * gives the payload.
     */
    method StoreDataFile(data: Bytes, freshUid: Uid, chunkUid: Uid, ivs: seq<Bytes>, keys: seq<RemoteKey>,
                         disk: Disk, net: TextNetwork, c: Cipher)
      returns (u: Uid)
      requires Valid() && freshUid !in dataFiles
      requires |data| < TWO_64 && FreshPieceKeys(ivs, keys, net.texts)
      modifies this, disk, net
      ensures Valid() && files == old(files) && address == old(address)
      ensures u == freshUid && u in dataFiles && fresh(dataFiles[u])
      ensures dataFiles == old(dataFiles)[u := dataFiles[u]]
      ensures |data| > LEGACY_CHUNK_SIZE ==>
        && disk.files == old(disk.files)
        && Stores(net.texts, ivs, keys, Split.Slices(data, Split.TenthStep(|data|)), c)
        && AddsKeys(old(net.texts), net.texts, keys, |Split.Slices(data, Split.TenthStep(|data|))|)
      ensures |data| <= LEGACY_CHUNK_SIZE ==>
        && net.texts == old(net.texts)
        && disk.files == old(disk.files)[ChunkPath(rootPath, STORAGE_FOLDER_PATH, chunkUid) :=
                                         EncodeChunkFile(freshUid, chunkUid, ivs[0], data, c)]
      ensures ValidCipher(c) ==> dataFiles[u].Contents(disk.files, net.texts, c) == Returned(Some(data))
    {
      var dataFile := new DataFile(data, address, rootPath, freshUid, chunkUid, ivs, keys, disk, net, c);
      u := dataFile.uid.value;
      ghost var back := dataFile.Contents(disk.files, net.texts, c);
      // The catalog is none of the new pieces.
      assert this !in dataFile.PieceObjects();
      dataFiles := dataFiles[u := dataFile];
      assert dataFile.Contents(disk.files, net.texts, c) == back;
    }

    /** `RetrieveDataFile`: the payload, or None for an unknown uid. */
    method RetrieveDataFile(u: Uid, disk: Disk, net: TextNetwork, c: Cipher) returns (r: Exc<Option<Bytes>>)
      requires Valid()
      ensures u !in dataFiles ==> r == Returned(None)
      ensures u in dataFiles ==> r == dataFiles[u].Contents(disk.files, net.texts, c)
    {
      if u !in dataFiles {
        return Returned(None);
      }
      r := dataFiles[u].Read(disk, net, c);
    }

    /**
     * `DeleteDataFile`: a known data file is deleted and, if that does not
     * raise, dropped from the catalog; an unknown uid changes nothing.
     */
    method DeleteDataFile(u: Uid, disk: Disk, net: TextNetwork) returns (r: Exc<()>)
      requires Valid()
      modifies this, disk, net, if u in dataFiles then {dataFiles[u]} + dataFiles[u].PieceObjects() else {}
      ensures Valid() && files == old(files) && address == old(address)
      ensures u !in old(dataFiles) ==>
        r == Returned(()) && dataFiles == old(dataFiles) && disk.files == old(disk.files) && net.texts == old(net.texts)
      ensures u in old(dataFiles) ==>
        && (r, Place(disk.files, net.texts)) ==
           DeleteOutcome(old(dataFiles[u].Snapshot()), Place(old(disk.files), old(net.texts)))
        && dataFiles == if r.Returned? then old(dataFiles) - {u} else old(dataFiles)
    {
      if u !in dataFiles {
        return Returned(());
      }
      r := dataFiles[u].Delete(disk, net);
      if r.Returned? {
        dataFiles := dataFiles - {u};
      }
    }
  }
}
