/**
 * The data-file engine of data_files.py (and of its earlier revision
 * mist_data_files.py): a payload is cut into shards, kept either as one
 * local encrypted chunk or as up to eleven plain pieces stored on the
 * network, read back by concatenating the shards in order, and deleted
 * shard by shard.
 *
 * The creation threads are modelled as having finished when the
 * constructor returns; a `join` that times out is a boolean parameter
 * (`timedOut`, and the set `stalled` of network shards whose own store
 * thread is still running), so the timeout branch is taken whenever the
 * caller says so.
 */
module DataFiles {
  import opened Common
  import opened Storage
  import opened MistChunk
  import Split

  /** `files.MistFile.STORAGE_FOLDER_PATH`: where the local chunk is written. */
  const CHUNK_FOLDER: string := "chunks"

  /** What the network holds under `key`, when the key is known. */
  function Lookup(key: Option<RemoteKey>, objects: map<RemoteKey, Bytes>): Option<Bytes>
  {
    if key.Some? && key.value in objects then Some(objects[key.value]) else None
  }

  /** `MistNetworkDataFile`: one piece of a payload, kept on the network. */
  class NetworkShard {
    var memberUid: Option<Uid>
    var dataUid: Option<Uid>
    /** `size`, the length of the piece, recorded before it is stored. */
    const size: nat
    /** `_data`, the piece while it still waits to be stored. */
    var pending: Option<Bytes>

    /** Where the piece lives, once both uids are known. */
    function Key(): Option<RemoteKey>
      reads this
    {
      if memberUid.Some? && dataUid.Some? then Some(RemoteKey(memberUid.value, dataUid.value)) else None
    }

    /** What a retrieve finds on the network for this shard. */
    function Retrieved(objects: map<RemoteKey, Bytes>): Option<Bytes>
      reads this
    {
      Lookup(Key(), objects)
    }

    /**
     * `__init__`, with its creation thread run to the end: the piece is
     * stored under `key`, the fresh pair the network chooses.
     */
    constructor (data: Bytes, key: RemoteKey, net: NetworkClient)
      requires key !in net.objects
      modifies net
      ensures size == |data| && Key() == Some(key) && pending.None?
      ensures net.objects == old(net.objects)[key := data]
    {
      memberUid := None;
      dataUid := None;
      size := |data|;
      pending := Some(data);
      new;
      StoreOnNetwork(data, key, net);
    }

    /**
     * `_StoreDataFileOnNetwork`: stores the piece only while no data uid is
     * known, then drops the pending copy; a shard already stored is left as
     * it is.
     */
    method StoreOnNetwork(data: Bytes, key: RemoteKey, net: NetworkClient)
      requires dataUid.None? ==> key !in net.objects
      modifies this, net
      ensures old(dataUid).Some? ==>
        memberUid == old(memberUid) && dataUid == old(dataUid) && pending == old(pending) &&
        net.objects == old(net.objects)
      ensures old(dataUid).None? ==>
        Key() == Some(key) && pending.None? && net.objects == old(net.objects)[key := data]
    {
      if dataUid.None? {
        var stored := net.StoreDataOnNetwork(data, key);
        memberUid, dataUid := Some(stored.member), Some(stored.data);
        pending := None;
      }
    }

    /** `Read`: nothing while the store is still running, otherwise what the network holds. */
    method Read(timedOut: bool, net: NetworkClient) returns (r: Option<Bytes>)
      ensures r == if timedOut then None else Retrieved(net.objects)
    {
      if timedOut {
        return None;
      }
      if Key().None? {
        return None;
      }
      r := net.RetrieveDataOnNetwork(Key().value);
    }

    /** `Delete`: false while the store is still running, otherwise what the network answers. */
    method Delete(timedOut: bool, net: NetworkClient) returns (ok: bool)
      modifies net
      ensures ok <==> !timedOut && Key().Some? && Key().value in old(net.objects)
      ensures net.objects == if timedOut || Key().None? then old(net.objects) else old(net.objects) - {Key().value}
    {
      if timedOut || Key().None? {
        return false;
      }
      ok := net.DeleteDataOnNetwork(Key().value);
    }
  }


  /** An element of `mist_chunks`: a local chunk or a network piece. */
  datatype Shard = Local(chunk: Chunk) | Remote(remote: NetworkShard)

  function ObjectOf(s: Shard): object
  {
    if s.Local? then s.chunk else s.remote
  }

  function Footprint(shards: seq<Shard>): set<object>
  {
    set s | s in shards :: ObjectOf(s)
  }

  /** No shard object occurs twice. */
  predicate Distinct(shards: seq<Shard>)
  {
    forall j, k :: 0 <= j < k < |shards| ==> ObjectOf(shards[j]) != ObjectOf(shards[k])
  }

  /** The disk and the network together. */
  datatype World = World(files: map<string, Bytes>, objects: map<RemoteKey, Bytes>)

  /**
   * What reading and deleting a shard depend on: the fields of a local
   * chunk; or the key and size of a network piece and whether its store
   * thread is still running.
   */
  datatype ShardState =
    | LocalState(path: Option<string>, fileUid: Option<Uid>, uid: Option<Uid>, size: nat, legacy: bool)
    | RemoteState(key: Option<RemoteKey>, size: nat, stalled: bool)

  function StateOf(s: Shard, stalled: set<NetworkShard>): ShardState
    reads ObjectOf(s)
  {
    match s
    case Local(ch) => LocalState(ch.path, ch.fileUid, ch.uid, ch.size, ch.legacy)
    case Remote(n) => RemoteState(n.Key(), n.size, n in stalled)
  }

  function States(shards: seq<Shard>, stalled: set<NetworkShard>): (r: seq<ShardState>)
    reads Footprint(shards)
    ensures |r| == |shards|
    ensures forall j :: 0 <= j < |shards| ==> r[j] == StateOf(shards[j], stalled)
  {
    if shards == [] then [] else [StateOf(shards[0], stalled)] + States(shards[1..], stalled)
  }

  lemma StatesAppend(shards: seq<Shard>, s: Shard, stalled: set<NetworkShard>)
    ensures States(shards + [s], stalled) == States(shards, stalled) + [StateOf(s, stalled)]
  {
  }

  /** The sum of the recorded `size`s. */
  function TotalSize(states: seq<ShardState>): nat
  {
    if states == [] then 0 else states[0].size + TotalSize(states[1..])
  }

  /** `chunk.Read()` against the disk and network contents `w`. */
  function ReadShard(s: ShardState, w: World, c: Cipher): Exc<Option<Bytes>>
  {
    match s
    case LocalState(path, fileUid, uid, size, legacy) =>
      ReadChunkFile(w.files, path, fileUid, uid, size, c, !legacy, ReadLimit(legacy))
    case RemoteState(key, _, stalled) =>
      Returned(if stalled then None else Lookup(key, w.objects))
  }

  /** Prefixes `d` to a successful read and leaves a failed one as it is. */
  function Prepend(d: Bytes, r: Exc<Option<Bytes>>): Exc<Option<Bytes>>
  {
    if r.Returned? && r.value.Some? then Returned(Some(d + r.value.value)) else r
  }

  /**
   * The read loop of `MistDataFile.Read`: shards are read in order; the first
   * that raises, returns nothing or returns a piece of the wrong length ends
   * the read. A successful read is exactly as long as the shards say.
   */
  function ReadShards(states: seq<ShardState>, w: World, c: Cipher): (r: Exc<Option<Bytes>>)
    ensures r.Returned? && r.value.Some? ==> |r.value.value| == TotalSize(states)
    decreases |states|
  {
    if states == [] then Returned(Some([]))
    else
      var first := ReadShard(states[0], w, c);
      if first.Raised? then Raised
      else if first.value.None? || |first.value.value| != states[0].size then Returned(None)
      else Prepend(first.value.value, ReadShards(states[1..], w, c))
  }

  /** A shard whose read returns data of its recorded size. */
  predicate Intact(s: ShardState, w: World, c: Cipher)
  {
    var r := ReadShard(s, w, c);
    r.Returned? && r.value.Some? && |r.value.value| == s.size
  }

  /** What each shard's read returns, in order (nothing for a shard that is not intact). */
  function ShardReads(states: seq<ShardState>, w: World, c: Cipher): (r: seq<Bytes>)
    ensures |r| == |states|
    ensures forall j :: 0 <= j < |states| && Intact(states[j], w, c) ==>
      r[j] == ReadShard(states[j], w, c).value.value
    decreases |states|
  {
    if states == [] then []
    else
      [if Intact(states[0], w, c) then ReadShard(states[0], w, c).value.value else []]
      + ShardReads(states[1..], w, c)
  }

  /** When every shard is intact, the read loop returns their reads joined in order. */
  lemma {:induction false} ReadShardsIntact(states: seq<ShardState>, w: World, c: Cipher)
    requires forall j :: 0 <= j < |states| ==> Intact(states[j], w, c)
    ensures ReadShards(states, w, c) == Returned(Some(Split.Concat(ShardReads(states, w, c))))
    decreases |states|
  {
    if states != [] {
      var tail := states[1..];
      assert forall j :: 0 <= j < |tail| ==> tail[j] == states[j + 1];
      ReadShardsIntact(tail, w, c);
      assert ShardReads(states, w, c)[1..] == ShardReads(tail, w, c);
    }
  }

  /**
   * Otherwise the first shard that is not intact decides: an exception when
   * its read raised, nothing when it returned nothing or data of the wrong
   * length.
   */
  lemma {:induction false} ReadShardsBroken(states: seq<ShardState>, k: nat, w: World, c: Cipher)
    requires k < |states| && !Intact(states[k], w, c)
    requires forall j :: 0 <= j < k ==> Intact(states[j], w, c)
    ensures ReadShards(states, w, c) == if ReadShard(states[k], w, c).Raised? then Raised else Returned(None)
    decreases k
  {
    if k == 0 {
      ReadShardsHead(states, w, c);
    } else {
      var tail := states[1..];
      assert tail[k - 1] == states[k];
      assert forall j :: 0 <= j < k - 1 ==> tail[j] == states[j + 1];
      ReadShardsBroken(tail, k - 1, w, c);
      ReadShardsCons(states, w, c);
    }
  }

  /** A first shard that is not intact ends the read. */
  lemma ReadShardsHead(states: seq<ShardState>, w: World, c: Cipher)
    requires states != [] && !Intact(states[0], w, c)
    ensures ReadShards(states, w, c) == if ReadShard(states[0], w, c).Raised? then Raised else Returned(None)
  {
  }

  /** An intact first shard is put in front of what the rest reads. */
  lemma ReadShardsCons(states: seq<ShardState>, w: World, c: Cipher)
    requires states != [] && Intact(states[0], w, c)
    ensures ReadShards(states, w, c) == Prepend(ReadShard(states[0], w, c).value.value, ReadShards(states[1..], w, c))
  {
  }

  /**
   * When no shard's read raises, the read loop returns nothing exactly when
   * some shard is not intact, and otherwise the joined reads.
   */
  lemma {:induction false} ReadShardsNone(states: seq<ShardState>, w: World, c: Cipher)
    requires forall j :: 0 <= j < |states| ==> ReadShard(states[j], w, c).Returned?
    ensures ReadShards(states, w, c) == Returned(None) <==> exists j :: 0 <= j < |states| && !Intact(states[j], w, c)
    ensures ReadShards(states, w, c) != Returned(None) ==>
      ReadShards(states, w, c) == Returned(Some(Split.Concat(ShardReads(states, w, c))))
    decreases |states|
  {
    if states != [] && !Intact(states[0], w, c) {
      assert ReadShard(states[0], w, c).Returned?;
    } else if states != [] {
      var tail := states[1..];
      assert forall j :: 0 <= j < |tail| ==> tail[j] == states[j + 1];
      ReadShardsNone(tail, w, c);
      if exists j :: 0 <= j < |tail| && !Intact(tail[j], w, c) {
        var j :| 0 <= j < |tail| && !Intact(tail[j], w, c);
        assert !Intact(states[j + 1], w, c);
      }
      if exists j :: 0 <= j < |states| && !Intact(states[j], w, c) {
        var j :| 0 <= j < |states| && !Intact(states[j], w, c);
        assert !Intact(tail[j - 1], w, c);
      }
    }
  }

  /** The shards are network pieces, none still storing, holding `pieces` in order. */
  predicate HoldsPieces(states: seq<ShardState>, pieces: seq<Bytes>, objects: map<RemoteKey, Bytes>)
  {
    && |states| == |pieces|
    && forall j :: 0 <= j < |states| ==>
         && states[j].RemoteState?
         && !states[j].stalled
         && states[j].size == |pieces[j]|
         && Lookup(states[j].key, objects) == Some(pieces[j])
  }

  /** Network pieces that are all there read back as their concatenation. */
  lemma {:induction false} ReadPieces(states: seq<ShardState>, pieces: seq<Bytes>, w: World, c: Cipher)
    requires HoldsPieces(states, pieces, w.objects)
    ensures ReadShards(states, w, c) == Returned(Some(Split.Concat(pieces)))
    decreases |states|
  {
    if states != [] {
      assert HoldsPieces(states[1..], pieces[1..], w.objects) by {
        forall j | 0 <= j < |states| - 1
          ensures states[1..][j] == states[j + 1] && pieces[1..][j] == pieces[j + 1]
        {
        }
      }
      ReadPieces(states[1..], pieces[1..], w, c);
    }
  }

  /** The sizes of network pieces add up to the length of what they hold. */
  lemma {:induction false} PiecesTotal(states: seq<ShardState>, pieces: seq<Bytes>, objects: map<RemoteKey, Bytes>)
    requires HoldsPieces(states, pieces, objects)
    ensures TotalSize(states) == Split.SumOfSizes(pieces)
    decreases |states|
  {
    if states != [] {
      assert HoldsPieces(states[1..], pieces[1..], objects) by {
        forall j | 0 <= j < |states| - 1
          ensures states[1..][j] == states[j + 1] && pieces[1..][j] == pieces[j + 1]
        {
        }
      }
      PiecesTotal(states[1..], pieces[1..], objects);
    }
  }

  /** A file of one shard whose read has the recorded size reads as that shard. */
  lemma ReadOneShard(s: ShardState, w: World, c: Cipher)
    requires ReadShard(s, w, c).Returned? && ReadShard(s, w, c).value.Some?
    requires |ReadShard(s, w, c).value.value| == s.size
    ensures ReadShards([s], w, c) == ReadShard(s, w, c)
  {
    var d := ReadShard(s, w, c).value.value;
    assert [s][1..] == [];
    assert d + [] == d;
  }

  /**
   * One turn of the read loop, stated on the remaining shards `states[i..]`
   * with `data` read so far.
   */
  lemma ReadStep(states: seq<ShardState>, i: nat, data: Bytes, piece: Exc<Option<Bytes>>, w: World, c: Cipher)
    requires i < |states| && piece == ReadShard(states[i], w, c)
    ensures piece.Raised? ==> Prepend(data, ReadShards(states[i..], w, c)) == Raised
    ensures piece.Returned? && (piece.value.None? || |piece.value.value| != states[i].size) ==>
      Prepend(data, ReadShards(states[i..], w, c)) == Returned(None)
    ensures piece.Returned? && piece.value.Some? && |piece.value.value| == states[i].size ==>
      Prepend(data, ReadShards(states[i..], w, c)) ==
      Prepend(data + piece.value.value, ReadShards(states[i + 1..], w, c))
  {
    assert states[i..][0] == states[i] && states[i..][1..] == states[i + 1..];
    if piece.Returned? && piece.value.Some? && |piece.value.value| == states[i].size {
      var tail := ReadShards(states[i + 1..], w, c);
      if tail.Returned? && tail.value.Some? {
        assert data + (piece.value.value + tail.value.value) == (data + piece.value.value) + tail.value.value;
      }
    }
  }

  /**
   * `MistDataFile.Read`: nothing for a deleted file (uid None) or when the
   * creation thread is still running; then the shards in order; and, in the
   * revision of data_files.py (`checksTotal`), nothing when the total length
   * differs from `size`.
   */
  function ReadDataFile(uid: Option<Uid>, states: Option<seq<ShardState>>, size: nat, checksTotal: bool,
                        timedOut: bool, w: World, c: Cipher): (r: Exc<Option<Bytes>>)
    ensures r.Returned? && r.value.Some? ==>
      && uid.Some? && !timedOut && states.Some?
      && |r.value.value| == TotalSize(states.value)
      && (checksTotal ==> |r.value.value| == size)
    ensures uid.Some? && !timedOut && states.None? ==> r == Raised
  {
    if uid.None? || timedOut then Returned(None)
    else if states.None? then Raised
    else
      var r := ReadShards(states.value, w, c);
      if r.Returned? && r.value.Some? && checksTotal && |r.value.value| != size then Returned(None)
      else r
  }

  /**
   * A live file whose shards are all intact reads as their reads joined in
   * order, except that data_files.py refuses it when the shard sizes do not
   * add up to the recorded size.
   */
  lemma ReadDataFileIntact(uid: Uid, states: seq<ShardState>, size: nat, checksTotal: bool, w: World, c: Cipher)
    requires forall j :: 0 <= j < |states| ==> Intact(states[j], w, c)
    ensures ReadDataFile(Some(uid), Some(states), size, checksTotal, false, w, c) ==
      if checksTotal && TotalSize(states) != size then Returned(None)
      else Returned(Some(Split.Concat(ShardReads(states, w, c))))
  {
    ReadShardsIntact(states, w, c);
  }

  /**
   * A live file with a shard that is not intact reads as nothing, or raises
   * when the first such shard's read raised.
   */
  lemma ReadDataFileBroken(uid: Uid, states: seq<ShardState>, k: nat, size: nat, checksTotal: bool, w: World, c: Cipher)
    requires k < |states| && !Intact(states[k], w, c)
    requires forall j :: 0 <= j < k ==> Intact(states[j], w, c)
    ensures ReadDataFile(Some(uid), Some(states), size, checksTotal, false, w, c) ==
      if ReadShard(states[k], w, c).Raised? then Raised else Returned(None)
  {
    ReadShardsBroken(states, k, w, c);
  }

  /**
   * When the shard sizes add up to the file size, as they do from
   * construction on, the total-size check of data_files.py never fires: both
   * revisions read the same.
   */
  lemma RevisionsReadAlike(uid: Option<Uid>, states: seq<ShardState>, size: nat, timedOut: bool, w: World, c: Cipher)
    requires TotalSize(states) == size
    ensures ReadDataFile(uid, Some(states), size, true, timedOut, w, c) ==
            ReadDataFile(uid, Some(states), size, false, timedOut, w, c)
  {
  }

  /** What `chunk.Delete()` answers and leaves behind. */
  function DeleteShard(s: ShardState, w: World): (Exc<bool>, World)
  {
    match s
    case LocalState(path, _, _, _, legacy) =>
      if path.None? || path.value !in w.files then (Raised, w)
      else (Returned(!legacy), w.(files := w.files - {path.value}))
    case RemoteState(key, _, stalled) =>
      if stalled || key.None? then (Returned(false), w)
      else (Returned(key.value in w.objects), w.(objects := w.objects - {key.value}))
  }

  /** The shard's data is no longer in `w`. */
  predicate Gone(s: ShardState, w: World)
  {
    match s
    case LocalState(path, _, _, _, _) => path.Some? && path.value !in w.files
    case RemoteState(key, _, _) => key.Some? && key.value !in w.objects
  }

  /** `w'` is `w` with some entries removed and nothing else changed. */
  predicate Shrunk(w: World, w': World)
  {
    && (forall p :: p in w'.files ==> p in w.files && w'.files[p] == w.files[p])
    && (forall k :: k in w'.objects ==> k in w.objects && w'.objects[k] == w.objects[k])
  }

  /**
   * The delete loop of `MistDataFile.Delete`: shards are deleted in order
   * until one raises or answers false.
   */
  function DeleteShards(states: seq<ShardState>, w: World): (Exc<bool>, World)
    decreases |states|
  {
    if states == [] then (Returned(true), w)
    else
      var (first, w1) := DeleteShard(states[0], w);
      if first != Returned(true) then (first, w1)
      else DeleteShards(states[1..], w1)
  }

  /** Deleting only ever removes data. */
  lemma {:induction false} DeleteOnlyRemoves(states: seq<ShardState>, w: World)
    ensures Shrunk(w, DeleteShards(states, w).1)
    decreases |states|
  {
    if states != [] {
      var (first, w1) := DeleteShard(states[0], w);
      if first == Returned(true) {
        DeleteOnlyRemoves(states[1..], w1);
      }
    }
  }

  /** When every shard is deleted, no shard's data is left. */
  lemma {:induction false} DeleteAllLeavesNothing(states: seq<ShardState>, w: World)
    requires DeleteShards(states, w).0 == Returned(true)
    ensures forall s :: s in states ==> Gone(s, DeleteShards(states, w).1)
    decreases |states|
  {
    if states != [] {
      var (first, w1) := DeleteShard(states[0], w);
      DeleteAllLeavesNothing(states[1..], w1);
      DeleteOnlyRemoves(states[1..], w1);
      assert forall s :: s in states ==> s == states[0] || s in states[1..];
    }
  }

  /**
   * When a delete fails, it failed at the first shard that could not be
   * deleted, and every shard before it is gone.
   */
  lemma {:induction false} DeleteStopsAtFirstFailure(states: seq<ShardState>, w: World)
    requires DeleteShards(states, w).0 != Returned(true)
    ensures exists k ::
      && 0 <= k < |states|
      && (forall j :: 0 <= j < k ==> Gone(states[j], DeleteShards(states, w).1))
      && DeleteShard(states[k], DeleteShards(states[..k], w).1).0 == DeleteShards(states, w).0
    decreases |states|
  {
    var (first, w1) := DeleteShard(states[0], w);
    if first != Returned(true) {
      assert states[..0] == [];
      assert DeleteShards(states[..0], w).1 == w;
    } else {
      DeleteStopsAtFirstFailure(states[1..], w1);
      var k :| 0 <= k < |states| - 1 &&
        (forall j :: 0 <= j < k ==> Gone(states[1..][j], DeleteShards(states[1..], w1).1)) &&
        DeleteShard(states[1..][k], DeleteShards(states[1..][..k], w1).1).0 == DeleteShards(states[1..], w1).0;
      assert states[..k + 1][1..] == states[1..][..k];
      assert DeleteShards(states[..k + 1], w).1 == DeleteShards(states[1..][..k], w1).1;
      DeleteOnlyRemoves(states[1..], w1);
      assert Gone(states[0], w1);
      forall j | 0 <= j < k + 1
        ensures Gone(states[j], DeleteShards(states, w).1)
      {
        if j > 0 {
          assert states[j] == states[1..][j - 1];
        }
      }
    }
  }


  /** `MistDataFile` of data_files.py (`checksTotal`) and of mist_data_files.py. */
  class DataFile {
    var uid: Option<Uid>
    /** `size`, the length of the payload. */
    const size: nat
    /** `_data_file_size`, the piece size chosen for the payload. */
    const step: nat
    var address: Option<string>
    /** `_data`, what is still to be split. */
    var pending: Option<Bytes>
    /** `mist_chunks`. */
    var shards: Option<seq<Shard>>
    /** Set for data_files.py, whose `Read` checks the total size. */
    const checksTotal: bool

    function ShardObjects(): set<object>
      reads this
    {
      if shards.Some? then Footprint(shards.value) else {}
    }

    /** The shards as reading sees them, with the network shards in `stalled` still storing. */
    function Snapshot(stalled: set<NetworkShard>): Option<seq<ShardState>>
      reads this, ShardObjects()
    {
      if shards.Some? then Some(States(shards.value, stalled)) else None
    }

    ghost predicate Valid()
      reads this
    {
      shards.Some? ==> Distinct(shards.value)
    }

    /**
     * `__init__` with its creation thread run to the end. `freshUid` and
     * `chunkUid` stand for `uuid.uuid4()`, `iv` for the chunk's random IV and
     * `keys` for the fresh pairs the network chooses for the pieces.
     *
     * Whatever the path taken, reading the shards back right away gives the
     * payload.
     */
    constructor (data: Bytes, address: string, rootPath: string, freshUid: Uid, chunkUid: Uid,
                 iv: Bytes, keys: seq<RemoteKey>, disk: Disk, net: NetworkClient, c: Cipher,
                 checksTotal: bool)
      requires |iv| == 16 && |data| < TWO_64
      requires |keys| > Split.MAX_DATA_FILE_SPLIT_NUM
      requires forall j, k :: 0 <= j < k < |keys| ==> keys[j] != keys[k]
      requires forall k :: k in keys ==> k !in net.objects
      modifies disk, net
      ensures uid == Some(freshUid) && size == |data| && this.address == Some(address)
      ensures step == Split.PieceSize(|data|) && this.checksTotal == checksTotal
      ensures Valid() && shards.Some? && TotalSize(States(shards.value, {})) == size
      ensures |shards.value| <= Split.MAX_DATA_FILE_SPLIT_NUM + 1
      ensures |data| > CHUNK_SIZE ==>
        && disk.files == old(disk.files)
        && SplitOnNetwork(data, keys, old(net.objects), net.objects)
      ensures |data| <= CHUNK_SIZE ==>
        && pending.None?
        && net.objects == old(net.objects)
        && |shards.value| == 1 && shards.value[0].Local?
        && disk.files == old(disk.files)[ChunkPath(rootPath, CHUNK_FOLDER, chunkUid) :=
                                         EncodeChunkFile(freshUid, chunkUid, iv, data, c)]
      ensures ValidCipher(c) ==>
        ReadShards(States(shards.value, {}), World(disk.files, net.objects), c) == Returned(Some(data))
    {
      uid := Some(freshUid);
      size := |data|;
      step := Split.PieceSize(|data|);
      this.address := Some(address);
      pending := Some(data);
      shards := Some([]);
      this.checksTotal := checksTotal;
      new;
      SplitFileIntoChunks(data, rootPath, chunkUid, iv, keys, disk, net, c);
    }

    /**
     * `_SplitFileIntoChunks`: above `CHUNK_SIZE` the payload is sliced with
     * the chosen step and each slice goes to the network; otherwise one local
     * chunk holds it all and the pending copy is dropped.
     */
    method SplitFileIntoChunks(data: Bytes, rootPath: string, chunkUid: Uid, iv: Bytes,
                               keys: seq<RemoteKey>, disk: Disk, net: NetworkClient, c: Cipher)
      requires uid.Some? && size == |data| && step == Split.PieceSize(|data|)
      requires pending == Some(data) && shards == Some([])
      requires |iv| == 16 && |data| < TWO_64
      requires |keys| > Split.MAX_DATA_FILE_SPLIT_NUM
      requires forall j, k :: 0 <= j < k < |keys| ==> keys[j] != keys[k]
      requires forall k :: k in keys ==> k !in net.objects
      modifies this, disk, net
      ensures uid == old(uid) && address == old(address)
      ensures Valid() && shards.Some? && TotalSize(States(shards.value, {})) == size
      ensures |shards.value| <= Split.MAX_DATA_FILE_SPLIT_NUM + 1
      ensures |data| > CHUNK_SIZE ==>
        && disk.files == old(disk.files)
        && SplitOnNetwork(data, keys, old(net.objects), net.objects)
      ensures |data| <= CHUNK_SIZE ==>
        && pending.None?
        && net.objects == old(net.objects)
        && |shards.value| == 1 && shards.value[0].Local?
        && disk.files == old(disk.files)[ChunkPath(rootPath, CHUNK_FOLDER, chunkUid) :=
                                         EncodeChunkFile(uid.value, chunkUid, iv, data, c)]
      ensures ValidCipher(c) ==>
        ReadShards(States(shards.value, {}), World(disk.files, net.objects), c) == Returned(Some(data))
    {
      if size > CHUNK_SIZE {
        SplitAcrossNetwork(data, keys, net, c);
      } else {
        StoreLocally(data, rootPath, chunkUid, iv, disk, c);
      }
    }

    /** The small-file branch of `_SplitFileIntoChunks`: one local chunk holds the payload. */
    method StoreLocally(data: Bytes, rootPath: string, chunkUid: Uid, iv: Bytes, disk: Disk, c: Cipher)
      requires uid.Some? && size == |data| && |data| <= CHUNK_SIZE
      requires |iv| == 16 && |data| < TWO_64
      modifies this, disk
      ensures uid == old(uid) && address == old(address)
      ensures Valid() && shards.Some? && TotalSize(States(shards.value, {})) == size
      ensures pending.None?
      ensures |shards.value| == 1 && shards.value[0].Local?
      ensures disk.files == old(disk.files)[ChunkPath(rootPath, CHUNK_FOLDER, chunkUid) :=
                                            EncodeChunkFile(uid.value, chunkUid, iv, data, c)]
      ensures forall objects :: ValidCipher(c) ==>
        ReadShards(States(shards.value, {}), World(disk.files, objects), c) == Returned(Some(data))
    {
      var chunk := new Chunk(uid.value, CHUNK_FOLDER, data, rootPath, chunkUid, iv, disk, c, false);
      shards := Some([Local(chunk)]);
      pending := None;
      ghost var st := StateOf(Local(chunk), {});
      assert States([Local(chunk)], {}) == [st];
      assert [st][1..] == [];
      forall objects | ValidCipher(c)
        ensures ReadShards(States(shards.value, {}), World(disk.files, objects), c) == Returned(Some(data))
      {
        WriteThenRead(old(disk.files), chunk.path.value, uid.value, chunkUid, iv, data, c, true, CHUNK_SIZE);
        assert ReadShard(st, World(disk.files, objects), c) == Returned(Some(data));
        ReadOneShard(st, World(disk.files, objects), c);
      }
    }

    /**
     * What the loop of `_SplitFileIntoChunks` leaves behind: `_data` is
     * empty, the shards hold the slices of the payload in order, and the
     * network holds exactly `base` plus each slice under its key.
     */
    ghost predicate SplitOnNetwork(data: Bytes, keys: seq<RemoteKey>, base: map<RemoteKey, Bytes>,
                                   objects: map<RemoteKey, Bytes>)
      reads this, ShardObjects()
    {
      && pending == Some([]) && shards.Some? && step > 0
      && HoldsPieces(States(shards.value, {}), Split.Slices(data, step), objects)
      && |shards.value| <= |keys|
      && objects == base + Stored(keys, Split.Slices(data, step))
    }

    /**
     * The loop of `_SplitFileIntoChunks`: `data[i:i+step]` for `i` in
     * `xrange(0, size, step)` becomes a network shard appended to the list,
     * while `_data` loses one step at the front each time round.
     */
    method SplitAcrossNetwork(data: Bytes, keys: seq<RemoteKey>, net: NetworkClient, c: Cipher)
      requires size == |data| && step == Split.PieceSize(|data|)
      requires pending == Some(data) && shards == Some([])
      requires |keys| > Split.MAX_DATA_FILE_SPLIT_NUM
      requires forall j, k :: 0 <= j < k < |keys| ==> keys[j] != keys[k]
      requires forall k :: k in keys ==> k !in net.objects
      modifies this, net
      ensures uid == old(uid) && address == old(address)
      ensures Valid() && shards.Some? && TotalSize(States(shards.value, {})) == size
      ensures |shards.value| <= Split.MAX_DATA_FILE_SPLIT_NUM + 1
      ensures SplitOnNetwork(data, keys, old(net.objects), net.objects)
      ensures forall files :: ValidCipher(c) ==>
        ReadShards(States(shards.value, {}), World(files, net.objects), c) == Returned(Some(data))
    {
      Split.PieceSizeBound(data);
      var i: nat, count: nat := 0, 0;
      ghost var pieces: seq<Bytes> := [];
      assert Drop(data, 0) == data;
      while i < size
        invariant uid == old(uid) && address == old(address)
        invariant Splitting(data, keys, old(net.objects), net.objects, i, count, pieces)
        decreases size - i
      {
        i, count, pieces := SplitStep(data, keys, old(net.objects), net, i, count, pieces);
      }
      assert Drop(data, i) == [];
      assert pieces == Split.Slices(data, step);
      StoredPieces(keys, pieces, old(net.objects));
      StatesDistinct(shards.value, PieceStates(keys, pieces));
      Split.SlicesTotal(data, step);
      PiecesTotal(PieceStates(keys, pieces), pieces, net.objects);
      Split.SlicesConcat(data, step);
      forall files | ValidCipher(c)
        ensures ReadShards(States(shards.value, {}), World(files, net.objects), c) == Returned(Some(data))
      {
        ReadPieces(States(shards.value, {}), pieces, World(files, net.objects), c);
      }
    }

    /**
     * The state of the split loop after `count` pieces, the first `i`
     * bytes: `_data` holds the rest, the shards so far hold the pieces so
     * far, stored under the first `count` keys on top of `base`.
     */
    ghost predicate Splitting(data: Bytes, keys: seq<RemoteKey>, base: map<RemoteKey, Bytes>,
                              objects: map<RemoteKey, Bytes>, i: nat, count: nat, pieces: seq<Bytes>)
      reads this, ShardObjects()
    {
      && count == |pieces| <= Split.MAX_DATA_FILE_SPLIT_NUM + 1 && count <= |keys|
      && pending == Some(Drop(data, i)) && shards.Some?
      && step > 0
      && Split.Slices(data, step) == pieces + Split.Slices(Drop(data, i), step)
      && States(shards.value, {}) == PieceStates(keys, pieces)
      && objects == base + Stored(keys, pieces)
    }

    /** One turn of the split loop. */
    method SplitStep(data: Bytes, keys: seq<RemoteKey>, ghost base: map<RemoteKey, Bytes>, net: NetworkClient,
                     i: nat, count: nat, ghost pieces: seq<Bytes>)
      returns (i': nat, count': nat, ghost pieces': seq<Bytes>)
      requires Splitting(data, keys, base, net.objects, i, count, pieces)
      requires i < |data| && |Split.Slices(data, step)| <= Split.MAX_DATA_FILE_SPLIT_NUM + 1
      requires |keys| > Split.MAX_DATA_FILE_SPLIT_NUM
      requires forall j, k :: 0 <= j < k < |keys| ==> keys[j] != keys[k]
      requires forall k :: k in keys ==> k !in base
      modifies this, net
      ensures uid == old(uid) && address == old(address)
      ensures i' > i && Splitting(data, keys, base, net.objects, i', count', pieces')
    {
      var part := Take(Drop(data, i), step);
      NextPiece(data, step, i, pieces);
      NextKey(keys, base, pieces, part);
      StorePiece(part, keys[count], net);
      i', count', pieces' := i + step, count + 1, pieces + [part];
      assert pending == Some(Drop(data, i'));
      assert States(shards.value, {}) == PieceStates(keys, pieces');
      assert net.objects == base + Stored(keys, pieces');
    }

    /**
     * One turn of the loop of `_SplitFileIntoChunks`: `_data` loses one step
     * at the front, and a network shard storing `part` under `key` is
     * appended to `mist_chunks`.
     */
    method StorePiece(part: Bytes, key: RemoteKey, net: NetworkClient)
      requires pending.Some? && shards.Some? && key !in net.objects
      modifies this, net
      ensures uid == old(uid) && address == old(address)
      ensures pending == Some(Drop(old(pending.value), step))
      ensures shards.Some? &&
        States(shards.value, {}) == old(States(shards.value, {})) + [RemoteState(Some(key), |part|, false)]
      ensures net.objects == old(net.objects)[key := part]
    {
      var list := shards.value;
      ghost var before := States(list, {});
      pending := Some(Drop(pending.value, step));
      var shard := new NetworkShard(part, key, net);
      shards := Some(list + [Remote(shard)]);
      forall j | 0 <= j < |list| ensures StateOf(list[j], {}) == before[j] { }
      assert States(list, {}) == before;
      StatesAppend(list, Remote(shard), {});
    }

    /** `Read`: the shards in order, with the checks `ReadDataFile` describes. */
    method Read(timedOut: bool, stalled: set<NetworkShard>, disk: Disk, net: NetworkClient, c: Cipher)
      returns (r: Exc<Option<Bytes>>)
      ensures r == ReadDataFile(uid, Snapshot(stalled), size, checksTotal, timedOut, World(disk.files, net.objects), c)
    {
      if uid.None? || timedOut {
        return Returned(None);
      }
      if shards.None? {
        return Raised;
      }
      var found := ReadInOrder(shards.value, stalled, disk, net, c);
      if found.Returned? && found.value.Some? && checksTotal && size != |found.value.value| {
        return Returned(None);
      }
      r := found;
    }

    /**
     * `Delete`: false when the creation thread is still running; otherwise
     * the shards are deleted in order and the first failure is returned, with
     * the earlier shards gone and the file untouched; when all succeed the
     * uid, the address and the shard list are cleared. A second `Delete`
     * iterates over no list and raises.
     */
    method Delete(timedOut: bool, stalled: set<NetworkShard>, disk: Disk, net: NetworkClient)
      returns (r: Exc<bool>)
      requires Valid()
      modifies this, disk, net, ShardObjects()
      ensures timedOut ==>
        r == Returned(false) && disk.files == old(disk.files) && net.objects == old(net.objects)
      ensures !timedOut && old(shards).None? ==>
        r == Raised && disk.files == old(disk.files) && net.objects == old(net.objects)
      ensures !timedOut && old(shards).Some? ==>
        (r, World(disk.files, net.objects)) ==
        DeleteShards(old(States(shards.value, stalled)), World(old(disk.files), old(net.objects)))
      ensures r == Returned(true) ==> uid.None? && address.None? && shards.None?
      ensures r != Returned(true) ==> uid == old(uid) && address == old(address) && shards == old(shards)
      ensures Valid()
    {
      if timedOut {
        return Returned(false);
      }
      if shards.None? {
        return Raised;
      }
      r := DeleteInOrder(shards.value, stalled, disk, net);
      if r != Returned(true) {
        return;
      }
      uid := None;
      address := None;
      shards := None;
      r := Returned(true);
    }
  }

  /** The states of network shards holding `pieces` under the first keys of `keys`, none still storing. */
  function PieceStates(keys: seq<RemoteKey>, pieces: seq<Bytes>): (r: seq<ShardState>)
    requires |pieces| <= |keys|
    ensures |r| == |pieces|
  {
    if pieces == [] then []
    else
      var n := |pieces| - 1;
      PieceStates(keys, pieces[..n]) + [RemoteState(Some(keys[n]), |pieces[n]|, false)]
  }

  /** What storing `pieces` under the first keys of `keys`, in order, adds to the network. */
  function Stored(keys: seq<RemoteKey>, pieces: seq<Bytes>): map<RemoteKey, Bytes>
    requires |pieces| <= |keys|
  {
    if pieces == [] then map[]
    else
      var n := |pieces| - 1;
      Stored(keys, pieces[..n])[keys[n] := pieces[n]]
  }

  /** The next slice extends the pieces and leaves the rest of the payload. */
  lemma NextPiece(data: Bytes, step: nat, i: nat, pieces: seq<Bytes>)
    requires step > 0 && i < |data| && |Split.Slices(data, step)| <= Split.MAX_DATA_FILE_SPLIT_NUM + 1
    requires Split.Slices(data, step) == pieces + Split.Slices(Drop(data, i), step)
    ensures Split.Slices(data, step) == (pieces + [Take(Drop(data, i), step)]) + Split.Slices(Drop(data, i + step), step)
    ensures |pieces| + 1 <= Split.MAX_DATA_FILE_SPLIT_NUM + 1
    ensures Drop(Drop(data, i), step) == Drop(data, i + step)
  {
    Split.SlicesStep(data, step, pieces, i);
    DropDrop(data, i, step);
  }

  /**
   * The next key is not yet on the network, and storing the next piece under
   * it grows the shard states and the stored map by one entry each.
   */
  lemma NextKey(keys: seq<RemoteKey>, base: map<RemoteKey, Bytes>, pieces: seq<Bytes>, part: Bytes)
    requires |pieces| < |keys|
    requires forall j, k :: 0 <= j < k < |keys| ==> keys[j] != keys[k]
    requires forall k :: k in keys ==> k !in base
    ensures keys[|pieces|] !in base + Stored(keys, pieces)
    ensures PieceStates(keys, pieces + [part]) == PieceStates(keys, pieces) + [RemoteState(Some(keys[|pieces|]), |part|, false)]
    ensures (base + Stored(keys, pieces))[keys[|pieces|] := part] == base + Stored(keys, pieces + [part])
  {
    var n := |pieces|;
    assert (pieces + [part])[..n] == pieces;
    assert keys[n] !in base by {
      assert keys[n] in keys;
    }
    assert keys[n] !in Stored(keys, pieces) by {
      StoredKeys(keys, pieces);
      forall j | 0 <= j < n ensures keys[..n][j] != keys[n] { }
    }
    UpdateAfterMerge(base, Stored(keys, pieces), keys[n], part);
  }

  /** Updating a merged map is updating its right operand. */
  lemma UpdateAfterMerge<K, V>(a: map<K, V>, b: map<K, V>, k: K, v: V)
    ensures (a + b)[k := v] == a + b[k := v]
  {
  }

  /** Exactly the keys used are stored. */
  lemma {:induction false} StoredKeys(keys: seq<RemoteKey>, pieces: seq<Bytes>)
    requires |pieces| <= |keys|
    ensures forall k :: k in Stored(keys, pieces) <==> k in keys[..|pieces|]
  {
    if pieces != [] {
      var n := |pieces| - 1;
      StoredKeys(keys, pieces[..n]);
      assert keys[..n + 1] == keys[..n] + [keys[n]];
    }
  }

  /** Shard `j` is stored under `keys[j]` and is as long as `pieces[j]`. */
  lemma {:induction false} PieceStatesAt(keys: seq<RemoteKey>, pieces: seq<Bytes>)
    requires |pieces| <= |keys|
    ensures forall j :: 0 <= j < |pieces| ==> PieceStates(keys, pieces)[j] == RemoteState(Some(keys[j]), |pieces[j]|, false)
  {
    if pieces != [] {
      var n := |pieces| - 1;
      PieceStatesAt(keys, pieces[..n]);
    }
  }

  /** Under distinct keys every piece is found again. */
  lemma {:induction false} StoredFound(keys: seq<RemoteKey>, pieces: seq<Bytes>)
    requires |pieces| <= |keys|
    requires forall j, k :: 0 <= j < k < |keys| ==> keys[j] != keys[k]
    ensures forall j :: 0 <= j < |pieces| ==> keys[j] in Stored(keys, pieces) && Stored(keys, pieces)[keys[j]] == pieces[j]
  {
    if pieces != [] {
      var n := |pieces| - 1;
      StoredFound(keys, pieces[..n]);
      forall j | 0 <= j < n
        ensures keys[j] in Stored(keys, pieces) && Stored(keys, pieces)[keys[j]] == pieces[j]
      {
        assert pieces[..n][j] == pieces[j];
      }
    }
  }

  /**
   * Pieces stored under distinct fresh keys are all found again, the
   * network gains exactly those keys, and the shard states differ pairwise.
   */
  lemma StoredPieces(keys: seq<RemoteKey>, pieces: seq<Bytes>, base: map<RemoteKey, Bytes>)
    requires |pieces| <= |keys|
    requires forall j, k :: 0 <= j < k < |keys| ==> keys[j] != keys[k]
    ensures HoldsPieces(PieceStates(keys, pieces), pieces, base + Stored(keys, pieces))
    ensures forall k :: k in base + Stored(keys, pieces) <==> k in base || k in keys[..|pieces|]
    ensures forall j, k :: 0 <= j < k < |pieces| ==> PieceStates(keys, pieces)[j] != PieceStates(keys, pieces)[k]
  {
    StoredKeys(keys, pieces);
    StoredFound(keys, pieces);
    PieceStatesAt(keys, pieces);
  }

  /** Shards whose states differ pairwise are distinct objects. */
  lemma StatesDistinct(list: seq<Shard>, states: seq<ShardState>)
    requires States(list, {}) == states
    requires forall j, k :: 0 <= j < k < |states| ==> states[j] != states[k]
    ensures Distinct(list)
  {
    forall j, k | 0 <= j < k < |list| ensures ObjectOf(list[j]) != ObjectOf(list[k])
    {
      assert StateOf(list[j], {}) != StateOf(list[k], {});
    }
  }

  /** The loop of `MistDataFile.Read`: reads the shards in order and joins them. */
  method ReadInOrder(list: seq<Shard>, stalled: set<NetworkShard>, disk: Disk, net: NetworkClient, c: Cipher)
    returns (r: Exc<Option<Bytes>>)
    ensures r == ReadShards(States(list, stalled), World(disk.files, net.objects), c)
  {
    ghost var states := States(list, stalled);
    ghost var w := World(disk.files, net.objects);
    ghost var all := ReadShards(states, w, c);
    var data: Bytes := [];
    var i := 0;
    assert states[0..] == states;
    assert all.Returned? && all.value.Some? ==> [] + all.value.value == all.value.value;
    while i < |list|
      invariant 0 <= i <= |list|
      invariant w == World(disk.files, net.objects) && States(list, stalled) == states
      invariant all == Prepend(data, ReadShards(states[i..], w, c))
    {
      var stop;
      stop, r, data := ReadNext(list, i, data, stalled, disk, net, c);
      if stop {
        return;
      }
      i := i + 1;
    }
    assert states[i..] == [] && data + [] == data;
    r := Returned(Some(data));
  }

  /**
   * One turn of the read loop: reads `list[i]` and either stops with the
   * answer or appends the piece to `data`.
   */
  method ReadNext(list: seq<Shard>, i: nat, data: Bytes, stalled: set<NetworkShard>, disk: Disk, net: NetworkClient,
                  c: Cipher)
    returns (stop: bool, r: Exc<Option<Bytes>>, data': Bytes)
    requires i < |list|
    ensures disk.files == old(disk.files) && net.objects == old(net.objects)
    ensures States(list, stalled) == old(States(list, stalled))
    ensures var states, w := States(list, stalled), World(disk.files, net.objects);
      if stop then r == Prepend(data, ReadShards(states[i..], w, c))
      else Prepend(data, ReadShards(states[i..], w, c)) == Prepend(data', ReadShards(states[i + 1..], w, c))
  {
    var piece := ReadOne(list, i, stalled, disk, net, c);
    ReadStep(States(list, stalled), i, data, piece, World(disk.files, net.objects), c);
    if piece.Raised? {
      return true, Raised, data;
    }
    if piece.value.None? || |piece.value.value| != StateOf(list[i], stalled).size {
      return true, Returned(None), data;
    }
    return false, piece, data + piece.value.value;
  }

  /** `chunk.Read()` for the element `list[i]` of `mist_chunks`; reading changes no shard. */
  method ReadOne(list: seq<Shard>, i: nat, stalled: set<NetworkShard>, disk: Disk, net: NetworkClient, c: Cipher)
    returns (r: Exc<Option<Bytes>>)
    requires i < |list|
    ensures r == ReadShard(StateOf(list[i], stalled), World(disk.files, net.objects), c)
    ensures disk.files == old(disk.files) && net.objects == old(net.objects)
    ensures States(list, stalled) == old(States(list, stalled))
  {
    match list[i]
    case Local(ch) =>
      r := ch.Read(disk, c);
    case Remote(n) =>
      var found := n.Read(n in stalled, net);
      r := Returned(found);
    forall j | 0 <= j < |list| ensures StateOf(list[j], stalled) == old(StateOf(list[j], stalled)) { }
  }

  /**
   * The loop of `MistDataFile.Delete`: deletes the shards in order and stops
   * at the first that raises or answers false.
   */
  method DeleteInOrder(list: seq<Shard>, stalled: set<NetworkShard>, disk: Disk, net: NetworkClient)
    returns (r: Exc<bool>)
    requires Distinct(list)
    modifies disk, net, Footprint(list)
    ensures (r, World(disk.files, net.objects)) ==
            DeleteShards(old(States(list, stalled)), World(old(disk.files), old(net.objects)))
  {
    ghost var states := States(list, stalled);
    ghost var expected := DeleteShards(states, World(disk.files, net.objects));
    var i := 0;
    assert states[0..] == states;
    while i < |list|
      invariant 0 <= i <= |list|
      invariant forall j :: i <= j < |list| ==> StateOf(list[j], stalled) == states[j]
      invariant expected == DeleteShards(states[i..], World(disk.files, net.objects))
    {
      ghost var w := World(disk.files, net.objects);
      assert states[i..][0] == states[i] && states[i..][1..] == states[i + 1..];
      var done := DeleteOne(list, i, stalled, disk, net);
      assert (done, World(disk.files, net.objects)) == DeleteShard(states[i], w);
      if done != Returned(true) {
        return done;
      }
      i := i + 1;
    }
    r := Returned(true);
  }

  /**
   * `chunk.Delete()` for the element `list[i]` of `mist_chunks`; the shards
   * after it are left as they are.
   */
  method DeleteOne(list: seq<Shard>, i: nat, stalled: set<NetworkShard>, disk: Disk, net: NetworkClient)
    returns (r: Exc<bool>)
    requires i < |list| && Distinct(list)
    modifies ObjectOf(list[i]), disk, net
    ensures (r, World(disk.files, net.objects)) ==
            DeleteShard(old(StateOf(list[i], stalled)), World(old(disk.files), old(net.objects)))
    ensures forall j :: i < j < |list| ==> StateOf(list[j], stalled) == old(StateOf(list[j], stalled))
  {
    match list[i]
    case Local(ch) =>
      r := ch.Delete(disk);
    case Remote(n) =>
      var ok := n.Delete(n in stalled, net);
      r := Returned(ok);
    forall j | i < j < |list| ensures StateOf(list[j], stalled) == old(StateOf(list[j], stalled))
    {
      assert ObjectOf(list[j]) != ObjectOf(list[i]);
    }
  }
}
