/*
 * The earliest prototype of mist (main.py): a file is cut into 50-byte
 * pieces, each piece is encrypted with a fixed password and written to its
 * own file `chunks/<uid>.mist`, and reading the file decrypts the pieces in
 * order and joins them.
 *
 * simplecrypt's password-based encrypt/decrypt is an oracle (`Sealer`).
 * The only property the model assumes of it is that decryption undoes
 * encryption.
 */
module Prototype {
  import opened Common
  import opened Storage
  import Split

  /** Bytes read from the file per piece. */
  const CHUNK_SIZE: nat := 50

  /** Folder, relative to the working directory, that holds the pieces. */
  const STORAGE_FOLDER_PATH: string := "chunks"

  /**
   * simplecrypt with the fixed ENCRYPTION_KEY: `decrypt` raises on input it
   * cannot authenticate.
   */
  datatype Sealer = Sealer(encrypt: Bytes -> Bytes, decrypt: Bytes -> Exc<Bytes>)

  ghost predicate ValidSealer(s: Sealer)
  {
    forall p: Bytes :: s.decrypt(s.encrypt(p)) == Returned(p)
  }

  /** `"%s/%s.mist" % (folder_path, uid)`. */
  function ChunkPath(folderPath: string, uid: Uid): (p: string)
    ensures folderPath + "/" <= p
    ensures |p| >= 5 && p[|p| - 5..] == ".mist"
  {
    folderPath + "/" + UuidString(uid) + ".mist"
  }

  /** The piece paths fresh uids give, in order. */
  function ChunkPaths(uids: seq<Uid>): (r: seq<string>)
    ensures |r| == |uids|
    ensures forall j :: 0 <= j < |uids| ==> r[j] == ChunkPath(STORAGE_FOLDER_PATH, uids[j])
  {
    seq(|uids|, j requires 0 <= j < |uids| => ChunkPath(STORAGE_FOLDER_PATH, uids[j]))
  }

  /** uuid4 hands out distinct names: no two uids give the same piece path. */
  predicate DistinctPaths(uids: seq<Uid>)
  {
    forall i, j :: 0 <= i < j < |uids| ==>
      ChunkPath(STORAGE_FOLDER_PATH, uids[i]) != ChunkPath(STORAGE_FOLDER_PATH, uids[j])
  }

  /** uuid4 names are new: no piece path is already on disk. */
  predicate FreshPaths(uids: seq<Uid>, files: map<string, Bytes>)
  {
    forall j :: 0 <= j < |uids| ==> ChunkPath(STORAGE_FOLDER_PATH, uids[j]) !in files
  }

  /** The disk after the pieces have been encrypted and written, in order. */
  function Written(files: map<string, Bytes>, paths: seq<string>, pieces: seq<Bytes>, s: Sealer)
    : (r: map<string, Bytes>)
    requires |paths| == |pieces|
    ensures files.Keys <= r.Keys
    decreases |paths|
  {
    if paths == [] then files
    else
      var n := |paths| - 1;
      Written(files, paths[..n], pieces[..n], s)[paths[n] := s.encrypt(pieces[n])]
  }

  /** MistChunk.Read: IOError if the piece file is gone, else its decryption. */
  function ReadChunk(files: map<string, Bytes>, path: string, s: Sealer): (r: Exc<Bytes>)
    ensures path !in files ==> r == Raised
  {
    if path !in files then Raised else s.decrypt(files[path])
  }

  /** MistFile.Read: the pieces decrypted and joined in order; the first failure propagates. */
  function ReadAll(files: map<string, Bytes>, paths: seq<string>, s: Sealer): Exc<Bytes>
    decreases |paths|
  {
    if paths == [] then Returned([])
    else
      var n := |paths| - 1;
      match ReadAll(files, paths[..n], s)
      case Raised => Raised
      case Returned(data) =>
        match ReadChunk(files, paths[n], s)
        case Raised => Raised
        case Returned(piece) => Returned(data + piece)
  }

  // ---------------------------------------------------------------------------
  // Properties
  // ---------------------------------------------------------------------------

  /** Each written path holds the encryption of its own piece when the paths are distinct. */
  lemma {:induction false} WrittenAt(files: map<string, Bytes>, paths: seq<string>, pieces: seq<Bytes>,
                                     s: Sealer, k: nat)
    requires |paths| == |pieces| && k < |paths|
    requires forall i, j :: 0 <= i < j < |paths| ==> paths[i] != paths[j]
    ensures paths[k] in Written(files, paths, pieces, s)
    ensures Written(files, paths, pieces, s)[paths[k]] == s.encrypt(pieces[k])
    decreases |paths|
  {
    var n := |paths| - 1;
    if k < n {
      assert paths[..n][k] == paths[k] && pieces[..n][k] == pieces[k];
      WrittenAt(files, paths[..n], pieces[..n], s, k);
      assert paths[n] != paths[k];
    }
  }

  /**
   * Writing pieces under paths that are not on disk yet adds exactly those
   * paths and leaves every file already there as it was.
   */
  lemma {:induction false} WrittenKeeps(files: map<string, Bytes>, paths: seq<string>, pieces: seq<Bytes>,
                                        s: Sealer)
    requires |paths| == |pieces|
    requires forall k :: 0 <= k < |paths| ==> paths[k] !in files
    ensures forall p :: p in Written(files, paths, pieces, s) <==> p in files || p in paths
    ensures forall p :: p in files ==> Written(files, paths, pieces, s)[p] == files[p]
    decreases |paths|
  {
    if paths != [] {
      var n := |paths| - 1;
      assert forall k :: 0 <= k < n ==> paths[..n][k] == paths[k];
      WrittenKeeps(files, paths[..n], pieces[..n], s);
      assert paths == paths[..n] + [paths[n]];
    }
  }

  /** Once a read fails, reading more pieces fails too. */
  lemma {:induction false} ReadAllRaised(files: map<string, Bytes>, paths: seq<string>, s: Sealer, n: nat)
    requires n <= |paths| && ReadAll(files, paths[..n], s) == Raised
    ensures ReadAll(files, paths, s) == Raised
    decreases |paths| - n
  {
    if n < |paths| {
      assert paths[..n + 1][..n] == paths[..n];
      ReadAllRaised(files, paths, s, n + 1);
    } else {
      assert paths[..n] == paths;
    }
  }

  /** Reading pieces that hold the encryptions of `pieces` gives their concatenation. */
  lemma {:induction false} ReadWritten(files: map<string, Bytes>, paths: seq<string>, pieces: seq<Bytes>,
                                       s: Sealer)
    requires ValidSealer(s) && |paths| == |pieces|
    requires forall k :: 0 <= k < |paths| ==> paths[k] in files && files[paths[k]] == s.encrypt(pieces[k])
    ensures ReadAll(files, paths, s) == Returned(Split.Concat(pieces))
    decreases |paths|
  {
    if paths != [] {
      var n := |paths| - 1;
      forall k | 0 <= k < n
        ensures paths[..n][k] in files && files[paths[..n][k]] == s.encrypt(pieces[..n][k])
      {
        assert paths[..n][k] == paths[k] && pieces[..n][k] == pieces[k];
      }
      ReadWritten(files, paths[..n], pieces[..n], s);
      assert ReadChunk(files, paths[n], s) == Returned(pieces[n]);
      var last: seq<Bytes> := [pieces[n]];
      assert pieces == pieces[..n] + last;
      Split.ConcatAppend(pieces[..n], last);
      assert last[1..] == [] && Split.Concat(last[1..]) == [];
      assert Split.Concat(last) == pieces[n];
      assert ReadAll(files, paths, s) == Returned(Split.Concat(pieces[..n]) + pieces[n]);
    }
  }

  /** Writing a file's 50-byte slices under distinct paths and reading them gives the file. */
  lemma SplitReadsBack(files: map<string, Bytes>, content: Bytes, paths: seq<string>, s: Sealer)
    requires ValidSealer(s) && |paths| == |Split.Slices(content, CHUNK_SIZE)|
    requires forall i, j :: 0 <= i < j < |paths| ==> paths[i] != paths[j]
    ensures var slices := Split.Slices(content, CHUNK_SIZE);
      ReadAll(Written(files, paths, slices, s), paths, s) == Returned(content)
  {
    var slices := Split.Slices(content, CHUNK_SIZE);
    forall k | 0 <= k < |paths|
      ensures paths[k] in Written(files, paths, slices, s)
      ensures Written(files, paths, slices, s)[paths[k]] == s.encrypt(slices[k])
    {
      WrittenAt(files, paths, slices, s, k);
    }
    ReadWritten(Written(files, paths, slices, s), paths, slices, s);
    Split.SlicesConcat(content, CHUNK_SIZE);
  }

  /**
   * The state of the `while data:` loop: `data` is the read at `start`,
   * the file position is `offset`, and `pieces` are the reads so far.
   */
  ghost predicate Reading(content: Bytes, pieces: seq<Bytes>, start: nat, data: Bytes, offset: nat)
  {
    start <= |content| && data == Take(Drop(content, start), CHUNK_SIZE) && offset == start + |data|
    && Split.Slices(content, CHUNK_SIZE) == pieces + Split.Slices(Drop(content, start), CHUNK_SIZE)
  }

  /** A non-empty read is the next slice, and the next read starts where it ended. */
  lemma ReadingStep(content: Bytes, pieces: seq<Bytes>, start: nat, data: Bytes, offset: nat)
    requires Reading(content, pieces, start, data, offset) && data != []
    ensures |pieces| < |Split.Slices(content, CHUNK_SIZE)| && start < offset
    ensures var next := Take(Drop(content, offset), CHUNK_SIZE);
      Reading(content, pieces + [data], offset, next, offset + |next|)
  {
    Split.SlicesStep(content, CHUNK_SIZE, pieces, start);
  }

  /** An empty read ends the loop with every slice read. */
  lemma ReadingDone(content: Bytes, pieces: seq<Bytes>, start: nat, offset: nat)
    requires Reading(content, pieces, start, [], offset)
    ensures pieces == Split.Slices(content, CHUNK_SIZE)
  {
    assert Drop(content, start) == [];
  }

  lemma ChunkPathsStep(uids: seq<Uid>, n: nat)
    requires n < |uids|
    ensures ChunkPaths(uids[..n + 1]) == ChunkPaths(uids[..n]) + [ChunkPath(STORAGE_FOLDER_PATH, uids[n])]
  {
    assert uids[..n + 1][..n] == uids[..n];
  }

  lemma WrittenStep(files: map<string, Bytes>, paths: seq<string>, pieces: seq<Bytes>,
                    p: string, x: Bytes, s: Sealer)
    requires |paths| == |pieces|
    ensures Written(files, paths + [p], pieces + [x], s) == Written(files, paths, pieces, s)[p := s.encrypt(x)]
  {
    assert (paths + [p])[..|paths|] == paths;
    assert (pieces + [x])[..|pieces|] == pieces;
  }

  // ---------------------------------------------------------------------------
  // Objects
  // ---------------------------------------------------------------------------

  /** MistChunk: one encrypted piece under a fresh uid. */
  class Chunk {
    const uid: Uid
    const path: string

    constructor (folderPath: string, data: Bytes, freshUid: Uid, disk: Disk, s: Sealer)
      modifies disk
      ensures uid == freshUid && path == ChunkPath(folderPath, freshUid)
      ensures disk.files == old(disk.files)[path := s.encrypt(data)]
    {
      uid := freshUid;
      path := ChunkPath(folderPath, freshUid);
      new;
      disk.files := disk.files[path := s.encrypt(data)];
    }

    method Read(disk: Disk, s: Sealer) returns (r: Exc<Bytes>)
      ensures r == ReadChunk(disk.files, path, s)
    {
      if path !in disk.files {
        return Raised;
      }
      r := s.decrypt(disk.files[path]);
    }
  }

  function PathsOf(chunks: seq<Chunk>): (r: seq<string>)
    ensures |r| == |chunks|
    ensures forall j :: 0 <= j < |chunks| ==> r[j] == chunks[j].path
  {
    seq(|chunks|, j requires 0 <= j < |chunks| => chunks[j].path)
  }

  /** MistFile: the file's name and its pieces, in order. */
  class File {
    const filename: string
    var chunks: seq<Chunk>

    /** What Read returns on a disk holding `files`. */
    function Contents(files: map<string, Bytes>, s: Sealer): Exc<Bytes>
      reads this
    {
      ReadAll(files, PathsOf(chunks), s)
    }

    /**
     * Opening `filePath` raises IOError when it is absent; the caller
     * checks. `uids` are the fresh uids of the pieces.
     */
    constructor (filePath: string, disk: Disk, uids: seq<Uid>, s: Sealer)
      requires filePath in disk.files
      requires |Split.Slices(disk.files[filePath], CHUNK_SIZE)| <= |uids| && DistinctPaths(uids)
      modifies disk
      ensures filename == Basename(filePath)
      ensures var slices := Split.Slices(old(disk.files)[filePath], CHUNK_SIZE);
        PathsOf(chunks) == ChunkPaths(uids[..|slices|])
        && disk.files == Written(old(disk.files), PathsOf(chunks), slices, s)
      ensures ValidSealer(s) ==> Contents(disk.files, s) == Returned(old(disk.files)[filePath])
    {
      filename := Basename(filePath);
      chunks := [];
      new;
      var content := disk.files[filePath];
      SplitFileIntoChunks(content, disk, uids, s);
      if ValidSealer(s) {
        var paths := PathsOf(chunks);
        forall i, j | 0 <= i < j < |paths|
          ensures paths[i] != paths[j]
        {
          assert paths[i] == ChunkPath(STORAGE_FOLDER_PATH, uids[i]);
        }
        SplitReadsBack(old(disk.files), content, paths, s);
      }
    }

    /**
     * The `while data:` loop: read up to CHUNK_SIZE bytes at a time, and
     * write and append one piece per non-empty read. `content` is what the
     * open file holds.
     */
    method SplitFileIntoChunks(content: Bytes, disk: Disk, uids: seq<Uid>, s: Sealer)
      requires chunks == []
      requires |Split.Slices(content, CHUNK_SIZE)| <= |uids|
      modifies this, disk
      ensures var slices := Split.Slices(content, CHUNK_SIZE);
        PathsOf(chunks) == ChunkPaths(uids[..|slices|])
        && disk.files == Written(old(disk.files), PathsOf(chunks), slices, s)
    {
      ghost var files0 := disk.files;
      ghost var pieces: seq<Bytes> := [];
      ghost var paths: seq<string> := [];
      ghost var start: nat := 0;
      var data := Take(content, CHUNK_SIZE);
      var offset: nat := |data|;
      while data != []
        invariant Reading(content, pieces, start, data, offset)
        invariant |paths| == |pieces| && PathsOf(chunks) == paths
        invariant paths == ChunkPaths(uids[..|paths|])
        invariant disk.files == Written(files0, paths, pieces, s)
        decreases |content| - start
      {
        ReadingStep(content, pieces, start, data, offset);
        var uid := uids[|chunks|];
        AppendChunk(data, uid, disk, s);
        WrittenStep(files0, paths, pieces, ChunkPath(STORAGE_FOLDER_PATH, uid), data, s);
        ChunkPathsStep(uids, |paths|);
        paths := paths + [ChunkPath(STORAGE_FOLDER_PATH, uid)];
        pieces := pieces + [data];
        start := offset;
        data := Take(Drop(content, offset), CHUNK_SIZE);
        offset := offset + |data|;
      }
      ReadingDone(content, pieces, start, offset);
    }

    /** One iteration's write: a new piece under `uid`, appended to the file's list. */
    method AppendChunk(data: Bytes, uid: Uid, disk: Disk, s: Sealer)
      modifies this, disk
      ensures PathsOf(chunks) == PathsOf(old(chunks)) + [ChunkPath(STORAGE_FOLDER_PATH, uid)]
      ensures disk.files == old(disk.files)[ChunkPath(STORAGE_FOLDER_PATH, uid) := s.encrypt(data)]
    {
      var chunk := new Chunk(STORAGE_FOLDER_PATH, data, uid, disk, s);
      assert PathsOf(chunks + [chunk]) == PathsOf(chunks) + [chunk.path];
      chunks := chunks + [chunk];
    }

    /** The for-loop joining the decrypted pieces. */
    method Read(disk: Disk, s: Sealer) returns (r: Exc<Bytes>)
      ensures r == Contents(disk.files, s)
    {
      var paths := PathsOf(chunks);
      var data := [];
      for i := 0 to |chunks|
        invariant ReadAll(disk.files, paths[..i], s) == Returned(data)
      {
        var piece := chunks[i].Read(disk, s);
        assert paths[..i + 1][..i] == paths[..i];
        if piece.Raised? {
          ReadAllRaised(disk.files, paths, s, i + 1);
          return Raised;
        }
        data := data + piece.value;
      }
      assert paths[..|chunks|] == paths;
      r := Returned(data);
    }
  }

  /** The prototype's Mist class: a path -> file map. */
  class Catalog {
    var files: map<string, File>

    constructor ()
      ensures files == map[]
    {
      files := map[];
    }

    /**
     * Reading the file raises IOError when it is not on disk, and then
     * nothing changes. Otherwise the entry is replaced outright: the old
     * entry's pieces are not deleted. `uids` stand for the pieces' uuid4
     * names, which are new on disk.
     */
    method AddFile(path: string, disk: Disk, uids: seq<Uid>, s: Sealer) returns (r: Exc<()>)
      requires path in disk.files ==>
        |Split.Slices(disk.files[path], CHUNK_SIZE)| <= |uids| && DistinctPaths(uids)
        && FreshPaths(uids, disk.files)
      modifies this, disk
      ensures r.Raised? <==> path !in old(disk.files)
      ensures r.Raised? ==> files == old(files) && disk.files == old(disk.files)
      ensures r.Returned? ==>
        path in files && fresh(files[path]) && files == old(files)[path := files[path]]
      ensures r.Returned? ==>
        var slices := Split.Slices(old(disk.files)[path], CHUNK_SIZE);
        && PathsOf(files[path].chunks) == ChunkPaths(uids[..|slices|])
        && disk.files == Written(old(disk.files), ChunkPaths(uids[..|slices|]), slices, s)
      ensures r.Returned? ==>
        forall p :: p in old(disk.files) ==> p in disk.files && disk.files[p] == old(disk.files)[p]
      ensures r.Returned? && ValidSealer(s) ==>
        files[path].Contents(disk.files, s) == Returned(old(disk.files)[path])
    {
      if path !in disk.files {
        return Raised;
      }
      var file := new File(path, disk, uids, s);
      files := files[path := file];
      r := Returned(());
      ghost var slices := Split.Slices(old(disk.files)[path], CHUNK_SIZE);
      WrittenKeeps(old(disk.files), ChunkPaths(uids[..|slices|]), slices, s);
    }

    /** None for a path not in the catalog, else what the file reads as. */
    method ReadFile(path: string, disk: Disk, s: Sealer) returns (r: Exc<Option<Bytes>>)
      ensures path !in files ==> r == Returned(None)
      ensures path in files ==>
        (r.Raised? <==> files[path].Contents(disk.files, s).Raised?)
        && (r.Returned? ==> r.value == Some(files[path].Contents(disk.files, s).value))
    {
      if path !in files {
        return Returned(None);
      }
      var data := files[path].Read(disk, s);
      if data.Raised? {
        return Raised;
      }
      r := Returned(Some(data.value));
    }
  }
}
