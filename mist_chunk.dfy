/**
 * One encrypted shard kept on the local disk (`MistChunk`). The file holds a
 * 56-byte header, file uid (16, `bytes_le`) | chunk uid (16, `bytes_le`) |
 * plaintext size (8, little-endian) | IV (16), then the AES-CBC encryption of
 * the plaintext padded with spaces to a multiple of 16. Reading validates
 * each header field and cuts the decryption back to the recorded size.
 *
 * The older `MistChunk` of mist.py is the same class built with `legacy`
 * set: it reads at most 512000 ciphertext bytes and does not compare the
 * header size with the size it remembers.
 */
module MistChunk {
  import opened Common
  import opened Storage
  import Split

  const HEADER_SIZE: nat := 56

  /** The most ciphertext bytes `Read` takes: `MistChunk.CHUNK_SIZE`. */
  const CHUNK_SIZE: nat := Split.CHUNK_SIZE

  /** `MistChunk.CHUNK_SIZE` in mist.py. */
  const LEGACY_CHUNK_SIZE: nat := 512000

  /** How much ciphertext `Read` takes: the chunk size of the class the chunk belongs to. */
  function ReadLimit(legacy: bool): nat
  {
    if legacy then LEGACY_CHUNK_SIZE else CHUNK_SIZE
  }

  /** `"%s/%s/%s.mist" % (root_path, folder_path, uid)`. */
  function ChunkPath(rootPath: string, folderPath: string, uid: Uid): string
  {
    rootPath + "/" + folderPath + "/" + UuidString(uid) + ".mist"
  }

  /** The bytes `_WriteToPath` leaves in the chunk file. */
  function EncodeChunkFile(fileUid: Uid, uid: Uid, iv: Bytes, data: Bytes, c: Cipher): Bytes
    requires |iv| == 16 && |data| < TWO_64
  {
    BytesLe(fileUid) + BytesLe(uid) + PackU64(|data|) + iv + c.encrypt(iv, PadWithSpaces(data))
  }

  /**
   * What `Read` does with the contents `f` of the chunk file: each header
   * field is read in turn and checked; a short file makes `uuid.UUID`,
   * `struct.unpack` or AES raise.
   */
  function ParseChunkFile(f: Bytes, fileUid: Option<Uid>, uid: Option<Uid>, size: nat,
                          c: Cipher, checksSize: bool, readLimit: nat): Exc<Option<Bytes>>
  {
    var storedFileUid := UuidFromBytesLe(Take(f, 16));
    if storedFileUid.Raised? then Raised
    else if Some(storedFileUid.value) != fileUid then Returned(None)
    else
      var storedUid := UuidFromBytesLe(Take(Drop(f, 16), 16));
      if storedUid.Raised? then Raised
      else if Some(storedUid.value) != uid then Returned(None)
      else
        var storedSize := UnpackU64(Take(Drop(f, 32), 8));
        if storedSize.Raised? then Raised
        else if checksSize && size != storedSize.value then Returned(None)
        else
          var iv := Take(Drop(f, 40), 16);
          var plain := AesDecrypt(c, iv, Take(Drop(f, HEADER_SIZE), readLimit));
          if plain.Raised? then Raised
          else Returned(Some(Take(plain.value, storedSize.value)))
  }

  /**
   * `MistChunk.Read` against the disk. Data comes back only from a file
   * whose header carries both expected uids (and, unless `checksSize` is
   * off, the expected size), and it is never longer than the size in the
   * header.
   */
  function ReadChunkFile(files: map<string, Bytes>, path: Option<string>, fileUid: Option<Uid>,
                         uid: Option<Uid>, size: nat, c: Cipher, checksSize: bool, readLimit: nat)
    : (r: Exc<Option<Bytes>>)
    ensures path.None? ==> r == Raised
    ensures path.Some? && path.value !in files ==> r == Returned(None)
    ensures r.Returned? && r.value.Some? ==>
      && path.Some? && path.value in files
      && |files[path.value]| >= HEADER_SIZE
      && fileUid.Some? && files[path.value][..16] == BytesLe(fileUid.value)
      && uid.Some? && files[path.value][16..32] == BytesLe(uid.value)
      && (checksSize ==> size == FromLittleEndian(files[path.value][32..40]))
      && |r.value.value| <= FromLittleEndian(files[path.value][32..40])
  {
    if path.None? then Raised
    else if path.value !in files then Returned(None)
    else
      var f := files[path.value];
      var r := ParseChunkFile(f, fileUid, uid, size, c, checksSize, readLimit);
      if r.Returned? && r.value.Some? then
        ParsedHeader(f, fileUid, uid, size, c, checksSize, readLimit);
        r
      else r
  }

  /** What a successful parse says about the header. */
  lemma ParsedHeader(f: Bytes, fileUid: Option<Uid>, uid: Option<Uid>, size: nat,
                     c: Cipher, checksSize: bool, readLimit: nat)
    requires ParseChunkFile(f, fileUid, uid, size, c, checksSize, readLimit).Returned?
    requires ParseChunkFile(f, fileUid, uid, size, c, checksSize, readLimit).value.Some?
    ensures |f| >= HEADER_SIZE
    ensures fileUid.Some? && f[..16] == BytesLe(fileUid.value)
    ensures uid.Some? && f[16..32] == BytesLe(uid.value)
    ensures checksSize ==> size == FromLittleEndian(f[32..40])
    ensures |ParseChunkFile(f, fileUid, uid, size, c, checksSize, readLimit).value.value| <= FromLittleEndian(f[32..40])
  {
    BytesLeOfParsed(Take(f, 16));
    BytesLeOfParsed(Take(Drop(f, 16), 16));
    assert Take(Drop(f, 16), 16) == f[16..32];
    assert Take(Drop(f, 32), 8) == f[32..40];
    var n := UnpackU64(f[32..40]).value;
    LittleEndianRoundTrip(n, 8);
  }

  /** A padded plaintext of at most `limit` bytes fits in a `limit` that is block-aligned. */
  lemma PaddedFits(data: Bytes, limit: nat)
    requires |data| <= limit && limit % BLOCK_SIZE == 0
    ensures |PadWithSpaces(data)| <= limit
  {
  }

  /**
   * Reading a chunk file that `_WriteToPath` wrote gives back the plaintext,
   * provided it fits in one read (`CHUNK_SIZE` is a multiple of 16) and
   * decryption undoes encryption.
   */
  lemma WriteThenRead(files: map<string, Bytes>, path: string, fileUid: Uid, uid: Uid,
                      iv: Bytes, data: Bytes, c: Cipher, checksSize: bool, readLimit: nat)
    requires ValidCipher(c) && |iv| == 16 && |data| < TWO_64
    requires |data| <= readLimit && readLimit % BLOCK_SIZE == 0
    ensures ReadChunkFile(files[path := EncodeChunkFile(fileUid, uid, iv, data, c)], Some(path),
                          Some(fileUid), Some(uid), |data|, c, checksSize, readLimit) == Returned(Some(data))
  {
    EncodedFields(fileUid, uid, iv, data, c, readLimit);
    ParseEncoded(EncodeChunkFile(fileUid, uid, iv, data, c), fileUid, uid, iv, data, c, checksSize, readLimit);
  }

  /** Where `_WriteToPath` puts each header field and the ciphertext. */
  lemma EncodedFields(fileUid: Uid, uid: Uid, iv: Bytes, data: Bytes, c: Cipher, readLimit: nat)
    requires ValidCipher(c) && |iv| == 16 && |data| < TWO_64
    requires |data| <= readLimit && readLimit % BLOCK_SIZE == 0
    ensures var f := EncodeChunkFile(fileUid, uid, iv, data, c);
      && Take(f, 16) == BytesLe(fileUid)
      && Take(Drop(f, 16), 16) == BytesLe(uid)
      && Take(Drop(f, 32), 8) == PackU64(|data|)
      && Take(Drop(f, 40), 16) == iv
      && Take(Drop(f, HEADER_SIZE), readLimit) == c.encrypt(iv, PadWithSpaces(data))
  {
    var ct := c.encrypt(iv, PadWithSpaces(data));
    EncryptThenDecrypt(c, iv, data);
    PaddedFits(data, readLimit);
    HeaderFields(BytesLe(fileUid), BytesLe(uid), PackU64(|data|), iv, ct);
  }

  /** The four header fields and the body of a concatenation, cut back out. */
  lemma HeaderFields(a: Bytes, b: Bytes, n: Bytes, iv: Bytes, body: Bytes)
    requires |a| == 16 && |b| == 16 && |n| == 8 && |iv| == 16
    ensures var f := a + b + n + iv + body;
      && Take(f, 16) == a && Take(Drop(f, 16), 16) == b && Take(Drop(f, 32), 8) == n
      && Take(Drop(f, 40), 16) == iv && Drop(f, HEADER_SIZE) == body
  {
    var f := a + b + n + iv + body;
    assert f[..16] == a;
    assert f[16..][..16] == b;
    assert f[32..][..8] == n;
    assert f[40..][..16] == iv;
    assert f[56..] == body;
  }

  /** A file whose fields are the ones `_WriteToPath` writes parses back to the plaintext. */
  lemma ParseEncoded(f: Bytes, fileUid: Uid, uid: Uid, iv: Bytes, data: Bytes, c: Cipher,
                     checksSize: bool, readLimit: nat)
    requires ValidCipher(c) && |iv| == 16 && |data| < TWO_64
    requires Take(f, 16) == BytesLe(fileUid)
    requires Take(Drop(f, 16), 16) == BytesLe(uid)
    requires Take(Drop(f, 32), 8) == PackU64(|data|)
    requires Take(Drop(f, 40), 16) == iv
    requires Take(Drop(f, HEADER_SIZE), readLimit) == c.encrypt(iv, PadWithSpaces(data))
    ensures ParseChunkFile(f, Some(fileUid), Some(uid), |data|, c, checksSize, readLimit) == Returned(Some(data))
  {
    DecryptPaddedTruncates(c, iv, data);
  }

  lemma ChunkSizesAligned()
    ensures CHUNK_SIZE % BLOCK_SIZE == 0 && LEGACY_CHUNK_SIZE % BLOCK_SIZE == 0
  {
  }

  /** `MistChunk`: one shard in a file of its own under `<root>/<folder>/`. */
  class Chunk {
    var fileUid: Option<Uid>
    var uid: Option<Uid>
    var size: nat
    var path: Option<string>
    /** Set for the older class of mist.py. */
    const legacy: bool

    /** `MistChunk.__init__`: `freshUid` stands for `uuid.uuid4()`, `iv` for the random IV. */
    constructor (fileUid: Uid, folderPath: string, data: Bytes, rootPath: string,
                 freshUid: Uid, iv: Bytes, disk: Disk, c: Cipher, legacy: bool)
      requires |iv| == 16 && |data| < TWO_64
      modifies disk
      ensures this.fileUid == Some(fileUid) && uid == Some(freshUid) && size == |data|
      ensures path == Some(ChunkPath(rootPath, folderPath, freshUid))
      ensures this.legacy == legacy
      ensures disk.files == old(disk.files)[path.value := EncodeChunkFile(fileUid, freshUid, iv, data, c)]
    {
      this.fileUid := Some(fileUid);
      uid := Some(freshUid);
      size := 0;
      path := Some(ChunkPath(rootPath, folderPath, freshUid));
      this.legacy := legacy;
      new;
      WriteToPath(data, iv, disk, c);
    }

    /** `_WriteToPath`: records the size and writes header and ciphertext. */
    method WriteToPath(data: Bytes, iv: Bytes, disk: Disk, c: Cipher)
      requires fileUid.Some? && uid.Some? && path.Some?
      requires |iv| == 16 && |data| < TWO_64
      modifies this, disk
      ensures fileUid == old(fileUid) && uid == old(uid) && path == old(path)
      ensures size == |data|
      ensures disk.files == old(disk.files)[path.value := EncodeChunkFile(fileUid.value, uid.value, iv, data, c)]
    {
      size := |data|;
      var written := BytesLe(fileUid.value);
      written := written + BytesLe(uid.value);
      written := written + PackU64(size);
      written := written + iv;
      var padded := data;
      if |padded| % BLOCK_SIZE != 0 {
        padded := padded + seq(BLOCK_SIZE - |padded| % BLOCK_SIZE, _ => SPACE);
      }
      written := written + c.encrypt(iv, padded);
      disk.files := disk.files[path.value := written];
    }

    /** What `Read` returns for the disk contents `files`. */
    function Contents(files: map<string, Bytes>, c: Cipher): Exc<Option<Bytes>>
      reads this
    {
      ReadChunkFile(files, path, fileUid, uid, size, c, !legacy, ReadLimit(legacy))
    }

    /** `Read`: sequential reads of the header fields, each with an early exit. */
    method Read(disk: Disk, c: Cipher) returns (r: Exc<Option<Bytes>>)
      ensures r == Contents(disk.files, c)
    {
      if path.None? {
        return Raised;
      }
      if path.value !in disk.files {
        return Returned(None);
      }
      var f := disk.files[path.value];
      var storedFileUid := UuidFromBytesLe(Take(f, 16));
      if storedFileUid.Raised? {
        return Raised;
      }
      if Some(storedFileUid.value) != fileUid {
        return Returned(None);
      }
      var storedUid := UuidFromBytesLe(Take(Drop(f, 16), 16));
      if storedUid.Raised? {
        return Raised;
      }
      if Some(storedUid.value) != uid {
        return Returned(None);
      }
      var storedSize := UnpackU64(Take(Drop(f, 32), 8));
      if storedSize.Raised? {
        return Raised;
      }
      if !legacy && size != storedSize.value {
        return Returned(None);
      }
      var iv := Take(Drop(f, 40), 16);
      var encrypted := Take(Drop(f, HEADER_SIZE), ReadLimit(legacy));
      var plain := AesDecrypt(c, iv, encrypted);
      if plain.Raised? {
        return Raised;
      }
      r := Returned(Some(Take(plain.value, storedSize.value)));
    }

    /**
     * `Delete`: removes the file and forgets the uids and the path. Removing
     * a missing file, or a chunk already deleted (path None), raises and
     * changes nothing. The method of mist.py returns None, which callers
     * test as false.
     */
    method Delete(disk: Disk) returns (r: Exc<bool>)
      modifies this, disk
      ensures old(path).None? || old(path.value) !in old(disk.files) ==>
        r == Raised && disk.files == old(disk.files) &&
        fileUid == old(fileUid) && uid == old(uid) && path == old(path)
      ensures old(path).Some? && old(path.value) in old(disk.files) ==>
        r == Returned(!legacy) && disk.files == old(disk.files) - {old(path.value)} &&
        fileUid.None? && uid.None? && path.None?
      ensures size == old(size)
    {
      if path.None? || path.value !in disk.files {
        return Raised;
      }
      disk.files := disk.files - {path.value};
      fileUid := None;
      uid := None;
      path := None;
      r := Returned(!legacy);
    }
  }
}
