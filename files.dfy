/**
 * A user file kept whole on the network (`MistFile` of files.py and, in its
 * earlier revision, of mist_file.py). The file is sealed into one frame,
 * 8-byte little-endian plaintext size | 16-byte IV | AES-CBC encryption of
 * the plaintext padded with spaces, and the frame is stored as a single
 * network data file. Reading parses the frame back and checks the size.
 */
module Files {
  import opened Common
  import opened Storage
  import DataFiles

  /** Bytes of the size field (`struct.calcsize("Q")`). */
  const SIZE_FIELD: nat := 8

  /** Bytes of the IV that follows it. */
  const IV_FIELD: nat := 16

  /** The frame `_MakeDataFile` builds from the file's contents. */
  function EncodeFrame(iv: Bytes, data: Bytes, c: Cipher): (f: Bytes)
    requires |data| < TWO_64
  {
    PackU64(|data|) + iv + c.encrypt(iv, PadWithSpaces(data))
  }

  /**
   * `Read` of files.py on the frame the network returned: the size field
   * must be whole (`struct.unpack` raises otherwise) and equal the size on
   * record; the rest is decrypted (AES raises on a short IV or an unaligned
   * body), cut back to the size in the header, and refused unless exactly
   * `size` bytes are left.
   */
  function ParseFrame(frame: Bytes, size: nat, c: Cipher): (r: Exc<Option<Bytes>>)
    ensures r.Returned? && r.value.Some? ==>
      && |r.value.value| == size
      && UnpackU64(Take(frame, SIZE_FIELD)) == Returned(size)
  {
    var stored := UnpackU64(Take(frame, SIZE_FIELD));
    if stored.Raised? then Raised
    else if size != stored.value then Returned(None)
    else
      var rest := Drop(frame, SIZE_FIELD);
      var plain := AesDecrypt(c, Take(rest, IV_FIELD), Drop(rest, IV_FIELD));
      if plain.Raised? then Raised
      else
        var data := Take(plain.value, stored.value);
        if size != |data| then Returned(None) else Returned(Some(data))
  }

  /**
   * `Read` of mist_file.py: the same frame, but the length is checked on
   * the ciphertext before decrypting and the truncated plaintext is
   * returned unchecked.
   */
  function ParseFrameEarly(frame: Bytes, size: nat, c: Cipher): (r: Exc<Option<Bytes>>)
    ensures r.Returned? && r.value.Some? ==>
      && UnpackU64(Take(frame, SIZE_FIELD)) == Returned(size)
      && size <= |Drop(frame, SIZE_FIELD + IV_FIELD)|
  {
    var stored := UnpackU64(Take(frame, SIZE_FIELD));
    if stored.Raised? then Raised
    else if size != stored.value then Returned(None)
    else
      var rest := Drop(frame, SIZE_FIELD);
      var body := Drop(rest, IV_FIELD);
      DropDrop(frame, SIZE_FIELD, IV_FIELD);
      if size > |body| then Returned(None)
      else
        var plain := AesDecrypt(c, Take(rest, IV_FIELD), body);
        if plain.Raised? then Raised
        else Returned(Some(Take(plain.value, stored.value)))
  }

  /** What `Read` makes of the network's answer, in either revision. */
  function ReadFrame(found: Option<Bytes>, size: nat, c: Cipher, early: bool): Exc<Option<Bytes>>
  {
    if found.None? then Returned(None)
    else if early then ParseFrameEarly(found.value, size, c)
    else ParseFrame(found.value, size, c)
  }

  /** The fields of a frame, cut back out. */
  lemma FrameFields(iv: Bytes, data: Bytes, c: Cipher)
    requires |iv| == IV_FIELD && |data| < TWO_64
    ensures var f := EncodeFrame(iv, data, c);
      && Take(f, SIZE_FIELD) == PackU64(|data|)
      && Take(Drop(f, SIZE_FIELD), IV_FIELD) == iv
      && Drop(Drop(f, SIZE_FIELD), IV_FIELD) == c.encrypt(iv, PadWithSpaces(data))
  {
    var f := EncodeFrame(iv, data, c);
    assert f[..SIZE_FIELD] == PackU64(|data|);
    assert f[SIZE_FIELD..][..IV_FIELD] == iv;
    assert f[SIZE_FIELD..][IV_FIELD..] == c.encrypt(iv, PadWithSpaces(data));
  }

  /**
   * Reading what `_MakeDataFile` stored gives the file back, in both
   * revisions, when decryption undoes encryption.
   */
  lemma FrameRoundTrip(iv: Bytes, data: Bytes, c: Cipher, early: bool)
    requires ValidCipher(c) && |iv| == IV_FIELD && |data| < TWO_64
    ensures ReadFrame(Some(EncodeFrame(iv, data, c)), |data|, c, early) == Returned(Some(data))
  {
    FrameFields(iv, data, c);
    DecryptPaddedTruncates(c, iv, data);
    EncryptThenDecrypt(c, iv, data);
    DropDrop(EncodeFrame(iv, data, c), SIZE_FIELD, IV_FIELD);
  }

  /**
   * With a length-preserving cipher the earlier revision also returns
   * exactly `size` bytes, and it answers as the later one does, except
   * that a body too short to hold `size` bytes is refused before AES can
   * raise on it.
   */
  lemma RevisionsAgree(frame: Bytes, size: nat, c: Cipher)
    requires ValidCipher(c)
    ensures var early := ParseFrameEarly(frame, size, c);
      early.Returned? && early.value.Some? ==> |early.value.value| == size
    ensures ParseFrameEarly(frame, size, c) == ParseFrame(frame, size, c) ||
      (ParseFrame(frame, size, c) == Raised && ParseFrameEarly(frame, size, c) == Returned(None))
  {
    DropDrop(frame, SIZE_FIELD, IV_FIELD);
  }

  /** `MistFile`: a user file, sealed into one frame on the network. */
  class MistFile {
    var uid: Option<Uid>
    var filename: Option<string>
    /** `size`: the plaintext length, set when the frame is made. */
    const size: nat
    /** `mist_network_data_file`, the network data file holding the frame. */
    var dataFile: Option<DataFiles.NetworkShard>
    /** True for the revision of mist_file.py. */
    const early: bool

    ghost predicate Valid()
      reads this
    {
      uid.Some? ==> dataFile.Some?
    }

    /**
     * `__init__` and `_MakeDataFile`: the file at `filePath` is read from
     * the disk, sealed with the random `iv` and stored under `key`, the
     * fresh pair the network chooses; `newUid` is the fresh uid.
     */
    constructor (filePath: string, disk: Disk, newUid: Uid, iv: Bytes, key: RemoteKey,
                 net: NetworkClient, c: Cipher, early: bool)
      requires filePath in disk.files && |disk.files[filePath]| < TWO_64
      requires |iv| == IV_FIELD && key !in net.objects
      modifies net
      ensures Valid() && uid == Some(newUid) && filename == Some(Basename(filePath))
      ensures size == |disk.files[filePath]| && this.early == early
      ensures dataFile.Some? && fresh(dataFile.value)
      ensures dataFile.value.Retrieved(net.objects) == Some(EncodeFrame(iv, disk.files[filePath], c))
      ensures net.objects == old(net.objects)[key := EncodeFrame(iv, disk.files[filePath], c)]
    {
      var data := disk.files[filePath];
      uid := Some(newUid);
      filename := Some(Basename(filePath));
      size := |data|;
      this.early := early;
      var frame := EncodeFrame(iv, data, c);
      var shard := new DataFiles.NetworkShard(frame, key, net);
      dataFile := Some(shard);
    }

    /**
     * `Read`: nothing for a deleted file; otherwise the frame the network
     * returns for the data file (nothing while its store is still running)
     * is parsed as `ReadFrame` describes.
     */
    method Read(timedOut: bool, net: NetworkClient, c: Cipher) returns (r: Exc<Option<Bytes>>)
      requires Valid()
      ensures uid.None? ==> r == Returned(None)
      ensures uid.Some? ==>
        r == ReadFrame(if timedOut then None else dataFile.value.Retrieved(net.objects), size, c, early)
    {
      if uid.None? {
        return Returned(None);
      }
      var found := dataFile.value.Read(timedOut, net);
      r := ReadFrame(found, size, c, early);
    }

    /**
     * `Delete`: a file already deleted reports success and nothing changes.
     * Otherwise the data file is deleted first; if that fails nothing
     * changes and false comes back, and if it succeeds the file forgets its
     * uid, name and data file.
     */
    method Delete(timedOut: bool, net: NetworkClient) returns (ok: bool)
      requires Valid()
      modifies this, net
      ensures Valid()
      ensures old(uid).None? ==>
        ok && uid == old(uid) && filename == old(filename) && dataFile == old(dataFile) &&
        net.objects == old(net.objects)
      ensures old(uid).Some? ==>
        (ok <==> !timedOut && old(dataFile.value.Key()).Some? && old(dataFile.value.Key()).value in old(net.objects))
      ensures old(uid).Some? && !ok ==>
        uid == old(uid) && filename == old(filename) && dataFile == old(dataFile) &&
        net.objects == old(net.objects)
      ensures old(uid).Some? && ok ==>
        uid.None? && filename.None? && dataFile.None? &&
        net.objects == old(net.objects) - {old(dataFile.value.Key()).value}
    {
      if uid.Some? {
        var inner := dataFile.value.Delete(timedOut, net);
        if inner {
          uid := None;
          filename := None;
          dataFile := None;
        } else {
          return false;
        }
      }
      return true;
    }
  }
}
