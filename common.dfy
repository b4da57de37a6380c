/**
 * Values shared by every part of the Mist model: bytes as a Python 2 `str`
 * holds them, the outcome of a Python call that may raise, Python's slicing
 * rules, the `struct` little-endian 64-bit field, the space padding used
 * before encryption, the AES-CBC cipher as an oracle, the byte order of
 * `uuid.UUID(bytes_le=...)`, and `ntpath.basename`.
 */
module Common {

  /** One byte of a Python 2 `str`. */
  type byte = x: int | 0 <= x < 256

  type Bytes = seq<byte>

  datatype Option<+T> = None | Some(value: T)

  /** What a Python call does: it returns a value or it raises an exception. */
  datatype Exc<+T> = Returned(value: T) | Raised

  /** Python's `s[:n]` for a non-negative `n`: never fails, stops at the end. */
  function Take<T>(s: seq<T>, n: nat): (r: seq<T>)
    ensures |r| == if n <= |s| then n else |s|
    ensures r == s[..|r|]
  {
    if n <= |s| then s[..n] else s
  }

  /** Python's `s[n:]` for a non-negative `n`. */
  function Drop<T>(s: seq<T>, n: nat): (r: seq<T>)
    ensures Take(s, n) + r == s
    ensures |r| == if n <= |s| then |s| - n else 0
  {
    if n <= |s| then s[n..] else []
  }

  /** Dropping twice is dropping the sum. */
  lemma DropDrop<T>(s: seq<T>, a: nat, b: nat)
    ensures Drop(Drop(s, a), b) == Drop(s, a + b)
  {
    if a + b <= |s| {
      assert s[a..][b..] == s[a + b..];
    }
  }

  // ---------------------------------------------------------------------
  // struct.pack("<Q", n) / struct.unpack("<Q", b)
  // ---------------------------------------------------------------------

  /** 256 to the power k. */
  function Pow256(k: nat): (p: nat)
    ensures p >= 1
  {
    if k == 0 then 1 else 256 * Pow256(k - 1)
  }

  /** Bound of an unsigned 64-bit field ("Q"). */
  const TWO_64: nat := 0x1_0000_0000_0000_0000

  /** The `width` low-order bytes of `n`, least significant first. */
  function LittleEndian(n: nat, width: nat): (r: Bytes)
    ensures |r| == width
  {
    if width == 0 then [] else [n % 256] + LittleEndian(n / 256, width - 1)
  }

  /** The number whose little-endian digits are `b`. */
  function FromLittleEndian(b: Bytes): nat
  {
    if b == [] then 0 else b[0] + 256 * FromLittleEndian(b[1..])
  }

  lemma {:induction false} FromLittleEndianBound(b: Bytes)
    ensures FromLittleEndian(b) < Pow256(|b|)
  {
    if b != [] {
      FromLittleEndianBound(b[1..]);
    }
  }

  /** Decoding the encoding of a value that fits gives the value back. */
  lemma {:induction false} LittleEndianRoundTrip(n: nat, width: nat)
    requires n < Pow256(width)
    ensures FromLittleEndian(LittleEndian(n, width)) == n
  {
    if width > 0 {
      LittleEndianRoundTrip(n / 256, width - 1);
      var b := LittleEndian(n, width);
      assert b[1..] == LittleEndian(n / 256, width - 1);
    }
  }

  /** Encoding the decoding of a field gives the field back. */
  lemma {:induction false} LittleEndianOfDecoding(b: Bytes)
    ensures LittleEndian(FromLittleEndian(b), |b|) == b
  {
    if b != [] {
      LittleEndianOfDecoding(b[1..]);
      DigitSplit(b[0], FromLittleEndian(b[1..]));
      assert b == [b[0]] + b[1..];
    }
  }

  /** The low digit and the rest of `d + 256 * m`, for a digit `d`. */
  lemma DigitSplit(d: nat, m: nat)
    requires d < 256
    ensures (d + 256 * m) % 256 == d && (d + 256 * m) / 256 == m
  {
  }

  lemma Pow256Of8()
    ensures Pow256(8) == TWO_64
  {
  }

  /** `struct.pack("<Q", n)`: eight bytes, least significant first. */
  function PackU64(n: nat): (r: Bytes)
    requires n < TWO_64
    ensures |r| == 8
    ensures UnpackU64(r) == Returned(n)
  {
    Pow256Of8();
    LittleEndianRoundTrip(n, 8);
    LittleEndian(n, 8)
  }

  /** `struct.unpack("<Q", b)[0]`: raises `struct.error` unless `b` has 8 bytes. */
  function UnpackU64(b: Bytes): (r: Exc<nat>)
    ensures r.Returned? <==> |b| == 8
    ensures r.Returned? ==> r.value < TWO_64 && LittleEndian(r.value, 8) == b
  {
    if |b| != 8 then Raised
    else
      FromLittleEndianBound(b);
      Pow256Of8();
      LittleEndianOfDecoding(b);
      Returned(FromLittleEndian(b))
  }

  // ---------------------------------------------------------------------
  // Padding with spaces before AES-CBC
  // ---------------------------------------------------------------------

  const SPACE: byte := 32
  const BLOCK_SIZE: nat := 16

  /**
   * `if len(data) % 16 != 0: data += " " * (16 - len(data) % 16)`.
   * The result is the least multiple of 16 that holds `data`, filled with
   * spaces after it. The padding is not reversible: the length travels in a
   * header instead.
   */
  function PadWithSpaces(data: Bytes): (r: Bytes)
    ensures |r| % BLOCK_SIZE == 0
    ensures |data| <= |r| < |data| + BLOCK_SIZE
    ensures r[..|data|] == data
    ensures forall i :: |data| <= i < |r| ==> r[i] == SPACE
  {
    if |data| % BLOCK_SIZE != 0 then data + seq(BLOCK_SIZE - |data| % BLOCK_SIZE, _ => SPACE)
    else data
  }

  // ---------------------------------------------------------------------
  // AES in CBC mode, as an oracle
  // ---------------------------------------------------------------------

  /**
   * AES with the configured key in CBC mode (FIPS 197, with the CBC mode of
   * NIST SP 800-38A section 6.2). The block cipher itself is not modelled:
   * a cipher is any pair of functions of (IV, input) that `ValidCipher`
   * accepts.
   */
  datatype Cipher = Cipher(encrypt: (Bytes, Bytes) -> Bytes, decrypt: (Bytes, Bytes) -> Bytes)

  /**
   * What the model assumes of AES-CBC: on block-aligned input and a 16-byte
   * IV, both directions preserve length and decryption undoes encryption.
   */
  ghost predicate ValidCipher(c: Cipher)
  {
    && (forall iv: Bytes, p: Bytes :: |iv| == 16 && |p| % BLOCK_SIZE == 0 ==>
          |c.encrypt(iv, p)| == |p| && c.decrypt(iv, c.encrypt(iv, p)) == p)
    && (forall iv: Bytes, x: Bytes :: |iv| == 16 && |x| % BLOCK_SIZE == 0 ==>
          |c.decrypt(iv, x)| == |x|)
  }

  /**
   * `AES.new(key, AES.MODE_CBC, iv).decrypt(x)`: raises `ValueError` for an
   * IV that is not 16 bytes long or input that is not block-aligned.
   */
  function AesDecrypt(c: Cipher, iv: Bytes, x: Bytes): (r: Exc<Bytes>)
    ensures r.Returned? <==> |iv| == 16 && |x| % BLOCK_SIZE == 0
    ensures ValidCipher(c) && r.Returned? ==> |r.value| == |x|
  {
    if |iv| != 16 || |x| % BLOCK_SIZE != 0 then Raised else Returned(c.decrypt(iv, x))
  }

  /** Encrypting the padded plaintext and then decrypting gives the padded plaintext. */
  lemma EncryptThenDecrypt(c: Cipher, iv: Bytes, data: Bytes)
    requires ValidCipher(c) && |iv| == 16
    ensures |c.encrypt(iv, PadWithSpaces(data))| == |PadWithSpaces(data)|
    ensures AesDecrypt(c, iv, c.encrypt(iv, PadWithSpaces(data))) == Returned(PadWithSpaces(data))
  {
  }

  /** Truncating the decrypted, padded plaintext to its recorded length recovers it. */
  lemma {:induction false} DecryptPaddedTruncates(c: Cipher, iv: Bytes, data: Bytes)
    requires ValidCipher(c) && |iv| == 16
    ensures AesDecrypt(c, iv, c.encrypt(iv, PadWithSpaces(data))).Returned?
    ensures Take(AesDecrypt(c, iv, c.encrypt(iv, PadWithSpaces(data))).value, |data|) == data
  {
    EncryptThenDecrypt(c, iv, data);
  }

  // ---------------------------------------------------------------------
  // UUIDs
  // ---------------------------------------------------------------------

  /** A UUID, as its 16 bytes in big-endian order (`uuid.UUID.bytes`). */
  type Uid = b: Bytes | |b| == 16 witness [0, 0, 0, 0, 0, 0, 0, 0, 0, 0, 0, 0, 0, 0, 0, 0]

  /**
   * `uuid.UUID.bytes_le`: the first three fields byte-reversed, the rest as
   * is. `uuid.UUID(bytes_le=...)` reads it back.
   */
  function BytesLe(u: Uid): (r: Bytes)
    ensures |r| == 16
    ensures UuidFromBytesLe(r) == Returned(u)
  {
    var r := [u[3], u[2], u[1], u[0], u[5], u[4], u[7], u[6]] + u[8..];
    assert [r[3], r[2], r[1], r[0], r[5], r[4], r[7], r[6]] + r[8..] == u;
    r
  }

  /** `uuid.UUID(bytes_le=b)`: raises `ValueError` unless `b` has 16 bytes. */
  function UuidFromBytesLe(b: Bytes): (r: Exc<Uid>)
    ensures r.Returned? <==> |b| == 16
  {
    if |b| != 16 then Raised
    else Returned([b[3], b[2], b[1], b[0], b[5], b[4], b[7], b[6]] + b[8..])
  }

  /** Whatever `uuid.UUID(bytes_le=b)` accepts, `bytes_le` gives back. */
  lemma BytesLeOfParsed(b: Bytes)
    requires UuidFromBytesLe(b).Returned?
    ensures BytesLe(UuidFromBytesLe(b).value) == b
  {
    var u := UuidFromBytesLe(b).value;
    assert BytesLe(u) == [b[0], b[1], b[2], b[3], b[4], b[5], b[6], b[7]] + b[8..];
  }

  function HexDigit(v: nat): char
    requires v < 16
  {
    if v < 10 then ('0' as int + v) as char else ('a' as int + (v - 10)) as char
  }

  /** Two lower-case hexadecimal digits per byte. */
  function Hex(b: Bytes): (s: string)
    ensures |s| == 2 * |b|
  {
    if b == [] then "" else [HexDigit(b[0] / 16), HexDigit(b[0] % 16)] + Hex(b[1..])
  }

  /** `str(uuid)`: 32 hexadecimal digits grouped 8-4-4-4-12 by hyphens. */
  function UuidString(u: Uid): (s: string)
    ensures |s| == 36
  {
    var h := Hex(u);
    h[..8] + "-" + h[8..12] + "-" + h[12..16] + "-" + h[16..20] + "-" + h[20..]
  }

  /** Two UUIDs with the same `bytes_le` are the same UUID. */
  lemma BytesLeInjective(u: Uid, v: Uid)
    requires BytesLe(u) == BytesLe(v)
    ensures u == v
  {
    assert UuidFromBytesLe(BytesLe(u)) == Returned(u);
  }

  // ---------------------------------------------------------------------
  // ntpath.basename
  // ---------------------------------------------------------------------

  predicate IsSep(c: char)
  {
    c == '/' || c == '\\'
  }

  /** The longest suffix of `p` that holds no separator. */
  function AfterLastSep(p: string): (r: string)
    ensures |r| <= |p| && r == p[|p| - |r|..]
    ensures forall c :: c in r ==> !IsSep(c)
    ensures |r| < |p| ==> IsSep(p[|p| - |r| - 1])
  {
    if p == [] then []
    else if IsSep(p[|p| - 1]) then []
    else
      var r := AfterLastSep(p[..|p| - 1]) + [p[|p| - 1]];
      assert p[..|p| - 1][|p| - |r|..] + [p[|p| - 1]] == p[|p| - |r|..];
      r
  }

  /** How many separators `s` holds. */
  function SepCount(s: string): nat
  {
    if s == [] then 0 else (if IsSep(s[0]) then 1 else 0) + SepCount(s[1..])
  }

  /**
   * A UNC path that is nothing but its drive, `\\host\share` with either
   * separator: two separators, a host, and exactly one separator after it.
   * `ntpath.splitdrive` (Python 2.7.8 on) takes such a path whole as the
   * drive.
   */
  predicate IsUncDrive(p: string)
  {
    |p| >= 3 && IsSep(p[0]) && IsSep(p[1]) && !IsSep(p[2]) && SepCount(p[2..]) == 1
  }

  /**
   * `ntpath.basename(p)`: what follows the last `/` or `\`, after the drive
   * (`splitdrive`) is set aside: a drive letter prefix such as `C:`, or a
   * whole UNC drive, which leaves nothing.
   */
  function Basename(p: string): (r: string)
    ensures |r| <= |p| && r == p[|p| - |r|..]
    ensures forall c :: c in r ==> !IsSep(c)
    ensures |r| < |p| ==> IsSep(p[|p| - |r| - 1]) || (|p| - |r| == 2 && p[1] == ':') || IsUncDrive(p)
    ensures |p| >= 2 && p[1] == ':' ==> |r| <= |p| - 2
    ensures IsUncDrive(p) ==> r == ""
  {
    if IsUncDrive(p) then ""
    else if |p| >= 2 && p[1] == ':' then
      var r := AfterLastSep(p[2..]);
      assert p[2..][|p| - 2 - |r|..] == p[|p| - |r|..];
      r
    else AfterLastSep(p)
  }

  /** `ntpath.basename("C:ab")` is `"ab"`: the drive letter is not part of the name. */
  lemma BasenameDropsDrive()
    ensures Basename("C:ab") == "ab"
  {
    assert "C:ab"[2..] == "ab";
    assert "ab"[..1] == "a";
  }

  /** `ntpath.basename("//h/s")` is `""`: the whole path is a UNC drive. */
  lemma BasenameOfUncDrive()
    ensures Basename("//h/s") == ""
  {
    var p := "//h/s";
    assert p[2..] == "h/s";
    assert SepCount("s") == 0 by { assert "s"[1..] == ""; }
    assert SepCount("/s") == 1 by { assert "/s"[1..] == "s"; }
    assert SepCount("h/s") == 1 by { assert "h/s"[1..] == "/s"; }
  }
}
