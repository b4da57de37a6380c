/**
 * Python 2's `"base64"` codec, used to carry binary payloads over the JSON
 * RPC: `s.encode("base64")` is `base64.encodestring`, which encodes each run
 * of 57 input bytes (RFC 4648 section 4) onto a line of 76 characters ended
 * by a newline (the line length of RFC 2045 section 6.8); `s.decode("base64")`
 * is `binascii.a2b_base64`, which skips characters outside the alphabet,
 * treats `=` by its place in the current group, and decodes the rest.
 */
module Base64 {
  import opened Common

  /** Input bytes per encoded line (`base64.MAXBINSIZE`). */
  const LINE_BYTES: nat := 57

  /** The character for a 6-bit value (RFC 4648 section 4, table 1). */
  function Letter(v: nat): (c: char)
    requires v < 64
    ensures IsLetter(c)
  {
    if v < 26 then ('A' as int + v) as char
    else if v < 52 then ('a' as int + (v - 26)) as char
    else if v < 62 then ('0' as int + (v - 52)) as char
    else if v == 62 then '+'
    else '/'
  }

  predicate IsLetter(c: char)
  {
    ('A' <= c <= 'Z') || ('a' <= c <= 'z') || ('0' <= c <= '9') || c == '+' || c == '/'
  }

  /** The 6-bit value of an alphabet character. */
  function Sextet(c: char): (v: nat)
    requires IsLetter(c)
    ensures v < 64 && Letter(v) == c
  {
    if 'A' <= c <= 'Z' then c as int - 'A' as int
    else if 'a' <= c <= 'z' then c as int - 'a' as int + 26
    else if '0' <= c <= '9' then c as int - '0' as int + 52
    else if c == '+' then 62
    else 63
  }

  lemma SextetOfLetter(v: nat)
    requires v < 64
    ensures Sextet(Letter(v)) == v
  {
  }

  /** Four characters for three bytes. */
  function EncodeTriple(b0: byte, b1: byte, b2: byte): string
  {
    [Letter(b0 / 4), Letter((b0 % 4) * 16 + b1 / 16), Letter((b1 % 16) * 4 + b2 / 64), Letter(b2 % 64)]
  }

  /** A final group for two bytes, padded with one `=`. */
  function EncodePair(b0: byte, b1: byte): (s: string)
    ensures |s| == 4 && forall i :: 0 <= i < 4 ==> IsLetter(s[i]) || s[i] == '='
  {
    [Letter(b0 / 4), Letter((b0 % 4) * 16 + b1 / 16), Letter((b1 % 16) * 4), '=']
  }

  /** A final group for one byte, padded with `==`. */
  function EncodeSingle(b0: byte): (s: string)
    ensures |s| == 4 && forall i :: 0 <= i < 4 ==> IsLetter(s[i]) || s[i] == '='
  {
    [Letter(b0 / 4), Letter((b0 % 4) * 16), '=', '=']
  }

  /** RFC 4648 section 4 with `=` padding, no line breaks (`binascii.b2a_base64` without its newline). */
  function EncodeBlocks(b: Bytes): (s: string)
    ensures |s| % 4 == 0
    ensures forall i :: 0 <= i < |s| ==> IsLetter(s[i]) || s[i] == '='
    decreases |b|
  {
    if |b| == 0 then ""
    else if |b| == 1 then EncodeSingle(b[0])
    else if |b| == 2 then EncodePair(b[0], b[1])
    else EncodeTriple(b[0], b[1], b[2]) + EncodeBlocks(b[3..])
  }

  /** `base64.encodestring(b)`: one line per 57 input bytes, each ended by a newline. */
  function EncodeString(b: Bytes): (s: string)
    ensures forall i :: 0 <= i < |s| ==> IsLetter(s[i]) || s[i] == '=' || s[i] == '\n'
    decreases |b|
  {
    if b == [] then ""
    else EncodeBlocks(Take(b, LINE_BYTES)) + "\n" + EncodeString(Drop(b, LINE_BYTES))
  }

  /** The characters the decoder looks at: the alphabet and the pad character. */
  function Significant(s: string): (t: string)
    ensures AllSignificant(t)
  {
    if s == [] then ""
    else if IsLetter(s[0]) || s[0] == '=' then [s[0]] + Significant(s[1..])
    else Significant(s[1..])
  }

  /** The three bytes of a full group. */
  function DecodeGroup(c0: char, c1: char, c2: char, c3: char): Bytes
    requires IsLetter(c0) && IsLetter(c1) && IsLetter(c2) && IsLetter(c3)
  {
    var a, b, c, d := Sextet(c0), Sextet(c1), Sextet(c2), Sextet(c3);
    [a * 4 + b / 16, (b % 16) * 16 + c / 4, (c % 4) * 64 + d]
  }

  /** The two bytes of a group ending in one `=`. */
  function DecodePairGroup(c0: char, c1: char, c2: char): Bytes
    requires IsLetter(c0) && IsLetter(c1) && IsLetter(c2)
  {
    var a, b, c := Sextet(c0), Sextet(c1), Sextet(c2);
    [a * 4 + b / 16, (b % 16) * 16 + c / 4]
  }

  /** The byte of a group ending in `==`. */
  function DecodeSingleGroup(c0: char, c1: char): Bytes
    requires IsLetter(c0) && IsLetter(c1)
  {
    [Sextet(c0) * 4 + Sextet(c1) / 16]
  }

  /** Every character is one the decoder looks at. */
  predicate AllSignificant(t: string)
  {
    forall i :: 0 <= i < |t| ==> IsLetter(t[i]) || t[i] == '='
  }

  /** Alphabet characters only. */
  predicate AllLetters(p: string)
  {
    forall i :: 0 <= i < |p| ==> IsLetter(p[i])
  }

  /**
   * `binascii.a2b_base64` over the significant characters `t`, with the
   * letters of the current group held in `pending` (`quad_pos` is its
   * length). A `=` in the first two places of a group is skipped; in the
   * third place it ends the input when the next significant character is
   * another `=` and is skipped otherwise; in the fourth place it ends the
   * input. What follows the end of the input is ignored. Input that runs
   * out inside a group raises `binascii.Error` ("Incorrect padding").
   */
  function A2b(t: string, pending: string): (r: Exc<Bytes>)
    requires AllSignificant(t)
    requires |pending| < 4 && AllLetters(pending)
    decreases |t|
  {
    if t == [] then
      if pending == [] then Returned([]) else Raised
    else if t[0] == '=' then
      if |pending| < 2 then A2b(t[1..], pending)
      else if |pending| == 2 then
        if |t| > 1 && t[1] == '=' then Returned(DecodeSingleGroup(pending[0], pending[1]))
        else A2b(t[1..], pending)
      else Returned(DecodePairGroup(pending[0], pending[1], pending[2]))
    else if |pending| == 3 then
      var rest := A2b(t[1..], "");
      if rest.Raised? then Raised
      else Returned(DecodeGroup(pending[0], pending[1], pending[2], t[0]) + rest.value)
    else A2b(t[1..], pending + [t[0]])
  }

  /** A character the JSON-RPC `unicode` text cannot carry into `binascii`. */
  predicate NonAscii(s: string)
  {
    exists i :: 0 <= i < |s| && s[i] as int > 0x7f
  }

  /**
   * `s.decode("base64")` on the `unicode` text a JSON-RPC call delivers:
   * a character beyond ASCII raises `UnicodeEncodeError` on the way into
   * `binascii.a2b_base64`; otherwise the other characters outside the
   * alphabet (the newlines among them) are skipped and the rest decoded by
   * `A2b`.
   */
  function DecodeString(s: string): (r: Exc<Bytes>)
    ensures NonAscii(s) ==> r.Raised?
  {
    if NonAscii(s) then Raised else A2b(Significant(s), "")
  }

  // ---------------------------------------------------------------------
  // Round trip
  // ---------------------------------------------------------------------

  lemma {:induction false} SignificantAppend(s: string, t: string)
    ensures Significant(s + t) == Significant(s) + Significant(t)
  {
    if s != [] {
      assert (s + t)[0] == s[0];
      assert (s + t)[1..] == s[1..] + t;
      SignificantAppend(s[1..], t);
    } else {
      assert s + t == t;
    }
  }

  /** A string made only of alphabet and pad characters is left as it is. */
  lemma {:induction false} SignificantOfClean(s: string)
    requires forall i :: 0 <= i < |s| ==> IsLetter(s[i]) || s[i] == '='
    ensures Significant(s) == s
  {
    if s != [] {
      SignificantOfClean(s[1..]);
    }
  }

  /** Encoding a whole number of triples and then the rest is encoding the lot. */
  lemma {:induction false} EncodeBlocksAppend(x: Bytes, y: Bytes)
    requires |x| % 3 == 0
    ensures EncodeBlocks(x + y) == EncodeBlocks(x) + EncodeBlocks(y)
    decreases |x|
  {
    if |x| > 0 {
      var xy := x + y;
      assert xy[0] == x[0] && xy[1] == x[1] && xy[2] == x[2];
      assert xy[3..] == x[3..] + y;
      EncodeBlocksAppend(x[3..], y);
      assert EncodeBlocks(xy) == EncodeTriple(x[0], x[1], x[2]) + EncodeBlocks(x[3..] + y);
    } else {
      assert x + y == y;
    }
  }

  /** One line of the encoding contributes its characters without the newline. */
  lemma SignificantOfLine(head: Bytes, rest: string)
    ensures Significant(EncodeBlocks(head) + "\n" + rest) == EncodeBlocks(head) + Significant(rest)
  {
    var e := EncodeBlocks(head);
    SignificantAppend(e + "\n", rest);
    SignificantAppend(e, "\n");
    SignificantOfClean(e);
    assert Significant("\n") == "";
  }

  /** The newlines between lines disappear before decoding. */
  lemma {:induction false} SignificantOfEncodeString(b: Bytes)
    ensures Significant(EncodeString(b)) == EncodeBlocks(b)
    decreases |b|
  {
    if b != [] {
      var head, tail := Take(b, LINE_BYTES), Drop(b, LINE_BYTES);
      SignificantOfLine(head, EncodeString(tail));
      SignificantOfEncodeString(tail);
      if |b| > LINE_BYTES {
        EncodeBlocksAppend(head, tail);
      } else {
        assert tail == [] && head == b;
      }
    }
  }

  lemma ByteArithmetic(b0: byte, b1: byte, b2: byte)
    ensures (b0 / 4) * 4 + ((b0 % 4) * 16 + b1 / 16) / 16 == b0
    ensures (((b0 % 4) * 16 + b1 / 16) % 16) * 16 + ((b1 % 16) * 4 + b2 / 64) / 4 == b1
    ensures (((b1 % 16) * 4 + b2 / 64) % 4) * 64 + b2 % 64 == b2
  {
  }

  /** The characters of a full group decode to the three bytes they encode. */
  lemma GroupOfTriple(b0: byte, b1: byte, b2: byte)
    ensures var s := EncodeTriple(b0, b1, b2); DecodeGroup(s[0], s[1], s[2], s[3]) == [b0, b1, b2]
  {
    var v0, v1, v2, v3 := b0 / 4, (b0 % 4) * 16 + b1 / 16, (b1 % 16) * 4 + b2 / 64, b2 % 64;
    SextetOfLetter(v0);
    SextetOfLetter(v1);
    SextetOfLetter(v2);
    SextetOfLetter(v3);
    ByteArithmetic(b0, b1, b2);
  }

  /** Two runs of significant characters make one. */
  lemma AllSignificantAppend(a: string, b: string)
    requires AllSignificant(a) && AllSignificant(b)
    ensures AllSignificant(a + b)
  {
    forall i | 0 <= i < |a + b| ensures IsLetter((a + b)[i]) || (a + b)[i] == '=' {
      if i >= |a| { assert (a + b)[i] == b[i - |a|]; }
    }
  }

  /** A letter joins the pending group while it has fewer than three. */
  lemma A2bLetter(t: string, pending: string)
    requires AllSignificant(t) && t != [] && IsLetter(t[0])
    requires |pending| < 3 && AllLetters(pending)
    ensures A2b(t, pending) == A2b(t[1..], pending + [t[0]])
  {
  }

  /** The first three letters of a text start a group. */
  lemma A2bSteps(t: string)
    requires AllSignificant(t) && |t| >= 3 && IsLetter(t[0]) && IsLetter(t[1]) && IsLetter(t[2])
    ensures A2b(t, "") == A2b(t[1..][1..][1..], [t[0], t[1], t[2]])
  {
    A2bLetter(t, "");
    assert "" + [t[0]] == [t[0]];
    A2bLetter(t[1..], [t[0]]);
    assert [t[0]] + [t[1..][0]] == [t[0], t[1]];
    A2bLetter(t[1..][1..], [t[0], t[1]]);
    assert [t[0], t[1]] + [t[1..][1..][0]] == [t[0], t[1], t[2]];
  }

  /** A full group in front of more groups decodes to its three bytes in front. */
  lemma DecodeTriple(b0: byte, b1: byte, b2: byte, rest: string)
    requires AllSignificant(rest)
    ensures var t := EncodeTriple(b0, b1, b2) + rest;
      AllSignificant(t) &&
      A2b(t, "") == (var r := A2b(rest, ""); if r.Raised? then Raised else Returned([b0, b1, b2] + r.value))
  {
    var e := EncodeTriple(b0, b1, b2);
    var t := e + rest;
    GroupOfTriple(b0, b1, b2);
    AllSignificantAppend(e, rest);
    assert t[1..][1..][1..][1..] == rest;
    A2bSteps(t);
  }

  /** A final group holding two bytes decodes to them, whatever follows it. */
  lemma DecodePair(b0: byte, b1: byte, rest: string)
    requires AllSignificant(rest)
    ensures var t := EncodeBlocks([b0, b1]) + rest; AllSignificant(t) && A2b(t, "") == Returned([b0, b1])
  {
    var v0, v1, v2 := b0 / 4, (b0 % 4) * 16 + b1 / 16, (b1 % 16) * 4;
    var e := EncodeBlocks([b0, b1]);
    var t := e + rest;
    assert e == EncodePair(b0, b1) == [Letter(v0), Letter(v1), Letter(v2), '='];
    SextetOfLetter(v0);
    SextetOfLetter(v1);
    SextetOfLetter(v2);
    ByteArithmetic(b0, b1, 0);
    AllSignificantAppend(e, rest);
    assert t[1..][1..][1..][0] == '=';
    A2bSteps(t);
    assert DecodePairGroup(e[0], e[1], e[2]) == [b0, b1];
  }

  /** A final group holding one byte decodes to it, whatever follows it. */
  lemma DecodeSingle(b0: byte, rest: string)
    requires AllSignificant(rest)
    ensures var t := EncodeBlocks([b0]) + rest; AllSignificant(t) && A2b(t, "") == Returned([b0])
  {
    var v0, v1 := b0 / 4, (b0 % 4) * 16;
    var e := EncodeBlocks([b0]);
    var t := e + rest;
    assert e == EncodeSingle(b0) == [Letter(v0), Letter(v1), '=', '='];
    SextetOfLetter(v0);
    SextetOfLetter(v1);
    ByteArithmetic(b0, 0, 0);
    AllSignificantAppend(e, rest);
    assert t[1..][1..][0] == '=' && t[1..][1..][1] == '=';
    A2bLetter(t, "");
    assert "" + [t[0]] == [e[0]];
    A2bLetter(t[1..], [e[0]]);
    assert [e[0]] + [t[1..][0]] == [e[0], e[1]];
    assert DecodeSingleGroup(e[0], e[1]) == [b0];
  }

  /** The encoding of three or more bytes is the first group's, then the rest's. */
  lemma EncodeBlocksUnfold(b: Bytes)
    requires |b| >= 3
    ensures EncodeBlocks(b) == EncodeTriple(b[0], b[1], b[2]) + EncodeBlocks(b[3..])
  {
  }

  lemma ModThree(n: nat)
    ensures (n + 3) % 3 == n % 3
  {
  }

  /**
   * Decoding the unbroken encoding gives the bytes back; when the encoding
   * ends in padding, whatever significant text follows it is ignored.
   */
  lemma {:induction false} DecodeEncodeBlocks(b: Bytes, rest: string)
    requires AllSignificant(rest)
    requires |b| % 3 == 0 ==> rest == ""
    ensures var t := EncodeBlocks(b) + rest; AllSignificant(t) && A2b(t, "") == Returned(b)
    decreases |b|
  {
    if |b| >= 3 {
      var tail := b[3..];
      assert |tail| % 3 == |b| % 3 by {
        ModThree(|tail|);
      }
      EncodeBlocksUnfold(b);
      DecodeEncodeBlocks(tail, rest);
      var et := EncodeBlocks(tail) + rest;
      assert EncodeBlocks(b) + rest == EncodeTriple(b[0], b[1], b[2]) + et;
      DecodeTriple(b[0], b[1], b[2], et);
      assert b == [b[0], b[1], b[2]] + tail;
    } else if |b| == 2 {
      assert b == [b[0], b[1]];
      DecodePair(b[0], b[1], rest);
    } else if |b| == 1 {
      assert b == [b[0]];
      DecodeSingle(b[0], rest);
    } else {
      assert EncodeBlocks(b) + rest == "";
    }
  }

  /** `data.encode("base64").decode("base64") == data`. */
  lemma RoundTrip(b: Bytes)
    ensures DecodeString(EncodeString(b)) == Returned(b)
  {
    var s := EncodeString(b);
    assert !NonAscii(s) by {
      forall i | 0 <= i < |s| ensures s[i] as int <= 0x7f {
      }
    }
    SignificantOfEncodeString(b);
    DecodeEncodeBlocks(b, "");
    assert EncodeBlocks(b) + "" == EncodeBlocks(b);
  }

  /**
   * `binascii` skips a `=` at the start of a group, so a stray pad
   * character in front of an encoding does not change what it decodes to.
   */
  lemma LeadingPadSkipped(b: Bytes)
    ensures DecodeString("=" + EncodeBlocks(b)) == Returned(b)
  {
    var e := EncodeBlocks(b);
    var s := "=" + e;
    assert !NonAscii(s) by {
      forall i | 0 <= i < |s| ensures s[i] as int <= 0x7f {
        if i > 0 { assert s[i] == e[i - 1]; }
      }
    }
    SignificantOfClean(s);
    DecodeEncodeBlocks(b, "");
    assert e + "" == e;
    assert s[1..] == e;
  }

  /**
   * The pad sequence of a final group ends the input: base64 text after it
   * is ignored instead of being decoded or refused.
   */
  lemma TextAfterPaddingIgnored(b: Bytes, more: Bytes)
    requires |b| % 3 != 0
    ensures DecodeString(EncodeBlocks(b) + EncodeBlocks(more)) == Returned(b)
  {
    var e, f := EncodeBlocks(b), EncodeBlocks(more);
    var s := e + f;
    assert !NonAscii(s) by {
      forall i | 0 <= i < |s| ensures s[i] as int <= 0x7f {
        if i >= |e| { assert s[i] == f[i - |e|]; }
      }
    }
    SignificantOfClean(s);
    DecodeEncodeBlocks(b, f);
  }

  /** Text that stops inside a group, with no padding, is refused. */
  lemma {:induction false} TruncatedGroupRaises(t: string, pending: string)
    requires AllLetters(t)
    requires |pending| < 4 && AllLetters(pending)
    requires (|pending| + |t|) % 4 != 0
    ensures A2b(t, pending).Raised?
    decreases |t|
  {
    if t != [] {
      if |pending| == 3 {
        TruncatedGroupRaises(t[1..], "");
      } else {
        TruncatedGroupRaises(t[1..], pending + [t[0]]);
      }
    }
  }
}
