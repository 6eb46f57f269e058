/**
 * UTF-8 as used by `decode_uri`: `bytes.decode("utf-8", errors="ignore")` (main.py:117)
 * and the encoding step inside `urllib.parse.quote` (main.py:120).
 *
 * Decoding follows CPython's decoder: an ill-formed stretch is the maximal prefix of a
 * well-formed sequence (at least one byte), and with errors="ignore" that stretch is
 * dropped and decoding resumes after it.
 */
module Utf8 {
  import opened Base

  /** The length of the sequence a lead byte starts; 0 when it cannot start one. */
  function SequenceLength(b: Byte): (n: nat)
    ensures n <= 4
  {
    if b < 0x80 then 1
    else if b < 0xC2 then 0
    else if b < 0xE0 then 2
    else if b < 0xF0 then 3
    else if b < 0xF5 then 4
    else 0
  }

  predicate IsContinuation(b: Byte) {
    0x80 <= b <= 0xBF
  }

  /** The range allowed for the byte after a lead byte (it excludes overlong forms, surrogates and values above U+10FFFF). */
  function SecondLow(lead: Byte): Byte {
    if lead == 0xE0 then 0xA0 else if lead == 0xF0 then 0x90 else 0x80
  }

  function SecondHigh(lead: Byte): Byte {
    if lead == 0xED then 0x9F else if lead == 0xF4 then 0x8F else 0xBF
  }

  /** How many bytes from the start of `bs` belong to a well-formed multi-byte sequence, counting the lead byte. */
  function ValidRun(bs: seq<Byte>): (k: nat)
    requires |bs| > 0 && SequenceLength(bs[0]) >= 2
    ensures 1 <= k <= SequenceLength(bs[0]) && k <= |bs|
  {
    var n := SequenceLength(bs[0]);
    if |bs| < 2 || !(SecondLow(bs[0]) <= bs[1] <= SecondHigh(bs[0])) then 1
    else if n == 2 then 2
    else if |bs| < 3 || !IsContinuation(bs[2]) then 2
    else if n == 3 then 3
    else if |bs| < 4 || !IsContinuation(bs[3]) then 3
    else 4
  }

  predicate IsScalar(n: int) {
    0 <= n < 0xD800 || 0xE000 <= n < 0x11_0000
  }

  /** The code point of a complete well-formed multi-byte sequence. */
  function CodePoint(bs: seq<Byte>): (n: int)
    requires |bs| > 0 && SequenceLength(bs[0]) >= 2 && ValidRun(bs) == SequenceLength(bs[0])
    ensures IsScalar(n) && n >= 0x80
  {
    var n, b0, b1 := SequenceLength(bs[0]), bs[0] as int, bs[1] as int;
    if n == 2 then (b0 - 0xC0) * 64 + (b1 - 0x80)
    else if n == 3 then (b0 - 0xE0) * 4096 + (b1 - 0x80) * 64 + (bs[2] as int - 0x80)
    else (b0 - 0xF0) * 262144 + (b1 - 0x80) * 4096 + (bs[2] as int - 0x80) * 64 + (bs[3] as int - 0x80)
  }

  /** `bs.decode("utf-8", errors="ignore")` */
  function Decode(bs: seq<Byte>): (s: string)
    ensures |s| <= |bs|
    decreases |bs|
  {
    if bs == [] then ""
    else if bs[0] < 0x80 then [bs[0] as char] + Decode(bs[1..])
    else if SequenceLength(bs[0]) == 0 then Decode(bs[1..])
    else
      var k := ValidRun(bs);
      if k == SequenceLength(bs[0]) then [CodePoint(bs) as char] + Decode(bs[k..])
      else Decode(bs[k..])
  }

  /** The UTF-8 encoding of one character. */
  function EncodeChar(c: char): (bs: seq<Byte>)
    ensures 1 <= |bs| <= 4
    ensures (|bs| == 1) == (c as int < 0x80)
  {
    var n := c as int;
    if n < 0x80 then [n]
    else if n < 0x800 then [0xC0 + n / 64, 0x80 + n % 64]
    else if n < 0x1_0000 then [0xE0 + n / 4096, 0x80 + (n / 64) % 64, 0x80 + n % 64]
    else [0xF0 + n / 262144, 0x80 + (n / 4096) % 64, 0x80 + (n / 64) % 64, 0x80 + n % 64]
  }

  /** `s.encode("utf-8")` */
  function Encode(s: string): (bs: seq<Byte>)
    ensures |s| <= |bs| <= 4 * |s|
  {
    if s == "" then [] else EncodeChar(s[0]) + Encode(s[1..])
  }

  /** The encoding of a non-ASCII character is one complete well-formed sequence whose code point is the character. */
  lemma EncodeCharWellFormed(c: char)
    requires c as int >= 0x80
    ensures var e := EncodeChar(c);
      SequenceLength(e[0]) == |e| && ValidRun(e) == |e| && CodePoint(e) == c as int
  {
    var n := c as int;
    if n < 0x800 {
      EncodeTwo(n);
    } else if n < 0x1_0000 {
      EncodeThree(n);
    } else {
      EncodeFour(n);
    }
  }

  lemma EncodeTwo(n: int)
    requires 0x80 <= n < 0x800
    ensures 0xC2 <= 0xC0 + n / 64 < 0xE0 && (0xC0 + n / 64 - 0xC0) * 64 + (n % 64) == n
  {
  }

  lemma EncodeThree(n: int)
    requires 0x800 <= n < 0x1_0000 && IsScalar(n)
    ensures var b0, b1 := 0xE0 + n / 4096, 0x80 + (n / 64) % 64;
      0xE0 <= b0 < 0xF0 && SecondLow(b0) <= b1 <= SecondHigh(b0)
      && (b0 - 0xE0) * 4096 + (b1 - 0x80) * 64 + n % 64 == n
  {
    var q, r := n / 64, n % 64;
    assert n == q * 64 + r;
    assert q / 64 == n / 4096;
    assert q == (q / 64) * 64 + q % 64;
  }

  lemma EncodeFour(n: int)
    requires 0x1_0000 <= n < 0x11_0000
    ensures var b0, b1, b2 := 0xF0 + n / 262144, 0x80 + (n / 4096) % 64, 0x80 + (n / 64) % 64;
      0xF0 <= b0 < 0xF5 && SecondLow(b0) <= b1 <= SecondHigh(b0)
      && (b0 - 0xF0) * 262144 + (b1 - 0x80) * 4096 + (b2 - 0x80) * 64 + n % 64 == n
  {
    var q, r := n / 64, n % 64;
    assert n == q * 64 + r;
    var q2, r2 := q / 64, q % 64;
    assert q == q2 * 64 + r2;
    assert q2 == n / 4096;
    assert q2 / 64 == n / 262144;
    assert q2 == (q2 / 64) * 64 + q2 % 64;
  }

  /** Decoding the encoding of one character gives that character and goes on with the rest. */
  lemma DecodeEncodeChar(c: char, rest: seq<Byte>)
    ensures Decode(EncodeChar(c) + rest) == [c] + Decode(rest)
  {
    var e := EncodeChar(c);
    var bs := e + rest;
    if c as int < 0x80 {
      assert bs[1..] == rest;
    } else {
      EncodeCharWellFormed(c);
      assert bs[|e|..] == rest;
      assert ValidRun(bs) == |e|;
      assert CodePoint(bs) == CodePoint(e);
    }
  }

  /** Decoding undoes encoding: text that went through UTF-8 comes back unchanged. */
  lemma {:induction false} DecodeEncode(s: string)
    ensures Decode(Encode(s)) == s
  {
    if s != "" {
      DecodeEncodeChar(s[0], Encode(s[1..]));
      DecodeEncode(s[1..]);
    }
  }

  /** An ASCII byte string decodes character for character. */
  lemma {:induction false} DecodeAscii(bs: seq<Byte>)
    requires forall i :: 0 <= i < |bs| ==> bs[i] < 0x80
    ensures |Decode(bs)| == |bs|
    ensures forall i :: 0 <= i < |bs| ==> Decode(bs)[i] as int == bs[i]
  {
    if bs != [] {
      DecodeAscii(bs[1..]);
    }
  }
}
