/**
 * `bytes.fromhex`, the first step of `decode_uri` (main.py:116): the on-chain URI
 * arrives as a string of hexadecimal digit pairs. `ToHex` (Python's `bytes.hex`)
 * is its inverse on well-formed input.
 */
module Hex {
  import opened Base

  /** The ASCII whitespace that `bytes.fromhex` skips in front of a digit pair. */
  predicate IsAsciiSpace(c: char) {
    c == ' ' || c == '\t' || c == '\n' || c == '\r' || c == '\U{000B}' || c == '\U{000C}'
  }

  /** The value of a hexadecimal digit, in either case. */
  function DigitValue(c: char): (r: Option<nat>)
    ensures r.Some? ==> r.value < 16
  {
    if '0' <= c <= '9' then Some(c as int - '0' as int)
    else if 'a' <= c <= 'f' then Some(c as int - 'a' as int + 10)
    else if 'A' <= c <= 'F' then Some(c as int - 'A' as int + 10)
    else None
  }

  predicate IsHexDigit(c: char) {
    DigitValue(c).Some?
  }

  /** The number of hexadecimal digits in `s`. */
  function DigitCount(s: string): nat {
    if s == [] then 0 else (if IsHexDigit(s[0]) then 1 else 0) + DigitCount(s[1..])
  }

  /**
   * `bytes.fromhex(s)`: digit pairs become bytes, whitespace may precede any pair
   * (never split one), and anything else raises ValueError, modelled as None.
   * The result is only ever produced from hex digits and whitespace, two digits per byte,
   * so a stray character or an odd number of digits gives None.
   */
  function FromHex(s: string): (r: Option<seq<Byte>>)
    ensures r.Some? ==> forall i :: 0 <= i < |s| ==> IsHexDigit(s[i]) || IsAsciiSpace(s[i])
    ensures r.Some? ==> 2 * |r.value| == DigitCount(s)
    decreases |s|
  {
    if s == [] then Some([])
    else if IsAsciiSpace(s[0]) then FromHex(s[1..])
    else if |s| < 2 then None
    else
      match (DigitValue(s[0]), DigitValue(s[1]), FromHex(s[2..]))
      case (Some(hi), Some(lo), Some(rest)) => Some([hi * 16 + lo] + rest)
      case _ => None
  }

  /** The lower-case digit for a value below 16. */
  function Digit(v: nat): (c: char)
    requires v < 16
    ensures DigitValue(c) == Some(v)
  {
    "0123456789abcdef"[v]
  }

  /** `bytes.hex()`: two lower-case digits per byte. */
  function ToHex(bs: seq<Byte>): (s: string)
    ensures |s| == 2 * |bs|
  {
    if bs == [] then "" else [Digit(bs[0] / 16), Digit(bs[0] % 16)] + ToHex(bs[1..])
  }

  /** Two digits in front of a well-formed rest decode to one more byte. */
  lemma FromHexPair(c0: char, c1: char, rest: string)
    requires IsHexDigit(c0) && IsHexDigit(c1) && FromHex(rest).Some?
    ensures FromHex([c0, c1] + rest) == Some([DigitValue(c0).value * 16 + DigitValue(c1).value] + FromHex(rest).value)
  {
    var s := [c0, c1] + rest;
    assert s[0] == c0 && s[1] == c1 && s[2..] == rest;
  }

  /** Whitespace in front of a digit pair is skipped. */
  lemma FromHexSkipsSpace(c: char, s: string)
    requires IsAsciiSpace(c)
    ensures FromHex([c] + s) == FromHex(s)
  {
    assert ([c] + s)[1..] == s;
  }

  /**
   * Any even-length run of hexadecimal digits, in upper or lower case, decodes: byte `k`
   * is the value of the digit pair at `2k`, high digit first.
   */
  lemma {:induction false} FromHexDigits(s: string)
    requires |s| % 2 == 0 && forall i :: 0 <= i < |s| ==> IsHexDigit(s[i])
    ensures FromHex(s).Some? && 2 * |FromHex(s).value| == |s|
    ensures forall k :: 0 <= k < |s| / 2 ==>
      FromHex(s).value[k] == DigitValue(s[2 * k]).value * 16 + DigitValue(s[2 * k + 1]).value
    decreases |s|
  {
    if s != [] {
      var rest := s[2..];
      FromHexDigits(rest);
      assert s == [s[0], s[1]] + rest;
      FromHexPair(s[0], s[1], rest);
      forall k | 1 <= k < |s| / 2
        ensures FromHex(s).value[k] == DigitValue(s[2 * k]).value * 16 + DigitValue(s[2 * k + 1]).value
      {
        assert s[2 * k] == rest[2 * (k - 1)] && s[2 * k + 1] == rest[2 * (k - 1) + 1];
        assert FromHex(s).value[k] == FromHex(rest).value[k - 1];
      }
    }
  }

  /** Hex-encoding then decoding gives the bytes back. */
  lemma {:induction false} FromHexToHex(bs: seq<Byte>)
    ensures FromHex(ToHex(bs)) == Some(bs)
  {
    if bs != [] {
      var b := bs[0];
      FromHexToHex(bs[1..]);
      FromHexPair(Digit(b / 16), Digit(b % 16), ToHex(bs[1..]));
      assert (b / 16) * 16 + b % 16 == b;
      assert [b] + bs[1..] == bs;
    }
  }
}
