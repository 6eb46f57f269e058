/**
 * The escape applied to an image link before it is sent: every "#" becomes "%23"
 * (main.py:267-268 for sales, 341-342 for mints, and once more inside `send_telegram`
 * at main.py:171).
 */
module Escape {
  import opened Base

  /** Regrouping a concatenation, as a named step for the proofs below. */
  lemma ConcatAssociates<T>(x: seq<T>, y: seq<T>, z: seq<T>)
    ensures x + (y + z) == (x + y) + z
  {
  }

  /** What `replace("#", "%23")` makes of one character. */
  function EscapeChar(c: char): (r: string)
    ensures '#' !in r && |r| == if c == '#' then 3 else 1
  {
    if c == '#' then "%23" else [c]
  }

  /** `s.replace("#", "%23")` */
  function EscapeHash(s: string): (r: string)
    ensures '#' !in r
    ensures '#' !in s ==> r == s
    ensures |r| == |s| + 2 * multiset(s)['#']
  {
    if s == "" then ""
    else
      assert s == [s[0]] + s[1..];
      EscapeChar(s[0]) + EscapeHash(s[1..])
  }

  /** The replacement works character by character: it distributes over concatenation. */
  lemma {:induction false} EscapeHashAppend(a: string, b: string)
    ensures EscapeHash(a + b) == EscapeHash(a) + EscapeHash(b)
    decreases |a|
  {
    if a == "" {
      assert a + b == b;
    } else {
      var c, t := a[0], a[1..];
      assert a == [c] + t;
      ConcatAssociates([c], t, b);
      EscapeHashAppend(t, b);
      EscapeHashCons(c, t + b);
      EscapeHashCons(c, t);
      ConcatAssociates(EscapeChar(c), EscapeHash(t), EscapeHash(b));
    }
  }

  /** Escaping a string is escaping its first character, then the rest. */
  lemma EscapeHashCons(c: char, t: string)
    ensures EscapeHash([c] + t) == EscapeChar(c) + EscapeHash(t)
  {
    assert ([c] + t)[0] == c && ([c] + t)[1..] == t;
  }

  /** A "#" becomes "%23"; any other character is kept. */
  lemma EscapeHashChar(c: char)
    ensures EscapeHash([c]) == if c == '#' then "%23" else [c]
  {
    assert [c][1..] == "";
  }

  /**
   * An escaped link starts with a prefix free of "#" and "%" exactly when the link did:
   * such characters can only come from themselves.
   */
  lemma {:induction false} EscapeHashPrefix(s: string, p: string)
    requires '#' !in p && '%' !in p
    ensures StartsWith(EscapeHash(s), p) <==> StartsWith(s, p)
  {
    if p != "" && s != "" {
      var q := EscapeHash(s);
      assert p[0] in p;
      assert '#' !in p[1..] && '%' !in p[1..] by {
        forall i | 0 <= i < |p| - 1 ensures p[1..][i] == p[i + 1] { }
      }
      EscapeHashPrefix(s[1..], p[1..]);
      StartsWithCons(s, p);
      StartsWithCons(q, p);
      if s[0] == '#' {
        assert q[0] == '%';
      } else {
        assert q == [s[0]] + EscapeHash(s[1..]);
        assert q[1..] == EscapeHash(s[1..]);
      }
    }
  }

  /**
   * The image link is escaped twice on its way out (main.py:267-268, then again
   * main.py:171); the second pass finds no "#" left and changes nothing.
   */
  lemma EscapeHashIdempotent(s: string)
    ensures EscapeHash(EscapeHash(s)) == EscapeHash(s)
  {
  }
}
