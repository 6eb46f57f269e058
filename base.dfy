/** Small shared vocabulary: optional values (Python's None) and bytes. */
module Base {

  /** A value that may be absent, as a Python attribute or dict lookup that can give None. */
  datatype Option<+T> = None | Some(value: T)

  /** One byte of a Python `bytes` object. */
  type Byte = b: int | 0 <= b < 256

  /** Python truthiness of an optional string: present and non-empty. */
  predicate Truthy(o: Option<string>) {
    o.Some? && o.value != ""
  }

  /** `s.startswith(p)` */
  predicate StartsWith(s: string, p: string) {
    |p| <= |s| && s[..|p|] == p
  }

  /** A prefix matches when its first character does and the rest matches further on. */
  lemma StartsWithCons(x: string, p: string)
    requires x != "" && p != ""
    ensures StartsWith(x, p) <==> x[0] == p[0] && StartsWith(x[1..], p[1..])
  {
    if |p| <= |x| {
      assert x[..|p|] == [x[0]] + x[1..][..|p| - 1];
      assert p == [p[0]] + p[1..];
    }
  }
}
