/**
 * The per-stream deduplication store of main.py:56-99: a `deque(maxlen=MAX_SEEN)` of
 * transaction hashes in the order they were remembered, and a `set` used for the
 * membership test. `seen_sales`/`seen_sales_set` and `seen_mints`/`seen_mints_set` are
 * two instances of it, and `remember_sale`/`remember_mint` are the same operation.
 *
 * The pure part (`Store`, `Loaded`, `Remembered`) is the specification; the class
 * `SeenStore` is the mutable store the polling code updates in place.
 */
module Dedup {

  type Hash = string

  /** MAX_SEEN (main.py:56): the deque's maxlen. */
  const MaxSeen: nat := 2000

  /** The last `cap` elements of `xs`, or all of them when there are fewer. */
  function LastN(xs: seq<Hash>, cap: nat): (r: seq<Hash>)
    ensures |r| == if |xs| <= cap then |xs| else cap
    ensures r == xs[|xs| - |r|..]
  {
    if |xs| <= cap then xs else xs[|xs| - cap..]
  }

  /** `d.append(h)` on a deque with maxlen `cap`: `h` joins at the right and the deque keeps its last `cap` elements. */
  function Append(d: seq<Hash>, h: Hash, cap: nat): (r: seq<Hash>)
    ensures cap > 0 ==> |r| > 0 && r[|r| - 1] == h
  {
    LastN(d + [h], cap)
  }

  /** Appending to a deque with room keeps everything and puts `h` last. */
  lemma AppendWithRoom(d: seq<Hash>, h: Hash, cap: nat)
    requires |d| < cap
    ensures Append(d, h, cap) == d + [h]
  {
  }

  /** Appending to a full deque silently drops its oldest (leftmost) element. */
  lemma AppendWhenFull(d: seq<Hash>, h: Hash, cap: nat)
    requires |d| == cap > 0
    ensures Append(d, h, cap) == d[1..] + [h]
  {
    assert (d + [h])[1..] == d[1..] + [h];
  }

  /** Appending the elements of `hs` one after the other. */
  function AppendAll(d: seq<Hash>, hs: seq<Hash>, cap: nat): seq<Hash>
    decreases |hs|
  {
    if hs == [] then d else AppendAll(Append(d, hs[0], cap), hs[1..], cap)
  }

  /**
   * Appending one by one to a deque that respects its bound keeps the last `cap`
   * elements of the whole history, so `deque(xs, maxlen=cap)`, which appends the items of
   * `xs` in turn to an empty deque, holds the last `cap` items of `xs` (main.py:78-79).
   */
  lemma {:induction false} AppendAllKeepsLast(d: seq<Hash>, hs: seq<Hash>, cap: nat)
    requires |d| <= cap
    ensures AppendAll(d, hs, cap) == LastN(d + hs, cap)
    decreases |hs|
  {
    if hs == [] {
      assert d + hs == d;
    } else {
      var e := d + [hs[0]];
      var d' := LastN(e, cap);
      var k := |e| - |d'|;
      assert d' + hs[1..] == (d + hs)[k..] by {
        assert e + hs[1..] == d + hs;
        SuffixConcat(e, hs[1..], k);
      }
      assert LastN((d + hs)[k..], cap) == LastN(d + hs, cap) by {
        LastNOfSuffix(d + hs, k, cap);
      }
      AppendAllKeepsLast(d', hs[1..], cap);
    }
  }

  /** Dropping a prefix of `a` commutes with appending `b`. */
  lemma SuffixConcat(a: seq<Hash>, b: seq<Hash>, k: nat)
    requires k <= |a|
    ensures a[k..] + b == (a + b)[k..]
  {
  }

  /** Dropping from the front of a sequence that keeps at least `cap` elements does not change its last `cap`. */
  lemma LastNOfSuffix(xs: seq<Hash>, k: nat, cap: nat)
    requires k <= |xs| && (k == 0 || |xs| - k >= cap)
    ensures LastN(xs[k..], cap) == LastN(xs, cap)
  {
    if k > 0 && |xs| - k > cap {
      assert xs[k..][|xs| - k - cap..] == xs[|xs| - cap..];
    } else if k > 0 {
      assert xs[k..] == xs[|xs| - cap..];
    } else {
      assert xs[0..] == xs;
    }
  }

  /** The elements of a sequence, as `set(deque)` makes them. */
  function Elements(xs: seq<Hash>): (s: set<Hash>)
    ensures forall h :: h in s <==> h in xs
  {
    set h | h in xs
  }

  predicate NoDuplicates(xs: seq<Hash>) {
    forall i, j :: 0 <= i < j < |xs| ==> xs[i] != xs[j]
  }

  /** One stream's store: the bounded deque and the membership set. */
  datatype Store = Store(deque: seq<Hash>, members: set<Hash>)

  /** The invariant the store keeps: the deque is within its bound and every hash in it is in the set. */
  predicate Consistent(s: Store) {
    |s.deque| <= MaxSeen && forall i :: 0 <= i < |s.deque| ==> s.deque[i] in s.members
  }

  /**
   * The store built from a persisted hash list (main.py:78-81): the deque keeps its last
   * MaxSeen hashes, and the set holds exactly the deque's hashes.
   */
  function Loaded(persisted: seq<Hash>): (s: Store)
    ensures Consistent(s)
    ensures s.deque == AppendAll([], persisted, MaxSeen)
    ensures s.members == Elements(s.deque)
  {
    AppendAllKeepsLast([], persisted, MaxSeen);
    assert [] + persisted == persisted;
    var d := LastN(persisted, MaxSeen);
    Store(d, Elements(d))
  }

  /**
   * `remember_sale(h)` / `remember_mint(h)` (main.py:83-99). A hash already in the set
   * changes nothing. A new hash is appended to the deque, which drops its oldest hash
   * when full, and added to the set. The set never loses a hash: the eviction loop at
   * main.py:87-90 cannot run, so a hash the deque drops stays in the set.
   */
  function Remembered(s: Store, h: Hash): (t: Store)
    ensures h in t.members && t.members == s.members + {h}
    ensures h in s.members ==> t == s
    ensures h !in s.members ==> t.deque == Append(s.deque, h, MaxSeen)
    ensures Consistent(s) ==> Consistent(t)
  {
    if h in s.members then s
    else
      var t := Store(Append(s.deque, h, MaxSeen), s.members + {h});
      assert forall i :: 0 <= i < |t.deque| ==> t.deque[i] in s.deque + [h];
      t
  }

  /** Remembering keeps the deque free of duplicates. */
  lemma RememberedKeepsDistinct(s: Store, h: Hash)
    requires Consistent(s) && NoDuplicates(s.deque)
    ensures NoDuplicates(Remembered(s, h).deque)
  {
    if h !in s.members {
      var e := s.deque + [h];
      assert NoDuplicates(e);
      var t := Remembered(s, h);
      assert forall i :: 0 <= i < |t.deque| ==> t.deque[i] == e[|e| - |t.deque| + i];
    }
  }

  /**
   * Remembering a new hash when a duplicate-free deque is full evicts the oldest hash from the deque
   * but not from the set, so the set ends up larger than MaxSeen.
   */
  lemma SetOutgrowsDeque(s: Store, h: Hash)
    requires Consistent(s) && NoDuplicates(s.deque) && |s.deque| == MaxSeen && h !in s.members
    ensures var t := Remembered(s, h);
      |t.deque| == MaxSeen && s.deque[0] !in t.deque && s.deque[0] in t.members
      && |t.members| > MaxSeen
  {
    var t := Remembered(s, h);
    AppendWhenFull(s.deque, h, MaxSeen);
    assert t.deque == s.deque[1..] + [h];
    DistinctCardinality(s.deque);
    var e := Elements(s.deque);
    assert s.members == e + (s.members - e);
    assert e * (s.members - e) == {};
    assert |s.members| >= |e|;
  }

  /** A sequence without duplicates has as many elements as its length. */
  lemma {:induction false} DistinctCardinality(xs: seq<Hash>)
    requires NoDuplicates(xs)
    ensures |Elements(xs)| == |xs|
  {
    if xs != [] {
      DistinctCardinality(xs[1..]);
      assert Elements(xs) == Elements(xs[1..]) + {xs[0]};
      assert xs[0] !in Elements(xs[1..]);
    }
  }

  /** `persist_now` writes the deque as a list (main.py:101-104). */
  function Snapshot(s: Store): (r: seq<Hash>)
    ensures Consistent(s) ==> |r| <= MaxSeen && Elements(r) <= s.members
  {
    s.deque
  }

  /**
   * Restarting from a snapshot restores the deque exactly, but rebuilds the set from the
   * deque alone: hashes the deque had dropped are forgotten by the restarted process.
   */
  lemma ReloadSnapshot(s: Store)
    requires Consistent(s)
    ensures Loaded(Snapshot(s)).deque == s.deque
    ensures Loaded(Snapshot(s)).members == Elements(s.deque) <= s.members
  {
    AppendAllKeepsLast([], s.deque, MaxSeen);
    assert [] + s.deque == s.deque;
  }

  /** One stream's store, updated in place by the polling code. */
  class SeenStore {
    /** `seen_sales` / `seen_mints`: the hashes in the order they were remembered. */
    var deque: seq<Hash>
    /** `seen_sales_set` / `seen_mints_set` */
    var members: set<Hash>

    function State(): Store
      reads this
    {
      Store(deque, members)
    }

    ghost predicate Valid()
      reads this
    {
      Consistent(State())
    }

    /** main.py:78-81 */
    constructor Load(persisted: seq<Hash>)
      ensures Valid() && State() == Loaded(persisted)
    {
      var d := LastN(persisted, MaxSeen);
      deque := d;
      members := Elements(d);
      AppendAllKeepsLast([], persisted, MaxSeen);
      assert [] + persisted == persisted;
    }

    /** `tx_hash in seen_sales_set` */
    predicate Contains(h: Hash)
      reads this
    {
      h in members
    }

    /** main.py:83-99 */
    method Remember(h: Hash)
      requires Valid()
      modifies this
      ensures Valid() && State() == Remembered(old(State()), h)
    {
      if h !in members {
        deque := Append(deque, h, MaxSeen);
        members := members + {h};
        if |deque| > MaxSeen {
          // The eviction loop of main.py:87-90 would run here; the deque's maxlen has
          // already dropped the oldest hash, so this branch is dead.
          assert false;
        }
      }
    }
  }
}
