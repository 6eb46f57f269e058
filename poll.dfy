/**
 * The selection logic of `seed_seen_sales`, `poll_sales` and `poll_mints`
 * (main.py:187-359) and the boot sequence (main.py:366-370).
 *
 * A fetch is I/O: its outcome (failure, or the parsed list) is a parameter. Building and
 * sending a notification is the opaque "emit" step: a poll returns the hashes it emitted,
 * in emission order. Each emitted hash is remembered before the next record is looked at.
 */
module Polling {
  import opened Base
  import opened Dedup

  /** A record of the sales list; only `acceptedTxHash` decides whether it is announced. */
  datatype SaleRecord = SaleRecord(acceptedTxHash: Option<Hash>)

  /** A transaction of `account_tx`; only its type and hash decide whether it is announced. */
  datatype MintEntry = MintEntry(transactionType: Option<string>, hash: Option<Hash>)

  /** What a fetch gives: an exception (HTTP or JSON error), or the parsed list. */
  datatype Reply<T> = Failed | Fetched(items: seq<T>)

  const MintType: string := "NFTokenMint"

  /** The hash field of every sale, in list order. */
  function SaleHashes(sales: seq<SaleRecord>): (hs: seq<Option<Hash>>)
    ensures |hs| == |sales| && forall i :: 0 <= i < |sales| ==> hs[i] == sales[i].acceptedTxHash
  {
    seq(|sales|, i requires 0 <= i < |sales| => sales[i].acceptedTxHash)
  }

  /** A transaction's hash if it is a mint; other transaction types count as having none. */
  function MintCandidate(e: MintEntry): (r: Option<Hash>)
    ensures r.Some? ==> e.transactionType == Some(MintType)
    ensures e.transactionType == Some(MintType) ==> r == e.hash
  {
    if e.transactionType == Some(MintType) then e.hash else None
  }

  function MintHashes(entries: seq<MintEntry>): (hs: seq<Option<Hash>>)
    ensures |hs| == |entries| && forall i :: 0 <= i < |entries| ==> hs[i] == MintCandidate(entries[i])
  {
    seq(|entries|, i requires 0 <= i < |entries| => MintCandidate(entries[i]))
  }

  /** `reversed(xs)` */
  function Reversed<T>(xs: seq<T>): (r: seq<T>)
    ensures |r| == |xs| && forall i :: 0 <= i < |xs| ==> r[i] == xs[|xs| - 1 - i]
  {
    if xs == [] then [] else [xs[|xs| - 1]] + Reversed(xs[..|xs| - 1])
  }

  /** The non-empty hashes among the candidates. */
  function Candidates(cands: seq<Option<Hash>>): (r: set<Hash>)
    ensures forall h :: h in r <==> h != "" && Some(h) in cands
  {
    if cands == [] then {}
    else (if Truthy(cands[0]) then {cands[0].value} else {}) + Candidates(cands[1..])
  }

  /**
   * Handling candidates in order: a missing or empty hash is skipped, a hash already in
   * the store is skipped, any other is emitted and remembered at once. Gives the emitted
   * hashes and the final store. The lemmas that follow state what a walk guarantees.
   */
  function Walk(s: Store, cands: seq<Option<Hash>>): (seq<Hash>, Store)
    decreases |cands|
  {
    if cands == [] then ([], s)
    else if Truthy(cands[0]) && cands[0].value !in s.members then
      var w := Walk(Remembered(s, cands[0].value), cands[1..]);
      ([cands[0].value] + w.0, w.1)
    else Walk(s, cands[1..])
  }

  /** A walk adds to the set exactly the hashes it emits. */
  lemma {:induction false} WalkGrowsSet(s: Store, cands: seq<Option<Hash>>)
    ensures Walk(s, cands).1.members == s.members + Elements(Walk(s, cands).0)
    decreases |cands|
  {
    if cands != [] {
      if Truthy(cands[0]) && cands[0].value !in s.members {
        var h := cands[0].value;
        WalkGrowsSet(Remembered(s, h), cands[1..]);
        var w := Walk(Remembered(s, h), cands[1..]);
        assert Elements([h] + w.0) == {h} + Elements(w.0);
      } else {
        WalkGrowsSet(s, cands[1..]);
      }
    }
  }

  /** A walk emits no hash twice and none the store already held. */
  lemma {:induction false} WalkEmitsOnlyNew(s: Store, cands: seq<Option<Hash>>)
    ensures NoDuplicates(Walk(s, cands).0)
    ensures forall i :: 0 <= i < |Walk(s, cands).0| ==> Walk(s, cands).0[i] !in s.members
    decreases |cands|
  {
    if cands != [] {
      if Truthy(cands[0]) && cands[0].value !in s.members {
        var h := cands[0].value;
        var s' := Remembered(s, h);
        WalkEmitsOnlyNew(s', cands[1..]);
        var w := Walk(s', cands[1..]);
        var e := [h] + w.0;
        assert e == Walk(s, cands).0;
        forall i, j | 0 <= i < j < |e| ensures e[i] != e[j] {
          assert e[j] == w.0[j - 1];
        }
        forall i | 0 <= i < |e| ensures e[i] !in s.members {
          if i > 0 {
            assert e[i] == w.0[i - 1];
          }
        }
      } else {
        WalkEmitsOnlyNew(s, cands[1..]);
      }
    }
  }

  /** The deque receives the emitted hashes, in order, under its maxlen. */
  lemma {:induction false} WalkFillsDeque(s: Store, cands: seq<Option<Hash>>)
    ensures Walk(s, cands).1.deque == AppendAll(s.deque, Walk(s, cands).0, MaxSeen)
    decreases |cands|
  {
    if cands != [] {
      if Truthy(cands[0]) && cands[0].value !in s.members {
        var h := cands[0].value;
        WalkFillsDeque(Remembered(s, h), cands[1..]);
        var w := Walk(Remembered(s, h), cands[1..]);
        assert ([h] + w.0)[1..] == w.0;
      } else {
        WalkFillsDeque(s, cands[1..]);
      }
    }
  }

  /** A walk keeps the store consistent. */
  lemma {:induction false} WalkConsistent(s: Store, cands: seq<Option<Hash>>)
    requires Consistent(s)
    ensures Consistent(Walk(s, cands).1)
    decreases |cands|
  {
    if cands != [] {
      if Truthy(cands[0]) && cands[0].value !in s.members {
        WalkConsistent(Remembered(s, cands[0].value), cands[1..]);
      } else {
        WalkConsistent(s, cands[1..]);
      }
    }
  }

  /** A walk keeps a duplicate-free deque duplicate-free. */
  lemma {:induction false} WalkKeepsDistinct(s: Store, cands: seq<Option<Hash>>)
    requires Consistent(s) && NoDuplicates(s.deque)
    ensures NoDuplicates(Walk(s, cands).1.deque)
    decreases |cands|
  {
    if cands != [] {
      if Truthy(cands[0]) && cands[0].value !in s.members {
        RememberedKeepsDistinct(s, cands[0].value);
        WalkKeepsDistinct(Remembered(s, cands[0].value), cands[1..]);
      } else {
        WalkKeepsDistinct(s, cands[1..]);
      }
    }
  }

  /** Every hash a walk meets ends up in the store, and what it emits is exactly the new ones. */
  lemma {:induction false} WalkComplete(s: Store, cands: seq<Option<Hash>>)
    ensures Walk(s, cands).1.members == s.members + Candidates(cands)
    ensures Elements(Walk(s, cands).0) == Candidates(cands) - s.members
    decreases |cands|
  {
    if cands != [] {
      if Truthy(cands[0]) && cands[0].value !in s.members {
        WalkComplete(Remembered(s, cands[0].value), cands[1..]);
      } else {
        WalkComplete(s, cands[1..]);
      }
      assert Candidates(cands) == (if Truthy(cands[0]) then {cands[0].value} else {}) + Candidates(cands[1..]);
    }
  }

  /** A walk over hashes that are all known already emits nothing and changes nothing. */
  lemma {:induction false} WalkAllSeen(s: Store, cands: seq<Option<Hash>>)
    requires Candidates(cands) <= s.members
    ensures Walk(s, cands) == ([], s)
    decreases |cands|
  {
    if cands != [] {
      assert Candidates(cands[1..]) <= Candidates(cands);
      WalkAllSeen(s, cands[1..]);
    }
  }

  /** `xs` appears in `ys` in the same order, possibly with gaps. */
  predicate IsSubsequence(xs: seq<Hash>, ys: seq<Option<Hash>>)
    decreases |ys|
  {
    xs == [] || (ys != [] && ((Some(xs[0]) == ys[0] && IsSubsequence(xs[1..], ys[1..])) || IsSubsequence(xs, ys[1..])))
  }

  /** A walk emits hashes in the order the candidates come. */
  lemma {:induction false} WalkKeepsOrder(s: Store, cands: seq<Option<Hash>>)
    ensures IsSubsequence(Walk(s, cands).0, cands)
    decreases |cands|
  {
    if cands != [] {
      var w := Walk(s, cands);
      if Truthy(cands[0]) && cands[0].value !in s.members {
        WalkKeepsOrder(Remembered(s, cands[0].value), cands[1..]);
        assert w.0[1..] == Walk(Remembered(s, cands[0].value), cands[1..]).0;
      } else {
        WalkKeepsOrder(s, cands[1..]);
      }
    }
  }

  /** `seed_seen_sales` (main.py:187-200): remember every present hash in list order, emit nothing. */
  function SeedSpec(s: Store, reply: Reply<SaleRecord>): Store {
    if reply.Failed? then s else Walk(s, SaleHashes(reply.items)).1
  }

  /** `poll_sales` (main.py:202-287): walk the list from its end. */
  function PollSalesSpec(s: Store, reply: Reply<SaleRecord>): (seq<Hash>, Store) {
    if reply.Failed? then ([], s) else Walk(s, Reversed(SaleHashes(reply.items)))
  }

  /** `poll_mints` (main.py:289-359): walk the transactions from the end, mints only. */
  function PollMintsSpec(s: Store, reply: Reply<MintEntry>): (seq<Hash>, Store) {
    if reply.Failed? then ([], s) else Walk(s, Reversed(MintHashes(reply.items)))
  }

  /** Reversing a list does not change which hashes it holds. */
  lemma ReversedCandidates(cands: seq<Option<Hash>>)
    ensures Candidates(Reversed(cands)) == Candidates(cands)
  {
    var r := Reversed(cands);
    forall h | h in Candidates(cands) ensures h in Candidates(r) {
      var i :| 0 <= i < |cands| && cands[i] == Some(h);
      assert r[|cands| - 1 - i] == Some(h);
    }
    forall h | h in Candidates(r) ensures h in Candidates(cands) {
      var i :| 0 <= i < |r| && r[i] == Some(h);
      assert cands[|cands| - 1 - i] == Some(h);
    }
  }

  /** Seeding remembers every non-empty hash of the list and nothing else. */
  lemma SeedRemembersEveryHash(s: Store, sales: seq<SaleRecord>)
    ensures SeedSpec(s, Fetched(sales)).members == s.members + Candidates(SaleHashes(sales))
    ensures forall i :: 0 <= i < |sales| && Truthy(sales[i].acceptedTxHash) ==>
      sales[i].acceptedTxHash.value in SeedSpec(s, Fetched(sales)).members
  {
    WalkComplete(s, SaleHashes(sales));
    forall i | 0 <= i < |sales| && Truthy(sales[i].acceptedTxHash)
      ensures sales[i].acceptedTxHash.value in Candidates(SaleHashes(sales))
    {
      assert SaleHashes(sales)[i] == sales[i].acceptedTxHash;
    }
  }

  /**
   * The point of seeding: a poll that sees the same list as the seed announces nothing,
   * although it walks the list the other way round.
   */
  lemma SeedThenPollIsQuiet(s: Store, reply: Reply<SaleRecord>)
    ensures PollSalesSpec(SeedSpec(s, reply), reply) == ([], SeedSpec(s, reply))
  {
    if reply.Fetched? {
      var hs := SaleHashes(reply.items);
      WalkComplete(s, hs);
      ReversedCandidates(hs);
      WalkAllSeen(SeedSpec(s, reply), Reversed(hs));
    }
  }

  /**
   * Polling the same list twice: the second poll announces nothing and changes nothing,
   * so each hash of the list is announced at most once.
   */
  lemma PollSalesIdempotent(s: Store, reply: Reply<SaleRecord>)
    ensures var p := PollSalesSpec(s, reply); PollSalesSpec(p.1, reply) == ([], p.1)
  {
    if reply.Fetched? {
      var c := Reversed(SaleHashes(reply.items));
      WalkComplete(s, c);
      WalkAllSeen(Walk(s, c).1, c);
    }
  }

  /**
   * A poll announces exactly the non-empty sale hashes of the list it was not already
   * holding, each once, in reverse list order.
   */
  lemma PollSalesAnnouncesTheNew(s: Store, sales: seq<SaleRecord>)
    ensures var p := PollSalesSpec(s, Fetched(sales));
      NoDuplicates(p.0) && IsSubsequence(p.0, Reversed(SaleHashes(sales)))
      && (forall h :: h in p.0 <==>
            (h != "" && h !in s.members && exists i :: 0 <= i < |sales| && sales[i].acceptedTxHash == Some(h)))
  {
    var c := Reversed(SaleHashes(sales));
    WalkEmitsOnlyNew(s, c);
    WalkComplete(s, c);
    ReversedCandidates(SaleHashes(sales));
    WalkKeepsOrder(s, c);
    forall h ensures Some(h) in SaleHashes(sales) <==> exists i :: 0 <= i < |sales| && sales[i].acceptedTxHash == Some(h) {
      if Some(h) in SaleHashes(sales) {
        var i :| 0 <= i < |sales| && SaleHashes(sales)[i] == Some(h);
      }
    }
  }

  /**
   * A mint poll announces exactly the new, non-empty hashes of transactions of type
   * NFTokenMint, each once, in reverse list order; every other transaction is ignored.
   */
  lemma PollMintsAnnouncesTheNewMints(s: Store, entries: seq<MintEntry>)
    ensures var p := PollMintsSpec(s, Fetched(entries));
      NoDuplicates(p.0) && IsSubsequence(p.0, Reversed(MintHashes(entries)))
      && (forall h :: h in p.0 <==>
            (h != "" && h !in s.members
             && exists i :: 0 <= i < |entries| && entries[i].transactionType == Some(MintType) && entries[i].hash == Some(h)))
  {
    var c := Reversed(MintHashes(entries));
    WalkEmitsOnlyNew(s, c);
    WalkComplete(s, c);
    ReversedCandidates(MintHashes(entries));
    WalkKeepsOrder(s, c);
    forall h ensures h != "" ==> (Some(h) in MintHashes(entries) <==> exists i :: 0 <= i < |entries| && entries[i].transactionType == Some(MintType) && entries[i].hash == Some(h)) {
      if Some(h) in MintHashes(entries) {
        var i :| 0 <= i < |entries| && MintHashes(entries)[i] == Some(h);
      }
      if h != "" && exists i :: 0 <= i < |entries| && entries[i].transactionType == Some(MintType) && entries[i].hash == Some(h) {
        var i :| 0 <= i < |entries| && entries[i].transactionType == Some(MintType) && entries[i].hash == Some(h);
        assert MintHashes(entries)[i] == Some(h);
      }
    }
  }

  /** Successive walks, one per poll; gives everything emitted, in order, and the final store. */
  function Run(s: Store, batches: seq<seq<Option<Hash>>>): (r: (seq<Hash>, Store))
    decreases |batches|
  {
    if batches == [] then ([], s)
    else
      var w := Walk(s, batches[0]);
      var rest := Run(w.1, batches[1..]);
      (w.0 + rest.0, rest.1)
  }

  /** Two duplicate-free lists with nothing in common concatenate to a duplicate-free list. */
  lemma DistinctConcat(a: seq<Hash>, b: seq<Hash>)
    requires NoDuplicates(a) && NoDuplicates(b)
    requires forall j :: 0 <= j < |b| ==> b[j] !in a
    ensures NoDuplicates(a + b)
  {
    forall i, j | 0 <= i < j < |a + b| ensures (a + b)[i] != (a + b)[j] {
      if i < |a| <= j {
        assert (a + b)[j] == b[j - |a|];
      }
    }
  }

  /**
   * Over any number of polls, no hash is ever emitted twice, and none the store held at
   * the start: the set never forgets a hash while the process runs.
   */
  lemma {:induction false} RunAtMostOnce(s: Store, batches: seq<seq<Option<Hash>>>)
    ensures NoDuplicates(Run(s, batches).0)
    ensures forall i :: 0 <= i < |Run(s, batches).0| ==> Run(s, batches).0[i] !in s.members
    ensures Run(s, batches).1.members == s.members + Elements(Run(s, batches).0)
    decreases |batches|
  {
    if batches != [] {
      var w := Walk(s, batches[0]);
      WalkEmitsOnlyNew(s, batches[0]);
      WalkGrowsSet(s, batches[0]);
      RunAtMostOnce(w.1, batches[1..]);
      var rest := Run(w.1, batches[1..]);
      DistinctConcat(w.0, rest.0);
      var all := w.0 + rest.0;
      forall i | 0 <= i < |all| ensures all[i] !in s.members {
        if i >= |w.0| {
          assert all[i] == rest.0[i - |w.0|];
        }
      }
      assert Elements(all) == Elements(w.0) + Elements(rest.0);
    }
  }

  /** Walking a list from its end: the last of the first `i` candidates comes first. */
  lemma ReversedPrefix(hs: seq<Option<Hash>>, i: nat)
    requires 0 < i <= |hs|
    ensures Reversed(hs[..i]) == [hs[i - 1]] + Reversed(hs[..i - 1])
  {
    assert hs[..i][..i - 1] == hs[..i - 1];
  }

  /** What a walk does with one candidate: emit and remember it when it is present and new. */
  function Step(s: Store, c: Option<Hash>): (seq<Hash>, Store) {
    if Truthy(c) && c.value !in s.members then ([c.value], Remembered(s, c.value)) else ([], s)
  }

  /** A walk is its first step followed by the walk of the rest. */
  lemma WalkStep(s: Store, c: Option<Hash>, rest: seq<Option<Hash>>)
    ensures Walk(s, [c] + rest).0 == Step(s, c).0 + Walk(Step(s, c).1, rest).0
    ensures Walk(s, [c] + rest).1 == Walk(Step(s, c).1, rest).1
  {
    assert ([c] + rest)[1..] == rest;
  }

  /** Taking one candidate off the front of a forward walk keeps its final store. */
  lemma ForwardStep(s: Store, hs: seq<Option<Hash>>, i: nat, target: Store)
    requires i < |hs| && Walk(s, hs[i..]).1 == target
    ensures Walk(Step(s, hs[i]).1, hs[i + 1..]).1 == target
  {
    assert hs[i..] == [hs[i]] + hs[i + 1..];
    WalkStep(s, hs[i], hs[i + 1..]);
  }

  /**
   * Taking the last of the first `i` candidates off a backward walk: what was emitted so
   * far, followed by what the rest of the walk emits, stays the same.
   */
  lemma BackwardStep(s: Store, hs: seq<Option<Hash>>, i: nat, emitted: seq<Hash>, target: (seq<Hash>, Store))
    requires 0 < i <= |hs|
    requires emitted + Walk(s, Reversed(hs[..i])).0 == target.0 && Walk(s, Reversed(hs[..i])).1 == target.1
    ensures emitted + Step(s, hs[i - 1]).0 + Walk(Step(s, hs[i - 1]).1, Reversed(hs[..i - 1])).0 == target.0
    ensures Walk(Step(s, hs[i - 1]).1, Reversed(hs[..i - 1])).1 == target.1
  {
    ReversedPrefix(hs, i);
    WalkStep(s, hs[i - 1], Reversed(hs[..i - 1]));
  }

  /**
   * The checks every poll makes on a candidate hash and the emit step that follows them
   * (main.py:213-216 and 282 for sales, 312-313 and 354 for mints): a missing or empty hash
   * and a hash already seen are skipped; any other is emitted and remembered.
   */
  method Visit(store: SeenStore, txHash: Option<Hash>) returns (e: seq<Hash>)
    requires store.Valid()
    modifies store
    ensures store.Valid() && (e, store.State()) == Step(old(store.State()), txHash)
  {
    e := [];
    if !Truthy(txHash) || store.Contains(txHash.value) {
      return;
    }
    // Metadata lookup and the Telegram message happen here in the source.
    e := [txHash.value];
    store.Remember(txHash.value);
  }

  /** Remembers a hash when it is present and non-empty (main.py:194-196). */
  method RememberPresent(store: SeenStore, txHash: Option<Hash>)
    requires store.Valid()
    modifies store
    ensures store.Valid() && store.State() == Step(old(store.State()), txHash).1
  {
    if Truthy(txHash) {
      store.Remember(txHash.value);
    }
  }

  /** Calls `store.Remember` for every present hash in list order (main.py:193-197). */
  method Seed(store: SeenStore, reply: Reply<SaleRecord>)
    requires store.Valid()
    modifies store
    ensures store.Valid() && store.State() == SeedSpec(old(store.State()), reply)
  {
    if reply.Fetched? {
      var sales := reply.items;
      ghost var hs := SaleHashes(sales);
      var i := 0;
      while i < |sales|
        invariant 0 <= i <= |sales|
        invariant store.Valid()
        invariant Walk(store.State(), hs[i..]).1 == SeedSpec(old(store.State()), reply)
      {
        ForwardStep(store.State(), hs, i, SeedSpec(old(store.State()), reply));
        RememberPresent(store, sales[i].acceptedTxHash);
        i := i + 1;
      }
      assert hs[i..] == [];
    }
  }

  /** The selection loop of `poll_sales` (main.py:207-283); returns the hashes it emitted. */
  method PollSales(store: SeenStore, reply: Reply<SaleRecord>) returns (emitted: seq<Hash>)
    requires store.Valid()
    modifies store
    ensures store.Valid() && (emitted, store.State()) == PollSalesSpec(old(store.State()), reply)
  {
    emitted := [];
    if reply.Failed? || reply.items == [] {
      assert reply.Fetched? ==> SaleHashes(reply.items) == [];
      return;
    }
    var sales := reply.items;
    ghost var hs := SaleHashes(sales);
    assert hs[..|sales|] == hs;
    ghost var target := PollSalesSpec(old(store.State()), reply);
    var i := |sales|;
    assert [] + target.0 == target.0;
    while i > 0
      invariant 0 <= i <= |sales|
      invariant store.Valid()
      invariant emitted + Walk(store.State(), Reversed(hs[..i])).0 == target.0
      invariant Walk(store.State(), Reversed(hs[..i])).1 == target.1
    {
      BackwardStep(store.State(), hs, i, emitted, target);
      i := i - 1;
      var e := Visit(store, sales[i].acceptedTxHash);
      emitted := emitted + e;
    }
    assert hs[..0] == [] && emitted + [] == emitted;
  }

  /** The selection loop of `poll_mints` (main.py:307-355); returns the hashes it emitted. */
  method PollMints(store: SeenStore, reply: Reply<MintEntry>) returns (emitted: seq<Hash>)
    requires store.Valid()
    modifies store
    ensures store.Valid() && (emitted, store.State()) == PollMintsSpec(old(store.State()), reply)
  {
    emitted := [];
    if reply.Failed? || reply.items == [] {
      assert reply.Fetched? ==> MintHashes(reply.items) == [];
      return;
    }
    var txs := reply.items;
    ghost var hs := MintHashes(txs);
    assert hs[..|txs|] == hs;
    ghost var target := PollMintsSpec(old(store.State()), reply);
    var i := |txs|;
    assert [] + target.0 == target.0;
    while i > 0
      invariant 0 <= i <= |txs|
      invariant store.Valid()
      invariant emitted + Walk(store.State(), Reversed(hs[..i])).0 == target.0
      invariant Walk(store.State(), Reversed(hs[..i])).1 == target.1
    {
      BackwardStep(store.State(), hs, i, emitted, target);
      i := i - 1;
      var tx := txs[i];
      var e := [];
      if tx.transactionType == Some(MintType) {
        e := Visit(store, tx.hash);
      }
      emitted := emitted + e;
    }
    assert hs[..0] == [] && emitted + [] == emitted;
  }

  /** The state file: both deques as lists (`load_state` gives empty lists when it cannot read it). */
  datatype PersistedState = PersistedState(seenSales: seq<Hash>, seenMints: seq<Hash>)

  /**
   * Start-up (main.py:77-81, 366): both stores are loaded from the state file, then only
   * the sales store is seeded; the mints store is not.
   */
  method Boot(persisted: PersistedState, seedReply: Reply<SaleRecord>) returns (sales: SeenStore, mints: SeenStore)
    ensures fresh(sales) && fresh(mints) && sales != mints
    ensures sales.Valid() && mints.Valid()
    ensures sales.State() == SeedSpec(Loaded(persisted.seenSales), seedReply)
    ensures mints.State() == Loaded(persisted.seenMints)
  {
    sales := new SeenStore.Load(persisted.seenSales);
    mints := new SeenStore.Load(persisted.seenMints);
    Seed(sales, seedReply);
  }

  /** One turn of the main loop (main.py:368-371): sales, then mints, each on its own store. */
  method Cycle(sales: SeenStore, mints: SeenStore, salesReply: Reply<SaleRecord>, mintsReply: Reply<MintEntry>)
    returns (saleHashes: seq<Hash>, mintHashes: seq<Hash>)
    requires sales != mints && sales.Valid() && mints.Valid()
    modifies sales, mints
    ensures sales.Valid() && mints.Valid()
    ensures (saleHashes, sales.State()) == PollSalesSpec(old(sales.State()), salesReply)
    ensures (mintHashes, mints.State()) == PollMintsSpec(old(mints.State()), mintsReply)
  {
    saleHashes := PollSales(sales, salesReply);
    mintHashes := PollMints(mints, mintsReply);
  }

  /** What `persist_now` writes after every change (main.py:101-104). */
  function Persisted(sales: SeenStore, mints: SeenStore): (p: PersistedState)
    reads sales, mints
    requires sales.Valid() && mints.Valid()
    ensures Loaded(p.seenSales).deque == sales.deque && Loaded(p.seenMints).deque == mints.deque
  {
    ReloadSnapshot(sales.State());
    ReloadSnapshot(mints.State());
    PersistedState(Snapshot(sales.State()), Snapshot(mints.State()))
  }
}
