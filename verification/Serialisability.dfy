/**
  Running a batch in parallel is running it one transaction at a time, in any order.
 */
module Serialisability {
  import opened Collections
  import opened Transactions
  import opened Scheduling
  import opened Schedulers
  import opened Execution

  datatype Run = Run(world: World, receipts: seq<Receipt>)

  /** One transaction after the other, each on the world its predecessors left. */
  ghost function Serial(m: Machine, w: World, txs: seq<Transaction>): Run {
    if txs == [] then Run(w, [])
    else
      var before, tx := Serial(m, w, txs[..|txs| - 1]), txs[|txs| - 1];
      Run(Merge(before.world, Effect(m, tx, before.world)), before.receipts + [Execute(m, tx, before.world).receipt])
  }

  /** All effects computed on the same base and merged in list order. */
  ghost function MergeAll(m: Machine, base: World, txs: seq<Transaction>): World {
    if txs == [] then base
    else Merge(MergeAll(m, base, txs[..|txs| - 1]), Effect(m, txs[|txs| - 1], base))
  }

  ghost function ReceiptsOn(m: Machine, base: World, txs: seq<Transaction>): seq<Receipt> {
    if txs == [] then []
    else ReceiptsOn(m, base, txs[..|txs| - 1]) + [Execute(m, txs[|txs| - 1], base).receipt]
  }

  /** `sorted` holds the transactions of `batch` by ascending hash. */
  ghost predicate ByHash(m: Machine, batch: seq<Transaction>, sorted: seq<Transaction>) {
    && multiset(sorted) == multiset(batch)
    && forall i, j :: 0 <= i < j < |sorted| ==> m.hashing.txHash(sorted[i]) <= m.hashing.txHash(sorted[j])
  }

  /** Each batch on the world left by the batches before it; `orders[b]` is the merge order of batch `b`. */
  ghost function Parallel(m: Machine, w: World, orders: seq<seq<Transaction>>): Run {
    if orders == [] then Run(w, [])
    else
      var before, order := Parallel(m, w, orders[..|orders| - 1]), orders[|orders| - 1];
      Run(MergeAll(m, before.world, order), before.receipts + ReceiptsOn(m, before.world, order))
  }

  // ---- merging leaves alone what is not written ---------------------------------------------

  lemma MergeKeeps(m: Machine, w: World, d: Delta, keys: set<StateKey>, key: StateKey)
    requires WritesWithin(m, d, keys) && key !in keys
    requires key.StorageKey? ==> key.key == []
    ensures SameAt(m, w, Merge(w, d), key)
  {
    match key
    case AccountKey(a) =>
    case StorageKey(c, _) =>
      assert forall k :: k in d.storage ==> m.owner(k) != c;
      assert Owned(m, Merge(w, d).storage, c) == Owned(m, w.storage, c);
    case RegistryKey(a) =>
  }

  lemma FootprintKeys(m: Machine, tx: Transaction)
    ensures forall key :: key in Footprint(m, tx) && key.StorageKey? ==> key.key == []
  {
  }

  lemma SameAtTransitive(m: Machine, a: World, b: World, c: World, key: StateKey)
    requires SameAt(m, a, b, key) && SameAt(m, b, c, key)
    ensures SameAt(m, a, c, key)
  {
  }

  lemma NoConflictNoOverlap(m: Machine, a: Transaction, b: Transaction)
    requires !Conflict(m.hashing, a, b)
    ensures AnalyzeAccess(m.hashing, a).writeSet !! Footprint(m, b)
  {
  }

  /** Merging the effects of independent transactions does not disturb the footprint of another one. */
  lemma {:induction false} MergeAllKeeps(m: Machine, base: World, txs: seq<Transaction>, tx: Transaction, key: StateKey)
    requires Isolated(m) && key in Footprint(m, tx)
    requires forall t :: t in txs ==> !Conflict(m.hashing, t, tx)
    ensures SameAt(m, base, MergeAll(m, base, txs), key)
  {
    hide AnalyzeAccess, Conflict, Effect, Isolated, WritesWithin, SameAt;
    if txs == [] {
      SameAtItself(m, base, key);
    } else {
      var init, t := txs[..|txs| - 1], txs[|txs| - 1];
      var w := MergeAll(m, base, init);
      MergeAllKeeps(m, base, init, tx, key);
      EffectStaysWithinWrites(m, t, base);
      NoConflictNoOverlap(m, t, tx);
      FootprintKeys(m, tx);
      MergeKeeps(m, w, Effect(m, t, base), AnalyzeAccess(m.hashing, t).writeSet, key);
      SameAtTransitive(m, base, w, MergeAll(m, base, txs), key);
    }
  }

  lemma SameAtItself(m: Machine, w: World, key: StateKey)
    ensures SameAt(m, w, w, key)
  {
  }

  lemma IndependentPrefix(h: Hashing, txs: seq<Transaction>)
    requires Independent(h, txs) && txs != []
    ensures Independent(h, txs[..|txs| - 1])
    ensures var init, tx := txs[..|txs| - 1], txs[|txs| - 1]; forall t :: t in init ==> !Conflict(h, t, tx)
  {
    hide Conflict;
    var init, tx := txs[..|txs| - 1], txs[|txs| - 1];
    assert txs == init + [tx];
    assert tx !in init;
  }

  /** On independent transactions, running one at a time and merging from a common base agree, receipts included. */
  lemma {:induction false} SerialIsMergeAll(m: Machine, w: World, txs: seq<Transaction>)
    requires Isolated(m) && Independent(m.hashing, txs)
    ensures Serial(m, w, txs) == Run(MergeAll(m, w, txs), ReceiptsOn(m, w, txs))
  {
    hide Isolated, Independent, Conflict, Execute, Footprint, Merge;
    if txs != [] {
      var init, tx := txs[..|txs| - 1], txs[|txs| - 1];
      IndependentPrefix(m.hashing, txs);
      SerialIsMergeAll(m, w, init);
      var before := MergeAll(m, w, init);
      forall key | key in Footprint(m, tx)
        ensures SameAt(m, w, before, key)
      {
        MergeAllKeeps(m, w, init, tx, key);
      }
      ExecuteDependsOnFootprint(m, tx, w, before);
    }
  }

  // ---- order within a batch -------------------------------------------------------------------

  lemma DisjointUpdates<K, V>(m: map<K, V>, a: map<K, V>, b: map<K, V>)
    requires a.Keys !! b.Keys
    ensures m + a + b == m + b + a
    ensures b + (a + m) == a + (b + m)
  {
    assert (m + a + b).Keys == (m + b + a).Keys;
    assert (b + (a + m)).Keys == (a + (b + m)).Keys;
  }

  lemma DisjointMerges(w: World, a: Delta, b: Delta)
    requires a.accounts.Keys !! b.accounts.Keys && a.storage.Keys !! b.storage.Keys
    requires a.registry.Keys !! b.registry.Keys
    ensures Merge(Merge(w, a), b) == Merge(Merge(w, b), a)
  {
    DisjointUpdates(w.accounts, a.accounts, b.accounts);
    DisjointUpdates(w.storage, a.storage, b.storage);
    DisjointUpdates(w.registry, a.registry, b.registry);
  }

  lemma DisjointWrites(m: Machine, a: Delta, b: Delta, ka: set<StateKey>, kb: set<StateKey>)
    requires WritesWithin(m, a, ka) && WritesWithin(m, b, kb) && ka !! kb
    ensures a.accounts.Keys !! b.accounts.Keys && a.storage.Keys !! b.storage.Keys && a.registry.Keys !! b.registry.Keys
  {
    forall x | x in a.accounts
      ensures x !in b.accounts
    {
      assert AccountKey(x) in ka;
    }
    forall x | x in a.storage
      ensures x !in b.storage
    {
      assert StorageKey(m.owner(x), []) in ka;
    }
    forall x | x in a.registry
      ensures x !in b.registry
    {
      assert RegistryKey(x) in ka;
    }
  }

  lemma MergesCommute(m: Machine, w: World, base: World, a: Transaction, b: Transaction)
    requires Isolated(m) && !Conflict(m.hashing, a, b)
    ensures Merge(Merge(w, Effect(m, a, base)), Effect(m, b, base)) ==
              Merge(Merge(w, Effect(m, b, base)), Effect(m, a, base))
  {
    hide Effect, Isolated, AnalyzeAccess, Merge, WritesWithin;
    EffectStaysWithinWrites(m, a, base);
    EffectStaysWithinWrites(m, b, base);
    DisjointWrites(m, Effect(m, a, base), Effect(m, b, base),
                   AnalyzeAccess(m.hashing, a).writeSet, AnalyzeAccess(m.hashing, b).writeSet);
    DisjointMerges(w, Effect(m, a, base), Effect(m, b, base));
  }

  function Without(txs: seq<Transaction>, i: nat): seq<Transaction>
    requires i < |txs|
  {
    txs[..i] + txs[i + 1..]
  }

  /** A transaction may be moved to the end of an independent batch. */
  lemma {:induction false} MoveToEnd(m: Machine, base: World, txs: seq<Transaction>, i: nat)
    requires Isolated(m) && Independent(m.hashing, txs) && i < |txs|
    ensures MergeAll(m, base, txs) == Merge(MergeAll(m, base, Without(txs, i)), Effect(m, txs[i], base))
    decreases |txs|
  {
    hide Isolated, Independent, Conflict, Effect, Merge;
    var init, last := txs[..|txs| - 1], txs[|txs| - 1];
    IndependentPrefix(m.hashing, txs);
    if i == |txs| - 1 {
      assert Without(txs, i) == init;
    } else {
      MoveToEnd(m, base, init, i);
      assert init[i] in init;
      var rest := Without(txs, i);
      assert rest[..|rest| - 1] == Without(init, i);
      assert rest[|rest| - 1] == last;
      assert !Conflict(m.hashing, txs[i], last);
      MergesCommute(m, MergeAll(m, base, Without(init, i)), base, txs[i], last);
    }
  }

  lemma WithoutCounts(txs: seq<Transaction>, i: nat)
    requires i < |txs|
    ensures multiset(Without(txs, i)) == multiset(txs) - multiset{txs[i]}
  {
    assert txs == txs[..i] + [txs[i]] + txs[i + 1..];
  }

  lemma WithoutKeepsIndependent(h: Hashing, txs: seq<Transaction>, i: nat)
    requires Independent(h, txs) && i < |txs|
    ensures Independent(h, Without(txs, i))
    ensures multiset(Without(txs, i)) == multiset(txs) - multiset{txs[i]}
  {
    hide Conflict;
    assert txs == txs[..i] + [txs[i]] + txs[i + 1..];
    forall x | x in Without(txs, i) ensures x in txs { }
  }

  lemma {:induction false} MergeAllPermutes(m: Machine, base: World, xs: seq<Transaction>, ys: seq<Transaction>)
    requires Isolated(m) && Independent(m.hashing, xs) && Independent(m.hashing, ys) && multiset(xs) == multiset(ys)
    ensures MergeAll(m, base, xs) == MergeAll(m, base, ys)
    decreases |xs|
  {
    hide Isolated, Independent, Effect, Merge;
    if xs == [] {
      assert multiset(ys) == multiset{};
      assert ys == [];
    } else {
      var init, x := xs[..|xs| - 1], xs[|xs| - 1];
      assert xs == init + [x];
      assert x in multiset(ys);
      var i :| 0 <= i < |ys| && ys[i] == x;
      IndependentPrefix(m.hashing, xs);
      WithoutKeepsIndependent(m.hashing, ys, i);
      MoveToEnd(m, base, ys, i);
      MergeAllPermutes(m, base, init, Without(ys, i));
    }
  }

  lemma {:induction false} ReceiptsPermute(m: Machine, base: World, xs: seq<Transaction>, ys: seq<Transaction>)
    requires multiset(xs) == multiset(ys)
    ensures multiset(ReceiptsOn(m, base, xs)) == multiset(ReceiptsOn(m, base, ys))
    decreases |xs|
  {
    hide Execute;
    if xs == [] {
      assert multiset(ys) == multiset{};
      assert ys == [];
    } else {
      var init, x := xs[..|xs| - 1], xs[|xs| - 1];
      assert xs == init + [x];
      assert x in multiset(ys);
      var i :| 0 <= i < |ys| && ys[i] == x;
      WithoutCounts(ys, i);
      assert multiset(init) == multiset(xs) - multiset{x};
      ReceiptsPermute(m, base, init, Without(ys, i));
      ReceiptsMove(m, base, ys, i);
    }
  }

  lemma ReceiptsSnoc(m: Machine, base: World, txs: seq<Transaction>, tx: Transaction)
    ensures ReceiptsOn(m, base, txs + [tx]) == ReceiptsOn(m, base, txs) + [Execute(m, tx, base).receipt]
  {
    assert (txs + [tx])[..|txs|] == txs;
  }

  lemma {:induction false} ReceiptsMove(m: Machine, base: World, ys: seq<Transaction>, i: nat)
    requires i < |ys|
    ensures multiset(ReceiptsOn(m, base, ys))
         == multiset(ReceiptsOn(m, base, Without(ys, i))) + multiset{Execute(m, ys[i], base).receipt}
    decreases |ys|
  {
    hide Execute, ReceiptsOn;
    var n := |ys| - 1;
    var init, last := ys[..n], ys[n];
    assert ys == init + [last];
    ReceiptsSnoc(m, base, init, last);
    if i == n {
      assert Without(ys, i) == init;
    } else {
      ReceiptsMove(m, base, init, i);
      assert Without(ys, i) == Without(init, i) + [last];
      ReceiptsSnoc(m, base, Without(init, i), last);
    }
  }

  lemma IndependentPermutes(h: Hashing, xs: seq<Transaction>, ys: seq<Transaction>)
    requires Independent(h, xs) && multiset(xs) == multiset(ys)
    ensures Independent(h, ys)
  {
    hide Conflict;
    forall y | y in ys ensures y in xs { assert y in multiset(xs); }
    NoRepeatsPermutes(xs, ys);
  }

  /**
    One batch: merging in hash order from a common base has the same final world as running the
    batch one transaction at a time in any order, and gives every transaction the same receipt.
   */
  lemma {:induction false} BatchIsSerial(m: Machine, w: World, batch: seq<Transaction>, order: seq<Transaction>)
    requires Isolated(m) && Independent(m.hashing, batch) && multiset(order) == multiset(batch)
    ensures Serial(m, w, order).world == MergeAll(m, w, batch)
    ensures multiset(Serial(m, w, order).receipts) == multiset(ReceiptsOn(m, w, batch))
  {
    hide Isolated, Independent, Execute, Merge;
    IndependentPermutes(m.hashing, batch, order);
    SerialIsMergeAll(m, w, order);
    MergeAllPermutes(m, w, batch, order);
    ReceiptsPermute(m, w, batch, order);
  }

  lemma {:induction false} SerialConcat(m: Machine, w: World, a: seq<Transaction>, b: seq<Transaction>)
    ensures Serial(m, w, a + b).world == Serial(m, Serial(m, w, a).world, b).world
    ensures Serial(m, w, a + b).receipts == Serial(m, w, a).receipts + Serial(m, Serial(m, w, a).world, b).receipts
    decreases |b|
  {
    hide Execute, Merge, Effect;
    if b == [] {
      assert a + b == a;
    } else {
      SerialConcat(m, w, a, b[..|b| - 1]);
      assert (a + b)[..|a + b| - 1] == a + b[..|b| - 1];
    }
  }

  /** `orders` runs the same batches as `batches`, each in some order of its own. */
  ghost predicate Rearranges(batches: seq<seq<Transaction>>, orders: seq<seq<Transaction>>) {
    && |orders| == |batches|
    && forall b :: 0 <= b < |batches| ==> multiset(orders[b]) == multiset(batches[b])
  }

  /**
    Serialisability of a block.  Whatever order the members of each batch are merged in (`orders`)
    or run in one at a time (`serial`), the final world is the same and so is the collection of
    receipts.
   */
  lemma {:induction false} BlockIsSerial(m: Machine, w: World, batches: seq<seq<Transaction>>,
                                         orders: seq<seq<Transaction>>, serial: seq<seq<Transaction>>)
    requires Isolated(m) && forall b :: 0 <= b < |batches| ==> Independent(m.hashing, batches[b])
    requires Rearranges(batches, orders) && Rearranges(batches, serial)
    ensures Parallel(m, w, orders).world == Serial(m, w, Flatten(serial)).world
    ensures multiset(Parallel(m, w, orders).receipts) == multiset(Serial(m, w, Flatten(serial)).receipts)
    decreases |batches|
  {
    hide Isolated, Independent, MergeAll, ReceiptsOn, Serial;
    if batches == [] {
      SerialOfNone(m, w);
    } else {
      var n := |batches| - 1;
      BlockIsSerial(m, w, batches[..n], orders[..n], serial[..n]);
      var before := Parallel(m, w, orders[..n]).world;
      SerialConcat(m, w, Flatten(serial[..n]), serial[n]);
      IndependentPermutes(m.hashing, batches[n], orders[n]);
      BatchIsSerial(m, before, orders[n], serial[n]);
    }
  }

  lemma SerialOfNone(m: Machine, w: World)
    ensures Serial(m, w, []) == Run(w, [])
  {
  }

  // ---- each transaction's own receipt -------------------------------------------------------------

  /** `others` holds one receipt for each transaction of `txs`: the one at its place in `rs`. */
  ghost predicate OwnReceipts(m: Machine, txs: seq<Transaction>, rs: seq<Receipt>, others: seq<Receipt>) {
    && |rs| == |txs| == |others|
    && forall i :: 0 <= i < |txs| ==> OwnReceipt(m, txs[i], rs[i], others)
  }

  ghost predicate OwnReceipt(m: Machine, tx: Transaction, receipt: Receipt, others: seq<Receipt>) {
    && receipt.txHash == m.hashing.txHash(tx) && receipt in others
    && forall r :: r in others && r.txHash == m.hashing.txHash(tx) ==> r == receipt
  }

  lemma ReceiptNamesTransaction(m: Machine, tx: Transaction, w: World)
    ensures Execute(m, tx, w).receipt.txHash == m.hashing.txHash(tx)
  {
  }

  lemma {:induction false} SerialReceiptNames(m: Machine, w: World, txs: seq<Transaction>)
    ensures |Serial(m, w, txs).receipts| == |txs|
    ensures forall i :: 0 <= i < |txs| ==> Serial(m, w, txs).receipts[i].txHash == m.hashing.txHash(txs[i])
  {
    hide Execute, Effect, Merge;
    if txs != [] {
      var n := |txs| - 1;
      SerialReceiptNames(m, w, txs[..n]);
      ReceiptNamesTransaction(m, txs[n], Serial(m, w, txs[..n]).world);
    }
  }

  lemma DistinctHashesPermute(h: Hashing, xs: seq<Transaction>, ys: seq<Transaction>)
    requires DistinctHashes(h, xs) && multiset(xs) == multiset(ys)
    ensures DistinctHashes(h, ys)
  {
    DistinctHashesNoRepeats(h, xs);
    NoRepeatsPermutes(xs, ys);
    forall i, j | 0 <= i < j < |ys|
      ensures h.txHash(ys[i]) != h.txHash(ys[j])
    {
      assert ys[i] in multiset(xs) && ys[j] in multiset(xs);
      var a :| 0 <= a < |xs| && xs[a] == ys[i];
      var b :| 0 <= b < |xs| && xs[b] == ys[j];
      assert a < b || b < a;
    }
  }

  /** With distinct hashes, equal collections of receipts are equal receipt by receipt. */
  lemma ReceiptsAreOwn(m: Machine, w: World, txs: seq<Transaction>, others: seq<Receipt>)
    requires DistinctHashes(m.hashing, txs) && multiset(others) == multiset(Serial(m, w, txs).receipts)
    ensures OwnReceipts(m, txs, Serial(m, w, txs).receipts, others)
  {
    hide Serial;
    var rs := Serial(m, w, txs).receipts;
    SerialReceiptNames(m, w, txs);
    assert |others| == |multiset(others)| == |multiset(rs)| == |rs|;
    forall i | 0 <= i < |txs|
      ensures OwnReceipt(m, txs[i], rs[i], others)
    {
      assert rs[i] in multiset(others);
      forall r | r in others && r.txHash == m.hashing.txHash(txs[i])
        ensures r == rs[i]
      {
        assert r in multiset(rs);
        var j :| 0 <= j < |rs| && rs[j] == r;
        assert !(i < j) && !(j < i);
      }
    }
  }
}
