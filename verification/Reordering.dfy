/**
  Conflict equivalence: two one-at-a-time runs that agree on the order of conflicting transactions
  end in the same world with the same receipts.  An orderly block therefore runs, in parallel, as if
  one transaction at a time in the original order.
 */
module Reordering {
  import opened Collections
  import opened Transactions
  import opened Scheduling
  import opened Schedulers
  import opened Execution
  import opened Serialisability
  import opened OriginalOrder

  ghost predicate Before(txs: seq<Transaction>, a: Transaction, b: Transaction) {
    exists i, j :: 0 <= i < j < |txs| && txs[i] == a && txs[j] == b
  }

  /** `ys` keeps conflicting transactions in the order they have in `xs`. */
  ghost predicate Respects(h: Hashing, xs: seq<Transaction>, ys: seq<Transaction>) {
    forall a, b :: Before(xs, a, b) && Conflict(h, a, b) ==> Before(ys, a, b)
  }

  /** Same world, same receipts up to order. */
  ghost predicate Alike(r: Run, s: Run) {
    r.world == s.world && multiset(r.receipts) == multiset(s.receipts)
  }

  // ---- moving one transaction ---------------------------------------------------------------------

  lemma SwapAlike(m: Machine, w: World, a: Transaction, b: Transaction)
    requires Isolated(m) && a != b && !Conflict(m.hashing, a, b)
    ensures Alike(Serial(m, w, [a, b]), Serial(m, w, [b, a]))
  {
    ConflictIsSymmetric(m.hashing, a, b);
    hide Isolated, Conflict, Serial;
    assert Independent(m.hashing, [a, b]);
    assert multiset([b, a]) == multiset([a, b]);
    BatchIsSerial(m, w, [a, b], [a, b]);
    BatchIsSerial(m, w, [a, b], [b, a]);
  }

  lemma AlikeThen(m: Machine, w: World, a: seq<Transaction>, b: seq<Transaction>, c: seq<Transaction>)
    requires Alike(Serial(m, w, a), Serial(m, w, b))
    ensures Alike(Serial(m, w, a + c), Serial(m, w, b + c))
  {
    hide Serial;
    SerialConcat(m, w, a, c);
    SerialConcat(m, w, b, c);
  }

  lemma AlikeAfter(m: Machine, w: World, a: seq<Transaction>, b: seq<Transaction>, c: seq<Transaction>)
    requires Alike(Serial(m, Serial(m, w, a).world, b), Serial(m, Serial(m, w, a).world, c))
    ensures Alike(Serial(m, w, a + b), Serial(m, w, a + c))
  {
    hide Serial;
    SerialConcat(m, w, a, b);
    SerialConcat(m, w, a, c);
  }

  /** A transaction may be moved behind others that it does not conflict with. */
  lemma {:induction false} MoveBehind(m: Machine, w: World, x: Transaction, rest: seq<Transaction>)
    requires Isolated(m) && x !in rest && forall t :: t in rest ==> !Conflict(m.hashing, x, t)
    ensures Alike(Serial(m, w, [x] + rest), Serial(m, w, rest + [x]))
    decreases |rest|
  {
    hide Isolated, Conflict, Serial;
    if rest == [] {
      assert [x] + rest == rest + [x];
    } else {
      var t, tail := rest[0], rest[1..];
      assert rest == [t] + tail;
      SwapAlike(m, w, x, t);
      AlikeThen(m, w, [x, t], [t, x], tail);
      MoveBehind(m, Serial(m, w, [t]).world, x, tail);
      AlikeAfter(m, w, [t], [x] + tail, tail + [x]);
      assert [x] + rest == [x, t] + tail && [t, x] + tail == [t] + ([x] + tail);
      assert rest + [x] == [t] + (tail + [x]);
    }
  }

  /** The position of a member of a list without repeats. */
  lemma BeforeAt(txs: seq<Transaction>, i: nat, j: nat)
    requires NoRepeats(txs) && i < |txs| && j < |txs|
    ensures Before(txs, txs[i], txs[j]) <==> i < j
  {
  }

  lemma NothingAfterConflicts(h: Hashing, xs: seq<Transaction>, ys: seq<Transaction>, p: nat, t: Transaction)
    requires NoRepeats(xs) && NoRepeats(ys) && multiset(xs) == multiset(ys) && Respects(h, xs, ys)
    requires xs != [] && p < |ys| && ys[p] == xs[|xs| - 1] && t in ys[p + 1..]
    ensures !Conflict(h, ys[p], t)
  {
    var q :| p < q < |ys| && ys[q] == t;
    assert t in multiset(xs);
    var i :| 0 <= i < |xs| && xs[i] == t;
    assert i != |xs| - 1;
    BeforeAt(xs, i, |xs| - 1);
    BeforeAt(ys, q, p);
    ConflictIsSymmetric(h, ys[p], t);
  }

  lemma {:induction false} WithoutKeepsBefore(ys: seq<Transaction>, p: nat, a: Transaction, b: Transaction)
    requires NoRepeats(ys) && p < |ys| && a != ys[p] && b != ys[p] && Before(ys, a, b)
    ensures Before(Without(ys, p), a, b)
  {
    var i, j :| 0 <= i < j < |ys| && ys[i] == a && ys[j] == b;
    var zs := Without(ys, p);
    assert zs[if i < p then i else i - 1] == a;
    assert zs[if j < p then j else j - 1] == b;
  }

  lemma PrefixRespects(h: Hashing, xs: seq<Transaction>, ys: seq<Transaction>, p: nat)
    requires NoRepeats(xs) && NoRepeats(ys) && multiset(xs) == multiset(ys) && Respects(h, xs, ys)
    requires xs != [] && p < |ys| && ys[p] == xs[|xs| - 1]
    ensures Respects(h, xs[..|xs| - 1], Without(ys, p))
    ensures NoRepeats(xs[..|xs| - 1]) && NoRepeats(Without(ys, p))
    ensures multiset(xs[..|xs| - 1]) == multiset(Without(ys, p))
  {
    hide Conflict;
    var init := xs[..|xs| - 1];
    assert xs == init + [ys[p]];
    WithoutCounts(ys, p);
    forall a, b | Before(init, a, b) && Conflict(h, a, b)
      ensures Before(Without(ys, p), a, b)
    {
      var i, j :| 0 <= i < j < |init| && init[i] == a && init[j] == b;
      assert xs[i] == a && xs[j] == b;
      WithoutKeepsBefore(ys, p, a, b);
    }
  }

  lemma MoveLast(m: Machine, w: World, ys: seq<Transaction>, p: nat)
    requires Isolated(m) && NoRepeats(ys) && p < |ys|
    requires forall t :: t in ys[p + 1..] ==> !Conflict(m.hashing, ys[p], t)
    ensures Alike(Serial(m, w, ys), Serial(m, w, Without(ys, p) + [ys[p]]))
  {
    hide Isolated, Conflict, Serial, Alike;
    var head, x, tail := ys[..p], ys[p], ys[p + 1..];
    MoveBehind(m, Serial(m, w, head).world, x, tail);
    AlikeAfter(m, w, head, [x] + tail, tail + [x]);
    assert ys == head + ([x] + tail);
    assert Without(ys, p) + [x] == head + (tail + [x]);
  }

  lemma FindLast(xs: seq<Transaction>, ys: seq<Transaction>) returns (p: nat)
    requires multiset(xs) == multiset(ys) && xs != []
    ensures p < |ys| && ys[p] == xs[|xs| - 1]
  {
    assert xs[|xs| - 1] in multiset(ys);
    p :| 0 <= p < |ys| && ys[p] == xs[|xs| - 1];
  }

  /** Conflict equivalence. */
  lemma {:induction false} RespectfulRunsAlike(m: Machine, w: World, xs: seq<Transaction>, ys: seq<Transaction>)
    requires Isolated(m) && NoRepeats(xs) && NoRepeats(ys) && multiset(xs) == multiset(ys)
    requires Respects(m.hashing, xs, ys)
    ensures Alike(Serial(m, w, xs), Serial(m, w, ys))
    decreases |xs|
  {
    hide Isolated, Conflict, Serial, Respects, NoRepeats, Without;
    if xs == [] {
      assert multiset(ys) == multiset{};
      assert ys == [];
    } else {
      var init, x := xs[..|xs| - 1], xs[|xs| - 1];
      var p := FindLast(xs, ys);
      PrefixRespects(m.hashing, xs, ys, p);
      RespectfulRunsAlike(m, w, init, Without(ys, p));
      AlikeThen(m, w, init, Without(ys, p), [x]);
      forall t | t in ys[p + 1..] ensures !Conflict(m.hashing, x, t) {
        NothingAfterConflicts(m.hashing, xs, ys, p, t);
      }
      MoveLast(m, w, ys, p);
      assert xs == init + [x];
    }
  }

  // ---- the batches of a block -----------------------------------------------------------------------

  lemma {:induction false} InFlatten(batches: seq<seq<Transaction>>, p: nat, a: Transaction)
    requires p < |batches| && a in batches[p]
    ensures a in Flatten(batches)
  {
    var n := |batches| - 1;
    if p < n {
      InFlatten(batches[..n], p, a);
    }
  }

  lemma BeforeInConcat(xs: seq<Transaction>, ys: seq<Transaction>, a: Transaction, b: Transaction)
    requires (a in xs && b in ys) || Before(xs, a, b)
    ensures Before(xs + ys, a, b)
  {
    if a in xs && b in ys {
      var i :| 0 <= i < |xs| && xs[i] == a;
      var j :| 0 <= j < |ys| && ys[j] == b;
      assert (xs + ys)[i] == a && (xs + ys)[|xs| + j] == b;
    } else {
      var i, j :| 0 <= i < j < |xs| && xs[i] == a && xs[j] == b;
      assert (xs + ys)[i] == a && (xs + ys)[j] == b;
    }
  }

  lemma {:induction false} EarlierBatchIsBefore(batches: seq<seq<Transaction>>, p: nat, q: nat, a: Transaction,
                                                b: Transaction)
    requires p < q < |batches| && a in batches[p] && b in batches[q]
    ensures Before(Flatten(batches), a, b)
  {
    hide Before;
    var n := |batches| - 1;
    if q < n {
      EarlierBatchIsBefore(batches[..n], p, q, a, b);
    } else {
      InFlatten(batches[..n], p, a);
    }
    BeforeInConcat(Flatten(batches[..n]), batches[n], a, b);
  }

  /** The batch of position `i`. */
  lemma BatchOf(txs: seq<Transaction>, colors: seq<nat>, i: nat) returns (p: nat)
    requires |colors| == |txs| && i < |txs|
    ensures p < |Batches(txs, colors)| && ColorOrder(colors)[p] == colors[i] && txs[i] in Batches(txs, colors)[p]
  {
    ColorOrderSorted(colors);
    assert colors[i] in ColorOrder(colors);
    p :| 0 <= p < |ColorOrder(colors)| && ColorOrder(colors)[p] == colors[i];
    ClassMembers(txs, colors, colors[i], txs[i]);
  }

  lemma RunsBeforeInFlatten(txs: seq<Transaction>, colors: seq<nat>, i: nat, j: nat)
    requires |colors| == |txs| && i < |txs| && j < |txs| && RunsBefore(colors, i, j)
    ensures Before(Flatten(Batches(txs, colors)), txs[i], txs[j])
  {
    hide FirstUse, ColorOrder, ColorClass, Flatten, Before, Batches;
    var p := BatchOf(txs, colors, i);
    var q := BatchOf(txs, colors, j);
    ColorOrderSorted(colors);
    BatchesFollowColors(txs, colors);
    assert p < q;
    EarlierBatchIsBefore(Batches(txs, colors), p, q, txs[i], txs[j]);
  }

  lemma BatchesFollowColors(txs: seq<Transaction>, colors: seq<nat>)
    requires |colors| == |txs|
    ensures |Batches(txs, colors)| == |ColorOrder(colors)|
  {
  }

  lemma OrderlyBatchesRespect(h: Hashing, txs: seq<Transaction>, colors: seq<nat>)
    requires Greedy(h, txs, colors) && Orderly(h, txs)
    ensures |colors| == |txs| && Respects(h, txs, Flatten(Batches(txs, colors)))
  {
    hide Greedy, Orderly, Conflict, Batches, Flatten, RunsBefore;
    GreedyLength(h, txs, colors);
    OriginalOrderKeptExactly(h, txs, colors);
    forall a, b | Before(txs, a, b) && Conflict(h, a, b)
      ensures Before(Flatten(Batches(txs, colors)), a, b)
    {
      var i, j :| 0 <= i < j < |txs| && txs[i] == a && txs[j] == b;
      assert Adjacent(h, txs, i, j);
      RunsBeforeInFlatten(txs, colors, i, j);
    }
  }

  /**
    An orderly block: the parallel run ends in the same world, with the same receipts, as running the
    transactions one at a time in their original order.
   */
  lemma OrderlyBlockRunsInOriginalOrder(m: Machine, w: World, txs: seq<Transaction>, colors: seq<nat>,
                                        orders: seq<seq<Transaction>>)
    requires Isolated(m) && DistinctHashes(m.hashing, txs) && Greedy(m.hashing, txs, colors)
    requires |orders| == |Batches(txs, colors)|
    requires forall b :: 0 <= b < |orders| ==> ByHash(m, Batches(txs, colors)[b], orders[b])
    requires Orderly(m.hashing, txs)
    ensures Alike(Parallel(m, w, orders), Serial(m, w, txs))
    ensures OwnReceipts(m, txs, Serial(m, w, txs).receipts, Parallel(m, w, orders).receipts)
  {
    hide OwnReceipts, Isolated, DistinctHashes, Greedy, Batches, Flatten, Orderly, Respects, Serial, Parallel;
    hide Independent, NoRepeats;
    GreedyLength(m.hashing, txs, colors);
    var batches := Batches(txs, colors);
    forall b | 0 <= b < |batches| ensures Independent(m.hashing, batches[b]) {
      BatchesAreIndependent(m.hashing, txs, colors, b);
    }
    BlockIsSerial(m, w, batches, orders, batches);
    BatchesPartition(txs, colors);
    DistinctHashesNoRepeats(m.hashing, txs);
    NoRepeatsPermutes(txs, Flatten(batches));
    OrderlyBatchesRespect(m.hashing, txs, colors);
    RespectfulRunsAlike(m, w, txs, Flatten(batches));
    ReceiptsAreOwn(m, w, txs, Parallel(m, w, orders).receipts);
  }
  // ---- what a lost order costs ------------------------------------------------------------------------

  /** Both senders hold ten. */
  const FUNDED := World(map[1 := Account(10, 0), 3 := Account(10, 0)], map[], map[])

  /** The account of the two conflicting transfers after `n` of them. */
  ghost predicate AfterTransfers(w: World, n: nat) {
    n <= 2 && AccountOf(w.accounts, 3) == Account(10 - 2 * n, n) && AccountOf(w.accounts, 4) == Account(n, 0)
  }

  lemma FreeSucceeds(m: Machine)
    ensures Execute(m, FREE, FUNDED).receipt.success && AfterTransfers(Merge(FUNDED, Effect(m, FREE, FUNDED)), 0)
  {
  }

  lemma NextSucceeds(m: Machine, tx: Transaction, w: World)
    requires (tx == FORMER && AfterTransfers(w, 0)) || (tx == LATTER && AfterTransfers(w, 1))
    ensures Execute(m, tx, w).receipt.success
    ensures AfterTransfers(Merge(w, Effect(m, tx, w)), if tx == FORMER then 1 else 2)
  {
    assert FORMER != LATTER;
  }

  lemma SerialSnoc(m: Machine, w: World, txs: seq<Transaction>, tx: Transaction)
    ensures var before := Serial(m, w, txs);
            Serial(m, w, txs + [tx]) ==
            Run(Merge(before.world, Effect(m, tx, before.world)),
                before.receipts + [Execute(m, tx, before.world).receipt])
  {
    assert (txs + [tx])[..|txs|] == txs;
  }

  lemma AllSucceedInOrder(m: Machine)
    ensures var run := Serial(m, FUNDED, [FREE, FORMER, LATTER]);
            |run.receipts| == 3 && (forall r :: r in run.receipts ==> r.success) && AfterTransfers(run.world, 2)
  {
    hide Execute, Effect, Merge, Serial, AfterTransfers;
    FreeSucceeds(m);
    SerialOfNone(m, FUNDED);
    SerialSnoc(m, FUNDED, [], FREE);
    assert [] + [FREE] == [FREE] && [FREE] + [FORMER] == [FREE, FORMER];
    assert [FREE, FORMER] + [LATTER] == [FREE, FORMER, LATTER];
    NextSucceeds(m, FORMER, Serial(m, FUNDED, [FREE]).world);
    SerialSnoc(m, FUNDED, [FREE], FORMER);
    NextSucceeds(m, LATTER, Serial(m, FUNDED, [FREE, FORMER]).world);
    SerialSnoc(m, FUNDED, [FREE, FORMER], LATTER);
  }

  lemma {:induction false} ReceiptIsHandedOut(m: Machine, w: World, txs: seq<Transaction>, tx: Transaction)
    requires tx in txs
    ensures Execute(m, tx, w).receipt in ReceiptsOn(m, w, txs)
  {
    hide Execute;
    var n := |txs| - 1;
    if tx != txs[n] {
      ReceiptIsHandedOut(m, w, txs[..n], tx);
    }
  }

  /** The three transfers succeed in original order; in parallel the last one fails on its nonce. */
  lemma ReorderingFailsTransfer(m: Machine, orders: seq<seq<Transaction>>)
    requires Rearranges(Batches([FREE, FORMER, LATTER], [0, 1, 0]), orders)
    ensures forall r :: r in Serial(m, FUNDED, [FREE, FORMER, LATTER]).receipts ==> r.success
    ensures Receipt(m.hashing.txHash(LATTER), false, 0, Some(BadNonce)) in Parallel(m, FUNDED, orders).receipts
  {
    hide Batches, Serial, MergeAll, ReceiptsOn, Execute, Greedy;
    AllSucceedInOrder(m);
    ConflictingPairReordered(m.hashing);
    assert LATTER in multiset(orders[0]);
    ReceiptIsHandedOut(m, FUNDED, orders[0], LATTER);
    LatterFailsFirst(m);
    FirstBatchReceipts(m, FUNDED, orders[0], orders[1]);
    assert orders == [orders[0], orders[1]];
  }

  lemma LatterFailsFirst(m: Machine)
    ensures Execute(m, LATTER, FUNDED).receipt == Receipt(m.hashing.txHash(LATTER), false, 0, Some(BadNonce))
  {
  }

  lemma FirstBatchReceipts(m: Machine, w: World, a: seq<Transaction>, b: seq<Transaction>)
    ensures forall r :: r in ReceiptsOn(m, w, a) ==> r in Parallel(m, w, [a, b]).receipts
  {
    hide ReceiptsOn, MergeAll;
    assert [a, b][..1] == [a] && [a][..0] == [];
    assert Parallel(m, w, [a]).receipts == [] + ReceiptsOn(m, w, a);
  }
}
