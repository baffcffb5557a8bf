/**
  Parallel execution against the sequential state manager: for a block of transfers from
  one sender - or, more generally, an orderly block of transfers - both do the same, in the
  original order.
 */
module SingleSender {
  import opened Collections
  import opened Transactions
  import opened Balances
  import opened Ledgers
  import opened Scheduling
  import opened Schedulers
  import opened Execution
  import opened Serialisability
  import opened OriginalOrder
  import opened Reordering
  import opened TransferBlocks

  /** All balances, the emission counter included. */
  ghost function Total(m: Accounts): nat {
    SumExcept(m, {})
  }

  /** Well-formed transfers, none of them to its own sender. */
  ghost predicate PlainTransfers(txs: seq<Transaction>) {
    forall i :: 0 <= i < |txs| ==>
      txs[i].payload.Transfer? && txs[i].payload.to != txs[i].from && ValidateBasic(txs[i]).Fine?
  }

  ghost predicate FromOneSender(from: Address, txs: seq<Transaction>) {
    PlainTransfers(txs) && forall i :: 0 <= i < |txs| ==> txs[i].from == from
  }

  /** The sequential reference: apply each transaction in order, skipping the ones that fail. */
  ghost function ApplyAll(m: Accounts, txs: seq<Transaction>): Accounts {
    if txs == [] then m
    else
      var before := ApplyAll(m, txs[..|txs| - 1]);
      match ApplyTransaction(before, txs[|txs| - 1])
      case Ok(m') => m'
      case Err(_) => before
  }

  // ---- one transfer --------------------------------------------------------------------------

  lemma TransferFailsAlike(m: Machine, w: World, tx: Transaction)
    requires tx.payload.Transfer? && ValidateBasic(tx).Fine? && Total(w.accounts) < U64_MAX
    ensures Execute(m, tx, w).receipt.success <==> ApplyTransaction(w.accounts, tx).Ok?
  {
    BalanceWithinSum(w.accounts, tx.from, {});
  }

  ghost function Paid(m: Accounts, tx: Transaction): Account
    requires tx.payload.Transfer? && AccountOf(m, tx.from).balance >= tx.payload.amount + Fee(tx)
  {
    var sender := AccountOf(m, tx.from);
    Account(sender.balance - tx.payload.amount - Fee(tx), WrappingAdd(sender.nonce, 1))
  }

  ghost function Credited(m: Accounts, tx: Transaction): Account
    requires tx.payload.Transfer? && AccountOf(m, tx.payload.to).balance + tx.payload.amount < U64_MAX
  {
    var receiver := AccountOf(m, tx.payload.to);
    receiver.(balance := receiver.balance + tx.payload.amount)
  }

  lemma TransferFits(m: Accounts, tx: Transaction)
    requires tx.payload.Transfer? && Total(m) < U64_MAX
    requires tx.from != tx.payload.to && ApplyTransaction(m, tx).Ok?
    ensures AccountOf(m, tx.from).balance >= tx.payload.amount + Fee(tx)
    ensures AccountOf(m, tx.payload.to).balance + tx.payload.amount < U64_MAX
  {
    BalanceWithinSum(m, tx.from, {});
    TwoBalancesWithinSum(m, tx.from, tx.payload.to, {});
  }

  /** What the state manager writes. */
  lemma TransferApplied(m: Accounts, tx: Transaction)
    requires tx.payload.Transfer? && Total(m) < U64_MAX
    requires tx.from != tx.payload.to && ApplyTransaction(m, tx).Ok?
    ensures AccountOf(m, tx.from).balance >= tx.payload.amount + Fee(tx)
    ensures AccountOf(m, tx.payload.to).balance + tx.payload.amount < U64_MAX
    ensures ApplyTransaction(m, tx).accounts == m[tx.from := Paid(m, tx)][tx.payload.to := Credited(m, tx)]
  {
    hide Total;
    TransferFits(m, tx);
    var balance, amount := AccountOf(m, tx.payload.to).balance, tx.payload.amount;
    assert WrappingAdd(balance, amount) == balance + amount;
  }

  /** What the overlay of the parallel path holds. */
  lemma TransferOverlay(m: Machine, w: World, tx: Transaction)
    requires Execute(m, tx, w).receipt.success && tx.payload.Transfer? && tx.from != tx.payload.to
    requires AccountOf(w.accounts, tx.from).balance >= tx.payload.amount + Fee(tx)
    requires AccountOf(w.accounts, tx.payload.to).balance + tx.payload.amount < U64_MAX
    ensures Effect(m, tx, w) ==
              Delta(map[tx.from := Paid(w.accounts, tx), tx.payload.to := Credited(w.accounts, tx)], map[], map[])
  {
  }

  /** With no overflow in sight, the overlay of a transfer to someone else is what the state manager writes. */
  lemma TransferWritesAlike(m: Machine, w: World, tx: Transaction)
    requires tx.payload.Transfer? && ValidateBasic(tx).Fine? && Total(w.accounts) < U64_MAX
    requires tx.from != tx.payload.to && ApplyTransaction(w.accounts, tx).Ok?
    ensures Merge(w, Effect(m, tx, w)) == w.(accounts := ApplyTransaction(w.accounts, tx).accounts)
  {
    hide Execute, Effect, ApplyTransaction, Total, ValidateBasic, Paid, Credited, Fee;
    var from, to := tx.from, tx.payload.to;
    TransferFailsAlike(m, w, tx);
    TransferApplied(w.accounts, tx);
    TransferOverlay(m, w, tx);
    var d := Effect(m, tx, w);
    assert w.accounts + d.accounts == w.accounts[from := Paid(w.accounts, tx)][to := Credited(w.accounts, tx)];
    assert w.storage + map[] == w.storage && map[] + w.registry == w.registry;
  }

  /** One transaction, whether it succeeds or not. */
  lemma TransferIsApplied(m: Machine, w: World, tx: Transaction)
    requires tx.payload.Transfer? && ValidateBasic(tx).Fine? && Total(w.accounts) < U64_MAX && tx.from != tx.payload.to
    ensures Merge(w, Effect(m, tx, w)) ==
              w.(accounts := match ApplyTransaction(w.accounts, tx) case Ok(m') => m' case Err(_) => w.accounts)
    ensures Execute(m, tx, w).receipt.success <==> ApplyTransaction(w.accounts, tx).Ok?
  {
    hide Execute, ApplyTransaction;
    TransferFailsAlike(m, w, tx);
    if ApplyTransaction(w.accounts, tx).Ok? {
      TransferWritesAlike(m, w, tx);
    } else {
      assert Effect(m, tx, w) == NO_DELTA;
      assert w.accounts + map[] == w.accounts && w.storage + map[] == w.storage && map[] + w.registry == w.registry;
    }
  }

  /** The two paths agree on a successful transfer exactly when it is not to oneself. */
  lemma {:induction false} PathsAgreeExactly(m: Machine, w: World, tx: Transaction)
    requires tx.payload.Transfer? && ValidateBasic(tx).Fine? && Total(w.accounts) < U64_MAX
    requires ApplyTransaction(w.accounts, tx).Ok?
    ensures Merge(w, Effect(m, tx, w)).accounts == ApplyTransaction(w.accounts, tx).accounts <==>
              tx.from != tx.payload.to
  {
    if tx.from != tx.payload.to {
      TransferWritesAlike(m, w, tx);
    } else {
      var a, fee, amount := tx.from, SaturatingMul(tx.gasLimit, tx.gasPrice), tx.payload.amount;
      BalanceWithinSum(w.accounts, a, {});
      TransferFailsAlike(m, w, tx);
      var balance := AccountOf(w.accounts, a).balance;
      assert Effect(m, tx, w).accounts[a].balance == balance - amount - fee;
      assert ApplyTransaction(w.accounts, tx).accounts[a].balance == balance - fee;
    }
  }

  lemma ApplyKeepsTotal(m: Accounts, tx: Transaction)
    requires tx.payload.Transfer? && tx.from != tx.payload.to && Total(m) < U64_MAX
    ensures var r := ApplyTransaction(m, tx); r.Ok? ==> Total(r.accounts) <= Total(m)
  {
    var r := ApplyTransaction(m, tx);
    if r.Ok? {
      var sender, to := AccountOf(m, tx.from), tx.payload.to;
      var total := SaturatingAdd(tx.payload.amount, Fee(tx));
      BalanceWithinSum(m, tx.from, {});
      TwoBalancesWithinSum(m, tx.from, to, {});
      var paid := Account(sender.balance - total, WrappingAdd(sender.nonce, 1));
      SumUpdate(m, tx.from, paid, {});
      var m1 := m[tx.from := paid];
      SumUpdate(m1, to, r.accounts[to], {});
    }
  }

  // ---- a whole list ------------------------------------------------------------------------------

  lemma {:induction false} ApplyAllKeepsTotal(m: Accounts, txs: seq<Transaction>)
    requires PlainTransfers(txs) && Total(m) < U64_MAX
    ensures Total(ApplyAll(m, txs)) <= Total(m)
  {
    hide ApplyTransaction, Total;
    if txs != [] {
      ApplyAllKeepsTotal(m, txs[..|txs| - 1]);
      ApplyKeepsTotal(ApplyAll(m, txs[..|txs| - 1]), txs[|txs| - 1]);
    }
  }

  /** Receipt `i` names transaction `i` and reports what the state manager answers to it. */
  ghost predicate ReceiptsMatch(h: Hashing, m: Accounts, txs: seq<Transaction>, receipts: seq<Receipt>) {
    && |receipts| == |txs|
    && forall i :: 0 <= i < |txs| ==> Reports(h, ApplyAll(m, txs[..i]), txs[i], receipts[i])
  }

  ghost predicate Reports(h: Hashing, m: Accounts, tx: Transaction, receipt: Receipt) {
    receipt.txHash == h.txHash(tx) && (receipt.success <==> ApplyTransaction(m, tx).Ok?)
  }

  lemma NoReceipts(h: Hashing, m: Accounts)
    ensures ReceiptsMatch(h, m, [], [])
  {
  }

  lemma ReceiptsMatchSnoc(h: Hashing, m: Accounts, txs: seq<Transaction>, receipts: seq<Receipt>,
                          tx: Transaction, r: Receipt)
    requires ReceiptsMatch(h, m, txs, receipts) && Reports(h, ApplyAll(m, txs), tx, r)
    ensures ReceiptsMatch(h, m, txs + [tx], receipts + [r])
  {
    hide Reports, ApplyAll;
    var all := txs + [tx];
    forall i | 0 <= i < |all|
      ensures Reports(h, ApplyAll(m, all[..i]), all[i], (receipts + [r])[i])
    {
      assert all[..i] == txs[..i];
      if i == |txs| {
        assert txs[..i] == txs;
      }
    }
  }

  /** Running the overlay code one transaction at a time is folding the state manager over them. */
  lemma {:induction false} SerialIsApplyAll(m: Machine, w: World, txs: seq<Transaction>)
    requires PlainTransfers(txs) && Total(w.accounts) < U64_MAX
    ensures Serial(m, w, txs).world == w.(accounts := ApplyAll(w.accounts, txs))
    ensures ReceiptsMatch(m.hashing, w.accounts, txs, Serial(m, w, txs).receipts)
  {
    hide Execute, Effect, ApplyTransaction, Total, Merge, ValidateBasic, ReceiptsMatch;
    if txs == [] {
      NoReceipts(m.hashing, w.accounts);
    } else {
      var init, tx := txs[..|txs| - 1], txs[|txs| - 1];
      SerialIsApplyAll(m, w, init);
      ApplyAllKeepsTotal(w.accounts, init);
      var before := Serial(m, w, init).world;
      TransferIsApplied(m, before, tx);
      ReceiptNamesTransaction(m, tx, before);
      ReceiptsMatchSnoc(m.hashing, w.accounts, init, Serial(m, w, init).receipts, tx, Execute(m, tx, before).receipt);
      assert txs == init + [tx];
    }
  }

  // ---- the schedule of one sender's transactions ---------------------------------------------------

  lemma OneSenderConflicts(h: Hashing, from: Address, txs: seq<Transaction>, i: nat, j: nat)
    requires FromOneSender(from, txs)
    ensures Adjacent(h, txs, i, j) <==> i < |txs| && j < |txs| && i != j
  {
    if i < |txs| && j < |txs| && i != j {
      assert AccountKey(from) in AnalyzeAccess(h, txs[i]).writeSet * AnalyzeAccess(h, txs[j]).writeSet;
    }
  }

  /** All positions conflict, so all colours differ. */
  lemma OneSenderColorsDiffer(h: Hashing, from: Address, txs: seq<Transaction>, colors: seq<nat>)
    requires FromOneSender(from, txs) && Greedy(h, txs, colors)
    ensures NoRepeats(colors)
  {
    hide FromOneSender, Greedy;
    GreedyLength(h, txs, colors);
    forall i, j | 0 <= i < j < |colors|
      ensures colors[i] != colors[j]
    {
      OneSenderConflicts(h, from, txs, i, j);
      GreedyIsProper(h, txs, colors, i, j);
    }
  }

  lemma {:induction false} DistinctColorsKeepOrder(colors: seq<nat>)
    requires NoRepeats(colors)
    ensures ColorOrder(colors) == colors
  {
    if colors != [] {
      var init := colors[..|colors| - 1];
      DistinctColorsKeepOrder(init);
      assert colors == init + [colors[|colors| - 1]];
      assert colors[|colors| - 1] !in init;
    }
  }

  lemma {:induction false} UnusedColorIsEmpty(txs: seq<Transaction>, colors: seq<nat>, c: nat)
    requires |colors| == |txs| && c !in colors
    ensures ColorClass(txs, colors, c) == []
  {
    if txs != [] {
      var n := |txs| - 1;
      UnusedColorIsEmpty(txs[..n], colors[..n], c);
    }
  }

  lemma {:induction false} DistinctColorIsSingleton(txs: seq<Transaction>, colors: seq<nat>, i: nat)
    requires |colors| == |txs| && NoRepeats(colors) && i < |txs|
    ensures ColorClass(txs, colors, colors[i]) == [txs[i]]
  {
    var n := |txs| - 1;
    if i == n {
      UnusedColorIsEmpty(txs[..n], colors[..n], colors[n]);
    } else {
      DistinctColorIsSingleton(txs[..n], colors[..n], i);
      assert colors[..n][i] == colors[i] && txs[..n][i] == txs[i];
    }
  }

  function Singletons(txs: seq<Transaction>): seq<seq<Transaction>> {
    seq(|txs|, i requires 0 <= i < |txs| => [txs[i]])
  }

  lemma {:induction false} FlattenSingletons(txs: seq<Transaction>)
    ensures Flatten(Singletons(txs)) == txs
  {
    if txs != [] {
      var n := |txs| - 1;
      FlattenSingletons(txs[..n]);
      assert Singletons(txs)[..n] == Singletons(txs[..n]);
      assert txs == txs[..n] + [txs[n]];
    }
  }

  /** One sender's transactions run one per batch, in the original order. */
  lemma OneSenderKeepsOrder(h: Hashing, from: Address, txs: seq<Transaction>, colors: seq<nat>)
    requires FromOneSender(from, txs) && Greedy(h, txs, colors)
    ensures |colors| == |txs| && Batches(txs, colors) == Singletons(txs)
  {
    hide Greedy, FromOneSender;
    GreedyLength(h, txs, colors);
    OneSenderColorsDiffer(h, from, txs, colors);
    DistinctColorsKeepOrder(colors);
    forall i | 0 <= i < |txs|
      ensures Batches(txs, colors)[i] == [txs[i]]
    {
      DistinctColorIsSingleton(txs, colors, i);
    }
  }

  lemma {:induction false} SingletonBatchesAreSerial(m: Machine, w: World, txs: seq<Transaction>)
    ensures Parallel(m, w, Singletons(txs)) == Serial(m, w, txs)
  {
    hide Execute, Effect, Merge;
    if txs != [] {
      var n := |txs| - 1;
      SingletonBatchesAreSerial(m, w, txs[..n]);
      assert Singletons(txs)[..n] == Singletons(txs[..n]);
      SingletonMerge(m, Serial(m, w, txs[..n]).world, txs[n]);
    }
  }

  lemma SingletonMerge(m: Machine, w: World, tx: Transaction)
    ensures MergeAll(m, w, [tx]) == Merge(w, Effect(m, tx, w))
    ensures ReceiptsOn(m, w, [tx]) == [Execute(m, tx, w).receipt]
  {
    hide Execute, Effect, Merge;
    assert [tx][..0] == [];
    MergeAllOfNone(m, w);
  }

  lemma MergeAllOfNone(m: Machine, w: World)
    ensures MergeAll(m, w, []) == w && ReceiptsOn(m, w, []) == []
  {
  }

  /**
    For any block of validated transfers from one sender to others, with the sum of all balances
    below the 64-bit limit, parallel execution equals folding the state manager over the transactions
    in their original order, skipping failures; receipt `i` reports the outcome of transaction `i`.
   */
  lemma {:induction false} OneSenderParallelIsSequential(m: Machine, from: Address, w: World, txs: seq<Transaction>,
                                                         colors: seq<nat>, orders: seq<seq<Transaction>>)
    requires FromOneSender(from, txs) && Total(w.accounts) < U64_MAX
    requires Greedy(m.hashing, txs, colors) && |orders| == |Batches(txs, colors)|
    requires forall b :: 0 <= b < |orders| ==> ByHash(m, Batches(txs, colors)[b], orders[b])
    ensures Parallel(m, w, orders).world == w.(accounts := ApplyAll(w.accounts, txs))
    ensures ReceiptsMatch(m.hashing, w.accounts, txs, Parallel(m, w, orders).receipts)
  {
    hide Greedy, PlainTransfers, Total, Parallel, Serial, ReceiptsMatch;
    OneSenderKeepsOrder(m.hashing, from, txs, colors);
    forall b | 0 <= b < |orders|
      ensures orders[b] == [txs[b]]
    {
      SingletonOrder(txs[b], orders[b]);
    }
    assert orders == Singletons(txs);
    SingletonBatchesAreSerial(m, w, txs);
    SerialIsApplyAll(m, w, txs);
  }

  /**
    For any senders: a block of validated transfers to others, on whose conflicts the batches keep the
    original order, ends as folding the state manager over the transactions in their original order, and
    each transaction's own receipt reports what the state manager answers to it.
   */
  lemma OrderlyTransfersAreSequential(m: Machine, w: World, txs: seq<Transaction>,
                                      colors: seq<nat>, orders: seq<seq<Transaction>>)
    requires PlainTransfers(txs) && Total(w.accounts) < U64_MAX
    requires DistinctHashes(m.hashing, txs) && Greedy(m.hashing, txs, colors) && |orders| == |Batches(txs, colors)|
    requires forall b :: 0 <= b < |orders| ==> ByHash(m, Batches(txs, colors)[b], orders[b])
    requires Orderly(m.hashing, txs)
    ensures Parallel(m, w, orders).world == w.(accounts := ApplyAll(w.accounts, txs))
    ensures exists rs ::
              ReceiptsMatch(m.hashing, w.accounts, txs, rs) && OwnReceipts(m, txs, rs, Parallel(m, w, orders).receipts)
  {
    hide DistinctHashes, Greedy, Batches, PlainTransfers, AllTransfers, Total, Parallel, Serial, Orderly, ReceiptsMatch,
      OwnReceipts, ByHash, Silent, Isolated;
    GreedyLength(m.hashing, txs, colors);
    AllAreTransfers(txs);
    forall b | 0 <= b < |orders| ensures AllTransfers(orders[b]) {
      BatchesOfTransfers(m, txs, colors, orders, b);
    }
    var q := Silent(m);
    SilentKeepsHashing(m, txs, colors, orders);
    SilentIsIsolated(m);
    ParallelIgnoresRuntime(m, w, orders);
    SerialIgnoresRuntime(m, w, txs);
    OrderlyBlockRunsInOriginalOrder(q, w, txs, colors, orders);
    SerialIsApplyAll(m, w, txs);
    SameNames(m, txs, Serial(m, w, txs).receipts, Parallel(m, w, orders).receipts);
  }

  lemma AllAreTransfers(txs: seq<Transaction>)
    requires PlainTransfers(txs)
    ensures AllTransfers(txs)
  {
  }

  lemma SilentKeepsHashing(m: Machine, txs: seq<Transaction>, colors: seq<nat>, orders: seq<seq<Transaction>>)
    requires |colors| == |txs| && |orders| == |Batches(txs, colors)|
    requires forall b :: 0 <= b < |orders| ==> ByHash(m, Batches(txs, colors)[b], orders[b])
    ensures Silent(m).hashing == m.hashing
    ensures forall b :: 0 <= b < |orders| ==> ByHash(Silent(m), Batches(txs, colors)[b], orders[b])
  {
    hide Batches;
  }

  lemma SameNames(m: Machine, txs: seq<Transaction>, rs: seq<Receipt>, others: seq<Receipt>)
    requires OwnReceipts(Silent(m), txs, rs, others)
    ensures OwnReceipts(m, txs, rs, others)
  {
    forall i | 0 <= i < |txs| ensures OwnReceipt(m, txs[i], rs[i], others) {
      assert OwnReceipt(Silent(m), txs[i], rs[i], others);
    }
  }

  lemma SingletonOrder(tx: Transaction, order: seq<Transaction>)
    requires multiset(order) == multiset([tx])
    ensures order == [tx]
  {
    assert |multiset(order)| == |order| == 1;
    assert order[0] in multiset(order);
  }
}
