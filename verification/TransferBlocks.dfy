/**
  Blocks of transfers do not depend on the contract runtime.
 */
module TransferBlocks {
  import opened Transactions
  import opened Scheduling
  import opened Schedulers
  import opened Execution
  import opened Serialisability

  /** The same hashes, and a runtime that starts nothing. */
  ghost function Silent(m: Machine): Machine {
    m.(vm := (c: VmCall, s: Storage) => VmResult(false, false, 0, map[]))
  }

  lemma SilentIsIsolated(m: Machine)
    ensures Isolated(Silent(m))
  {
  }

  ghost predicate AllTransfers(txs: seq<Transaction>) {
    forall i :: 0 <= i < |txs| ==> txs[i].payload.Transfer?
  }

  lemma TransferIgnoresRuntime(m: Machine, tx: Transaction, w: World)
    requires tx.payload.Transfer?
    ensures Execute(m, tx, w) == Execute(Silent(m), tx, w)
  {
  }

  lemma {:induction false} SerialIgnoresRuntime(m: Machine, w: World, txs: seq<Transaction>)
    requires AllTransfers(txs)
    ensures Serial(m, w, txs) == Serial(Silent(m), w, txs)
  {
    hide Execute, Merge, Silent;
    if txs != [] {
      var n := |txs| - 1;
      SerialIgnoresRuntime(m, w, txs[..n]);
      TransferIgnoresRuntime(m, txs[n], Serial(m, w, txs[..n]).world);
    }
  }

  lemma {:induction false} BatchIgnoresRuntime(m: Machine, w: World, txs: seq<Transaction>)
    requires AllTransfers(txs)
    ensures MergeAll(m, w, txs) == MergeAll(Silent(m), w, txs)
    ensures ReceiptsOn(m, w, txs) == ReceiptsOn(Silent(m), w, txs)
  {
    hide Execute, Merge, Silent;
    if txs != [] {
      var n := |txs| - 1;
      BatchIgnoresRuntime(m, w, txs[..n]);
      TransferIgnoresRuntime(m, txs[n], w);
    }
  }

  lemma {:induction false} ParallelIgnoresRuntime(m: Machine, w: World, orders: seq<seq<Transaction>>)
    requires forall b :: 0 <= b < |orders| ==> AllTransfers(orders[b])
    ensures Parallel(m, w, orders) == Parallel(Silent(m), w, orders)
  {
    hide AllTransfers, MergeAll, ReceiptsOn, Silent;
    if orders != [] {
      var n := |orders| - 1;
      ParallelIgnoresRuntime(m, w, orders[..n]);
      BatchIgnoresRuntime(m, Parallel(m, w, orders[..n]).world, orders[n]);
    }
  }

  /** The members of a batch are transfers if all transactions of the block are. */
  lemma BatchesOfTransfers(m: Machine, txs: seq<Transaction>, colors: seq<nat>, orders: seq<seq<Transaction>>, b: nat)
    requires AllTransfers(txs) && |colors| == |txs| && |orders| == |Batches(txs, colors)| && b < |orders|
    requires ByHash(m, Batches(txs, colors)[b], orders[b])
    ensures AllTransfers(orders[b])
  {
    hide ColorClass;
    var batch := Batches(txs, colors)[b];
    forall i | 0 <= i < |orders[b]|
      ensures orders[b][i].payload.Transfer?
    {
      assert orders[b][i] in multiset(batch);
      ClassMembers(txs, colors, ColorOrder(colors)[b], orders[b][i]);
    }
  }
}
