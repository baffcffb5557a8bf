/**
  The parallel executor's code (src/execution/parallel_executor.rs): overlays written in
  place, one per transaction, merged into the ledger batch by batch.

  The worker threads are modelled as independent computations on one base state.
 */
module ParallelExecutors {
  import opened Collections
  import opened Transactions
  import opened Scheduling
  import opened Schedulers
  import opened Execution
  import opened Serialisability

  class Overlay {
    var accounts: Accounts
    var storage: Storage
    var registry: Registry

    constructor ()
      ensures View() == NO_DELTA
    {
      accounts, storage, registry := map[], map[], map[];
    }

    function View(): Delta
      reads this
    {
      Delta(accounts, storage, registry)
    }

    method Read(a: Address, base: World) returns (acc: Account)
      ensures acc == ReadAccount(View(), base, a)
    {
      if a in accounts {
        acc := accounts[a];
      } else if a in base.accounts {
        acc := base.accounts[a];
      } else {
        acc := Account(0, 0);
      }
    }

    method Write(a: Address, acc: Account)
      modifies this`accounts
      ensures View() == WriteAccount(old(View()), a, acc)
    {
      accounts := accounts[a := acc];
    }

    method WriteStorage(written: Storage)
      modifies this`storage
      ensures storage == old(storage) + written
    {
      storage := storage + written;
    }
  }

  /** Accounts, contract storage and contract registry. */
  class Ledger {
    var world: World

    constructor (world: World)
      ensures this.world == world
    {
      this.world := world;
    }

    /** Account writes, then storage writes, then registrations; the order within each does not matter. */
    method MergeOverlay(d: Delta)
      modifies this
      ensures world == Merge(old(world), d)
    {
      var accounts := WriteEntries(world.accounts, d.accounts);
      var storage := WriteEntries(world.storage, d.storage);
      var registry := RegisterNew(world.registry, d.registry);
      world := World(accounts, storage, registry);
    }
  }

  /** Writes the entries of `d` one by one, in any order. */
  method WriteEntries<K, V>(m: map<K, V>, d: map<K, V>) returns (r: map<K, V>)
    ensures r == m + d
  {
    r := m;
    var rest := d.Keys;
    while rest != {}
      invariant rest <= d.Keys && r.Keys == m.Keys + (d.Keys - rest)
      invariant forall k :: k in r ==> r[k] == if k in d && k !in rest then d[k] else m[k]
      decreases rest
    {
      var k :| k in rest;
      r := r[k := d[k]];
      rest := rest - {k};
    }
    assert r.Keys == (m + d).Keys;
  }

  /** Registers the contracts of `d` that are not registered yet. */
  method RegisterNew(registry: Registry, d: Registry) returns (r: Registry)
    ensures r == d + registry
  {
    r := registry;
    var rest := d.Keys;
    while rest != {}
      invariant rest <= d.Keys && r.Keys == registry.Keys + (d.Keys - rest)
      invariant forall a :: a in r ==> r[a] == if a in registry then registry[a] else d[a]
      decreases rest
    {
      var a :| a in rest;
      if a !in r {
        r := r[a := d[a]];
      }
      rest := rest - {a};
    }
    assert r.Keys == (d + registry).Keys;
  }

  method ChargeFee(acc: Account, price: u64, used: u64) returns (ok: bool, charged: Account)
    ensures ok <==> acc.balance >= SaturatingMul(used, price)
    ensures ok ==> charged == acc.(balance := acc.balance - SaturatingMul(used, price))
  {
    var fee := SaturatingMul(used, price);
    if acc.balance < fee {
      return false, acc;
    }
    return true, acc.(balance := SaturatingSub(acc.balance, fee));
  }

  /** Runs one transaction; all writes go to `overlay`. */
  method ExecuteTransaction(m: Machine, tx: Transaction, overlay: Overlay, base: World) returns (receipt: Receipt)
    requires overlay.View() == NO_DELTA
    modifies overlay
    ensures receipt == Execute(m, tx, base).receipt
    ensures overlay.View() == Execute(m, tx, base).delta
  {
    hide SaturatingAdd, SaturatingMul, WrappingAdd;
    receipt := Receipt(m.hashing.txHash(tx), false, 0, None);
    var v := ValidateBasic(tx);
    if v.Bad? {
      return receipt.(error := Some(v.error));
    }
    var sender := overlay.Read(tx.from, base);
    if sender.nonce != tx.nonce {
      return receipt.(error := Some(BadNonce));
    }
    match tx.payload {
      case Transfer(to, amount) =>
        var total := SaturatingAdd(amount, SaturatingMul(tx.gasLimit, tx.gasPrice));
        if sender.balance < total {
          return receipt.(error := Some(InsufficientBalance));
        }
        sender := Account(SaturatingSub(sender.balance, amount), WrappingAdd(sender.nonce, 1));
        overlay.Write(tx.from, sender);
        var receiver := overlay.Read(to, base);
        overlay.Write(to, receiver.(balance := SaturatingAdd(receiver.balance, amount)));
        var ok, charged := ChargeFee(sender, tx.gasPrice, tx.gasLimit);
        if !ok {
          return receipt.(error := Some(InsufficientForFee));
        }
        overlay.Write(tx.from, charged);
        receipt := receipt.(success := true, gasUsed := tx.gasLimit);
      case Deploy(code, _) =>
        var a := m.hashing.codeAddress(code);
        var r := m.vm(VmCall(a, tx.from, code, "init", tx.gasLimit), base.storage);
        if !r.started {
          return receipt.(error := Some(VmRejected));
        }
        overlay.WriteStorage(r.written);
        var ok, charged := ChargeFee(sender, tx.gasPrice, r.gasUsed);
        if !ok {
          return receipt.(error := Some(InsufficientForFee));
        }
        overlay.Write(tx.from, charged.(nonce := WrappingAdd(charged.nonce, 1)));
        if !r.ok {
          return receipt.(error := Some(VmFailed));
        }
        overlay.registry := overlay.registry[a := code];
        overlay.Write(a, Account(0, 0));
        receipt := receipt.(success := true, gasUsed := r.gasUsed);
      case Call(c, entry, _) =>
        if c !in base.registry {
          return receipt.(error := Some(ContractNotFound));
        }
        var r := m.vm(VmCall(c, tx.from, base.registry[c], entry, tx.gasLimit), base.storage);
        if !r.started {
          return receipt.(error := Some(VmRejected));
        }
        overlay.WriteStorage(r.written);
        var ok, charged := ChargeFee(sender, tx.gasPrice, r.gasUsed);
        if !ok {
          return receipt.(error := Some(InsufficientForFee));
        }
        overlay.Write(tx.from, charged.(nonce := WrappingAdd(charged.nonce, 1)));
        if !r.ok {
          return receipt.(error := Some(VmFailed));
        }
        receipt := receipt.(success := true, gasUsed := r.gasUsed);
    }
  }

  /** What one worker hands back. */
  datatype Task = Task(tx: Transaction, outcome: Outcome)

  ghost predicate Finished(m: Machine, base: World, tasks: seq<Task>) {
    forall i :: 0 <= i < |tasks| ==> tasks[i].outcome == Execute(m, tasks[i].tx, base)
  }

  function TxsOf(tasks: seq<Task>): seq<Transaction> {
    seq(|tasks|, i requires 0 <= i < |tasks| => tasks[i].tx)
  }

  ghost predicate HashesAscend(m: Machine, tasks: seq<Task>) {
    forall i, j :: 0 <= i < j < |tasks| ==> m.hashing.txHash(tasks[i].tx) <= m.hashing.txHash(tasks[j].tx)
  }

  lemma TxsOfInsert(a: seq<Task>, t: Task, b: seq<Task>)
    ensures multiset(TxsOf(a + [t] + b)) == multiset(TxsOf(a + b)) + multiset{t.tx}
  {
    assert TxsOf(a + [t] + b) == TxsOf(a) + [t.tx] + TxsOf(b);
    assert TxsOf(a + b) == TxsOf(a) + TxsOf(b);
  }

  method InsertByHash(m: Machine, ghost base: World, sorted: seq<Task>, t: Task) returns (r: seq<Task>)
    requires Finished(m, base, sorted) && HashesAscend(m, sorted) && t.outcome == Execute(m, t.tx, base)
    ensures Finished(m, base, r) && HashesAscend(m, r)
    ensures multiset(TxsOf(r)) == multiset(TxsOf(sorted)) + multiset{t.tx}
  {
    hide Execute, Finished, TxsOf;
    var j := |sorted|;
    while j > 0 && m.hashing.txHash(sorted[j - 1].tx) > m.hashing.txHash(t.tx)
      invariant 0 <= j <= |sorted|
      invariant forall x :: j <= x < |sorted| ==> m.hashing.txHash(t.tx) <= m.hashing.txHash(sorted[x].tx)
    {
      j := j - 1;
    }
    r := sorted[..j] + [t] + sorted[j..];
    InsertedAscends(m, sorted, t, j);
    InsertedFinished(m, base, sorted, t, j);
  }

  lemma InsertedAscends(m: Machine, sorted: seq<Task>, t: Task, j: nat)
    requires HashesAscend(m, sorted)
    requires j <= |sorted| && (j > 0 ==> m.hashing.txHash(sorted[j - 1].tx) <= m.hashing.txHash(t.tx))
    requires forall x :: j <= x < |sorted| ==> m.hashing.txHash(t.tx) <= m.hashing.txHash(sorted[x].tx)
    ensures HashesAscend(m, sorted[..j] + [t] + sorted[j..])
  {
    var r := sorted[..j] + [t] + sorted[j..];
    assert forall a :: 0 <= a < j ==> r[a] == sorted[a];
    assert forall a :: j < a < |r| ==> r[a] == sorted[a - 1];
    assert r[j] == t;
    forall a, b | 0 <= a < b < |r|
      ensures m.hashing.txHash(r[a].tx) <= m.hashing.txHash(r[b].tx)
    {
      if b == j && a < j - 1 {
        assert m.hashing.txHash(sorted[a].tx) <= m.hashing.txHash(sorted[j - 1].tx);
      }
    }
  }

  lemma InsertedFinished(m: Machine, base: World, sorted: seq<Task>, t: Task, j: nat)
    requires Finished(m, base, sorted) && t.outcome == Execute(m, t.tx, base) && j <= |sorted|
    ensures Finished(m, base, sorted[..j] + [t] + sorted[j..])
    ensures multiset(TxsOf(sorted[..j] + [t] + sorted[j..])) == multiset(TxsOf(sorted)) + multiset{t.tx}
  {
    hide Execute, TxsOf;
    assert sorted == sorted[..j] + sorted[j..];
    TxsOfInsert(sorted[..j], t, sorted[j..]);
  }

  /** Sorts the results of a batch by transaction hash. */
  method SortByHash(m: Machine, ghost base: World, tasks: seq<Task>) returns (sorted: seq<Task>)
    requires Finished(m, base, tasks)
    ensures Finished(m, base, sorted) && ByHash(m, TxsOf(tasks), TxsOf(sorted))
  {
    hide Execute;
    sorted := [];
    for i := 0 to |tasks|
      invariant Finished(m, base, sorted) && HashesAscend(m, sorted)
      invariant multiset(TxsOf(sorted)) == multiset(TxsOf(tasks[..i]))
    {
      assert TxsOf(tasks[..i + 1]) == TxsOf(tasks[..i]) + [tasks[i].tx];
      sorted := InsertByHash(m, base, sorted, tasks[i]);
    }
    assert tasks[..|tasks|] == tasks;
  }

  /** All members of a batch on the same base. */
  method RunBatch(m: Machine, batch: seq<Transaction>, base: World) returns (tasks: seq<Task>)
    ensures Finished(m, base, tasks) && TxsOf(tasks) == batch
  {
    hide Execute;
    tasks := [];
    for i := 0 to |batch|
      invariant Finished(m, base, tasks) && TxsOf(tasks) == batch[..i]
    {
      var overlay := new Overlay();
      var receipt := ExecuteTransaction(m, batch[i], overlay, base);
      var task := Task(batch[i], Outcome(receipt, overlay.View()));
      assert TxsOf(tasks + [task]) == TxsOf(tasks) + [batch[i]];
      assert batch[..i + 1] == batch[..i] + [batch[i]];
      tasks := tasks + [task];
    }
    assert batch[..|batch|] == batch;
  }

  /** Merges the successful ones in hash order and hands out all receipts in that order. */
  method MergeBatch(m: Machine, tasks: seq<Task>, ledger: Ledger) returns (receipts: seq<Receipt>)
    requires Finished(m, ledger.world, tasks)
    modifies ledger
    ensures ledger.world == MergeAll(m, old(ledger.world), TxsOf(tasks))
    ensures receipts == ReceiptsOn(m, old(ledger.world), TxsOf(tasks))
  {
    hide Execute, Merge;
    ghost var base := ledger.world;
    receipts := [];
    for i := 0 to |tasks|
      invariant ledger.world == MergeAll(m, base, TxsOf(tasks[..i]))
      invariant receipts == ReceiptsOn(m, base, TxsOf(tasks[..i]))
    {
      assert TxsOf(tasks[..i + 1])[..i] == TxsOf(tasks[..i]);
      MergeNothing(ledger.world);
      if tasks[i].outcome.receipt.success {
        ledger.MergeOverlay(tasks[i].outcome.delta);
      }
      receipts := receipts + [tasks[i].outcome.receipt];
    }
    assert tasks[..|tasks|] == tasks;
  }

  lemma MergeNothing(w: World)
    ensures Merge(w, NO_DELTA) == w
  {
    assert w.accounts + map[] == w.accounts && w.storage + map[] == w.storage && map[] + w.registry == w.registry;
  }

  /**
    The entry point.  The final ledger is that of a one-at-a-time run of the batches in order, and
    each transaction's receipt is the one it gets in that run.
   */
  method ExecuteBlockTransactionsParallel(m: Machine, txs: seq<Transaction>, ledger: Ledger)
    returns (receipts: seq<Receipt>, ghost colors: seq<nat>, ghost orders: seq<seq<Transaction>>)
    requires DistinctHashes(m.hashing, txs)
    modifies ledger
    ensures Greedy(m.hashing, txs, colors)
    ensures |orders| == |Batches(txs, colors)|
    ensures forall b :: 0 <= b < |orders| ==> ByHash(m, Batches(txs, colors)[b], orders[b])
    ensures Run(ledger.world, receipts) == Parallel(m, old(ledger.world), orders)
    ensures Isolated(m) ==>
              var serial := Serial(m, old(ledger.world), Flatten(Batches(txs, colors)));
              ledger.world == serial.world && OwnReceipts(m, Flatten(Batches(txs, colors)), serial.receipts, receipts)
  {
    hide *;
    var batches;
    batches, colors := ScheduleParallelBatches(m.hashing, txs);
    ghost var w := ledger.world;
    receipts, orders := [], [];
    ParallelOfNone(m, w);
    for b := 0 to |batches|
      invariant |orders| == b
      invariant forall i :: 0 <= i < b ==> ByHash(m, batches[i], orders[i])
      invariant Run(ledger.world, receipts) == Parallel(m, w, orders)
    {
      var tasks := RunBatch(m, batches[b], ledger.world);
      ghost var base := ledger.world;
      var sorted := SortByHash(m, base, tasks);
      var more := MergeBatch(m, sorted, ledger);
      ParallelSnoc(m, w, orders, TxsOf(sorted));
      receipts := receipts + more;
      orders := orders + [TxsOf(sorted)];
    }
    if Isolated(m) {
      RearrangesItself(batches);
      ScheduledBlockIsSerial(m, w, txs, colors, orders, batches);
    }
  }

  lemma RearrangesItself(batches: seq<seq<Transaction>>)
    ensures Rearranges(batches, batches)
  {
  }

  lemma ParallelOfNone(m: Machine, w: World)
    ensures Parallel(m, w, []) == Run(w, [])
  {
  }

  lemma ParallelSnoc(m: Machine, w: World, orders: seq<seq<Transaction>>, order: seq<Transaction>)
    ensures var before := Parallel(m, w, orders);
            Parallel(m, w, orders + [order]) ==
            Run(MergeAll(m, before.world, order), before.receipts + ReceiptsOn(m, before.world, order))
  {
    assert (orders + [order])[..|orders|] == orders;
  }

  /**
    For any block with distinct transaction hashes and any order of the members within each batch,
    the parallel run equals the one-at-a-time run of the batches in that order.
   */
  lemma ScheduledBlockIsSerial(m: Machine, w: World, txs: seq<Transaction>, colors: seq<nat>,
                               orders: seq<seq<Transaction>>, serial: seq<seq<Transaction>>)
    requires Isolated(m) && DistinctHashes(m.hashing, txs) && Greedy(m.hashing, txs, colors)
    requires |orders| == |Batches(txs, colors)| && Rearranges(Batches(txs, colors), serial)
    requires forall b :: 0 <= b < |orders| ==> ByHash(m, Batches(txs, colors)[b], orders[b])
    ensures Parallel(m, w, orders).world == Serial(m, w, Flatten(serial)).world
    ensures OwnReceipts(m, Flatten(serial), Serial(m, w, Flatten(serial)).receipts, Parallel(m, w, orders).receipts)
  {
    hide Isolated, DistinctHashes, Greedy, Independent, Parallel, Serial, ColorOrder, ColorClass, OwnReceipts, Flatten;
    GreedyLength(m.hashing, txs, colors);
    forall b | 0 <= b < |Batches(txs, colors)|
      ensures Independent(m.hashing, Batches(txs, colors)[b])
    {
      BatchesAreIndependent(m.hashing, txs, colors, b);
    }
    BlockIsSerial(m, w, Batches(txs, colors), orders, serial);
    FlattenRearranged(Batches(txs, colors), serial);
    BatchesPartition(txs, colors);
    DistinctHashesPermute(m.hashing, txs, Flatten(serial));
    ReceiptsAreOwn(m, w, Flatten(serial), Parallel(m, w, orders).receipts);
  }

  lemma {:induction false} FlattenRearranged(batches: seq<seq<Transaction>>, orders: seq<seq<Transaction>>)
    requires Rearranges(batches, orders)
    ensures multiset(Flatten(batches)) == multiset(Flatten(orders))
    decreases |batches|
  {
    if batches != [] {
      var n := |batches| - 1;
      FlattenRearranged(batches[..n], orders[..n]);
    }
  }
}
