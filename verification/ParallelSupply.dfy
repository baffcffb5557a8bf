/**
  What a block executed in parallel does to the supply: it never rises, and what leaves it is
  accounted for - fees, amounts lost in self-transfers, and balances overwritten by deployments.
 */
module ParallelSupply {
  import opened Transactions
  import opened Balances
  import opened Ledgers
  import opened Scheduling
  import opened Schedulers
  import opened Execution
  import opened Serialisability
  import opened ParallelExecutors

  /** No account that the transaction writes is the emission account. */
  ghost predicate SparesEmission(m: Machine, tx: Transaction) {
    && tx.from != EMISSION_ACCOUNT
    && match tx.payload
       case Transfer(to, _) => to != EMISSION_ACCOUNT
       case Deploy(code, _) => m.hashing.codeAddress(code) != EMISSION_ACCOUNT
       case Call(_, _, _) => true
  }

  ghost predicate AllSpareEmission(m: Machine, txs: seq<Transaction>) {
    forall i :: 0 <= i < |txs| ==> SparesEmission(m, txs[i])
  }

  /** The fee that a receipt reports; nothing for a failure. */
  function ReceiptFee(tx: Transaction, receipt: Receipt): nat {
    SaturatingMul(receipt.gasUsed, tx.gasPrice)
  }

  /** What a successful transaction destroys beyond its fee. */
  ghost function Lost(m: Machine, tx: Transaction, w: World): nat {
    var receipt := Execute(m, tx, w).receipt;
    if !receipt.success then 0
    else match tx.payload
      case Transfer(to, amount) => if to == tx.from then amount else 0
      case Deploy(code, _) =>
        var a := m.hashing.codeAddress(code);
        var held: nat := AccountOf(w.accounts, a).balance;
        if a != tx.from then held else if held < ReceiptFee(tx, receipt) then 0 else held - ReceiptFee(tx, receipt)
      case Call(_, _, _) => 0
  }

  /** Writing two accounts changes the supply by the two differences. */
  lemma SupplyAfterTwo(m: Accounts, a: Address, x: Account, b: Address, y: Account)
    requires a != b && a != EMISSION_ACCOUNT && b != EMISSION_ACCOUNT
    ensures Supply(m + map[a := x, b := y]) + AccountOf(m, a).balance + AccountOf(m, b).balance
         == Supply(m) + x.balance + y.balance
  {
    SumUpdate(m, a, x, {EMISSION_ACCOUNT});
    SumUpdate(m[a := x], b, y, {EMISSION_ACCOUNT});
    assert m + map[a := x, b := y] == m[a := x][b := y];
  }

  lemma SupplyAfterOne(m: Accounts, a: Address, x: Account)
    requires a != EMISSION_ACCOUNT
    ensures Supply(m + map[a := x]) + AccountOf(m, a).balance == Supply(m) + x.balance
  {
    SumUpdate(m, a, x, {EMISSION_ACCOUNT});
    assert m + map[a := x] == m[a := x];
  }

  lemma NothingWritten(m: Accounts)
    ensures m + map[] == m
  {
  }

  lemma TransferBurns(m: Machine, tx: Transaction, w: World)
    requires tx.payload.Transfer? && SparesEmission(m, tx) && Supply(w.accounts) < U64_MAX
    requires ExecuteTransfer(m, tx, w).receipt.success
    ensures var o := ExecuteTransfer(m, tx, w);
            Supply(w.accounts) == Supply(w.accounts + o.delta.accounts) + ReceiptFee(tx, o.receipt)
                                  + (if tx.payload.to == tx.from then tx.payload.amount else 0)
  {
    hide Supply, SaturatingMul;
    var from, to, amount := tx.from, tx.payload.to, tx.payload.amount;
    var d := ExecuteTransfer(m, tx, w).delta.accounts;
    BalanceWithin(w.accounts, from);
    if from == to {
      SupplyAfterOne(w.accounts, from, d[from]);
      assert d == map[from := d[from]];
    } else {
      TwoBalancesWithin(w.accounts, from, to);
      SupplyAfterTwo(w.accounts, from, d[from], to, d[to]);
      assert d == map[from := d[from], to := d[to]];
    }
  }

  lemma BalanceWithin(m: Accounts, a: Address)
    requires a != EMISSION_ACCOUNT
    ensures AccountOf(m, a).balance <= Supply(m)
  {
    BalanceWithinSum(m, a, {EMISSION_ACCOUNT});
  }

  lemma TwoBalancesWithin(m: Accounts, a: Address, b: Address)
    requires a != b && a != EMISSION_ACCOUNT && b != EMISSION_ACCOUNT
    ensures AccountOf(m, a).balance + AccountOf(m, b).balance <= Supply(m)
  {
    TwoBalancesWithinSum(m, a, b, {EMISSION_ACCOUNT});
  }

  lemma DeployBurns(m: Machine, tx: Transaction, w: World)
    requires tx.payload.Deploy? && SparesEmission(m, tx) && ExecuteDeploy(m, tx, w).receipt.success
    ensures var o, a := ExecuteDeploy(m, tx, w), m.hashing.codeAddress(tx.payload.code);
            if a == tx.from then
              && AccountOf(w.accounts, a).balance >= ReceiptFee(tx, o.receipt)
              && Supply(w.accounts) == Supply(w.accounts + o.delta.accounts) + AccountOf(w.accounts, a).balance
            else
              Supply(w.accounts) == Supply(w.accounts + o.delta.accounts) + ReceiptFee(tx, o.receipt)
                                    + AccountOf(w.accounts, a).balance
  {
    hide Supply, SaturatingMul, WrappingAdd;
    var a := m.hashing.codeAddress(tx.payload.code);
    var d := ExecuteDeploy(m, tx, w).delta.accounts;
    if a == tx.from {
      SupplyAfterOne(w.accounts, a, d[a]);
      assert d == map[a := d[a]];
    } else {
      SupplyAfterTwo(w.accounts, tx.from, d[tx.from], a, d[a]);
      assert d == map[tx.from := d[tx.from], a := d[a]];
    }
  }

  lemma CallBurns(m: Machine, tx: Transaction, w: World)
    requires tx.payload.Call? && SparesEmission(m, tx) && ExecuteCall(m, tx, w).receipt.success
    ensures var o := ExecuteCall(m, tx, w);
            Supply(w.accounts) == Supply(w.accounts + o.delta.accounts) + ReceiptFee(tx, o.receipt)
  {
    hide Supply, SaturatingMul, WrappingAdd;
    var d := ExecuteCall(m, tx, w).delta.accounts;
    SupplyAfterOne(w.accounts, tx.from, d[tx.from]);
    assert d == map[tx.from := d[tx.from]];
  }

  lemma FailureIsFree(m: Machine, tx: Transaction, w: World)
    requires !Execute(m, tx, w).receipt.success
    ensures Execute(m, tx, w).receipt.gasUsed == 0
  {
  }

  /** One transaction: what leaves the supply is its fee and what it loses. */
  lemma TransactionBurns(m: Machine, tx: Transaction, w: World)
    requires SparesEmission(m, tx) && Supply(w.accounts) < U64_MAX
    ensures Supply(w.accounts) == Supply(Merge(w, Effect(m, tx, w)).accounts)
                                  + ReceiptFee(tx, Execute(m, tx, w).receipt) + Lost(m, tx, w)
  {
    hide Supply, ExecuteTransfer, ExecuteDeploy, ExecuteCall, AccountOf;
    if !Execute(m, tx, w).receipt.success {
      FailureIsFree(m, tx, w);
      NothingWritten(w.accounts);
    } else {
      match tx.payload
      case Transfer(_, _) => TransferBurns(m, tx, w);
      case Deploy(_, _) => DeployBurns(m, tx, w);
      case Call(_, _, _) => CallBurns(m, tx, w);
    }
  }

  /** Something is lost exactly by a successful self-transfer or a deployment onto an account that holds something. */
  lemma LostExactly(m: Machine, tx: Transaction, w: World)
    ensures Lost(m, tx, w) > 0 <==>
              var receipt := Execute(m, tx, w).receipt;
              && receipt.success
              && match tx.payload
                 case Transfer(to, _) => to == tx.from
                 case Deploy(code, _) =>
                   var a := m.hashing.codeAddress(code);
                   AccountOf(w.accounts, a).balance > if a == tx.from then ReceiptFee(tx, receipt) else 0
                 case Call(_, _, _) => false
  {
    hide ExecuteTransfer, ExecuteDeploy, ExecuteCall, AccountOf, SaturatingMul;
  }

  // ---- a whole block -------------------------------------------------------------------------------

  /** The fees of a one-at-a-time run, added up from its receipts. */
  ghost function FeesOf(txs: seq<Transaction>, receipts: seq<Receipt>): nat
    requires |receipts| == |txs|
  {
    if txs == [] then 0
    else
      var n := |txs| - 1;
      FeesOf(txs[..n], receipts[..n]) + ReceiptFee(txs[n], receipts[n])
  }

  /** What a one-at-a-time run loses beyond the fees. */
  ghost function LostIn(m: Machine, w: World, txs: seq<Transaction>): nat {
    if txs == [] then 0
    else
      var n := |txs| - 1;
      LostIn(m, w, txs[..n]) + Lost(m, txs[n], Serial(m, w, txs[..n]).world)
  }

  lemma {:induction false} SerialBurns(m: Machine, w: World, txs: seq<Transaction>)
    requires AllSpareEmission(m, txs) && Supply(w.accounts) < U64_MAX
    ensures |Serial(m, w, txs).receipts| == |txs|
    ensures Supply(w.accounts) ==
              Supply(Serial(m, w, txs).world.accounts) + FeesOf(txs, Serial(m, w, txs).receipts) + LostIn(m, w, txs)
  {
    hide Supply, Execute, Effect, Merge, Lost, ReceiptFee, SparesEmission;
    if txs != [] {
      var n := |txs| - 1;
      var before := Serial(m, w, txs[..n]);
      SerialBurns(m, w, txs[..n]);
      TransactionBurns(m, txs[n], before.world);
      assert Serial(m, w, txs).receipts[..n] == before.receipts;
    }
  }

  lemma {:induction false} LostInIsLost(m: Machine, w: World, txs: seq<Transaction>)
    ensures LostIn(m, w, txs) > 0 <==>
              exists i :: 0 <= i < |txs| && Lost(m, txs[i], Serial(m, w, txs[..i]).world) > 0
  {
    hide Lost, Serial;
    if txs != [] {
      var n := |txs| - 1;
      LostInIsLost(m, w, txs[..n]);
      assert forall i :: 0 <= i < n ==> txs[..n][..i] == txs[..i];
    }
  }

  lemma SpareEmissionPermutes(m: Machine, xs: seq<Transaction>, ys: seq<Transaction>)
    requires AllSpareEmission(m, xs) && multiset(xs) == multiset(ys)
    ensures AllSpareEmission(m, ys)
  {
    hide SparesEmission;
    forall i | 0 <= i < |ys| ensures SparesEmission(m, ys[i]) { assert ys[i] in multiset(xs); }
  }

  /**
    A block executed in parallel: the supply falls by the fees and the losses of the equivalent
    one-at-a-time run, so it never rises.
   */
  lemma ParallelBlockBurns(m: Machine, w: World, txs: seq<Transaction>, colors: seq<nat>, orders: seq<seq<Transaction>>)
    requires Isolated(m) && DistinctHashes(m.hashing, txs) && Greedy(m.hashing, txs, colors)
    requires |orders| == |Batches(txs, colors)|
    requires forall b :: 0 <= b < |orders| ==> ByHash(m, Batches(txs, colors)[b], orders[b])
    requires AllSpareEmission(m, txs) && Supply(w.accounts) < U64_MAX
    ensures var serial, run := Flatten(Batches(txs, colors)), Serial(m, w, Flatten(Batches(txs, colors)));
            && |run.receipts| == |serial|
            && Supply(w.accounts) == Supply(Parallel(m, w, orders).world.accounts) + FeesOf(serial, run.receipts)
                                     + LostIn(m, w, serial)
  {
    hide *;
    GreedyLength(m.hashing, txs, colors);
    RearrangesItself(Batches(txs, colors));
    ScheduledBlockIsSerial(m, w, txs, colors, orders, Batches(txs, colors));
    BatchesPartition(txs, colors);
    SpareEmissionPermutes(m, txs, Flatten(Batches(txs, colors)));
    SerialBurns(m, w, Flatten(Batches(txs, colors)));
  }

  /**
    It falls by exactly the fees if and only if no transaction of that run succeeds as a self-transfer
    or as a deployment onto an account that holds something.
   */
  lemma ParallelBlockBurnsFeesExactly(m: Machine, w: World, txs: seq<Transaction>, colors: seq<nat>,
                                      orders: seq<seq<Transaction>>)
    requires Isolated(m) && DistinctHashes(m.hashing, txs) && Greedy(m.hashing, txs, colors)
    requires |orders| == |Batches(txs, colors)|
    requires forall b :: 0 <= b < |orders| ==> ByHash(m, Batches(txs, colors)[b], orders[b])
    requires AllSpareEmission(m, txs) && Supply(w.accounts) < U64_MAX
    ensures var serial, run := Flatten(Batches(txs, colors)), Serial(m, w, Flatten(Batches(txs, colors)));
            && |run.receipts| == |serial|
            && (Supply(w.accounts) == Supply(Parallel(m, w, orders).world.accounts) + FeesOf(serial, run.receipts) <==>
                  forall i :: 0 <= i < |serial| ==> Lost(m, serial[i], Serial(m, w, serial[..i]).world) == 0)
  {
    hide *;
    GreedyLength(m.hashing, txs, colors);
    ParallelBlockBurns(m, w, txs, colors, orders);
    LostInIsLost(m, w, Flatten(Batches(txs, colors)));
  }

  /** Neither a self-transfer nor a deployment. */
  predicate LosesNothing(tx: Transaction) {
    match tx.payload
    case Transfer(to, _) => to != tx.from
    case Deploy(_, _) => false
    case Call(_, _, _) => true
  }

  /** What can be said before the run: a block without self-transfers and deployments burns exactly the fees. */
  lemma ParallelBlockBurnsFees(m: Machine, w: World, txs: seq<Transaction>, colors: seq<nat>,
                               orders: seq<seq<Transaction>>)
    requires Isolated(m) && DistinctHashes(m.hashing, txs) && Greedy(m.hashing, txs, colors)
    requires |orders| == |Batches(txs, colors)|
    requires forall b :: 0 <= b < |orders| ==> ByHash(m, Batches(txs, colors)[b], orders[b])
    requires AllSpareEmission(m, txs) && Supply(w.accounts) < U64_MAX
    requires forall i :: 0 <= i < |txs| ==> LosesNothing(txs[i])
    ensures var serial, run := Flatten(Batches(txs, colors)), Serial(m, w, Flatten(Batches(txs, colors)));
            && |run.receipts| == |serial|
            && Supply(w.accounts) == Supply(Parallel(m, w, orders).world.accounts) + FeesOf(serial, run.receipts)
  {
    hide *;
    GreedyLength(m.hashing, txs, colors);
    var serial := Flatten(Batches(txs, colors));
    ParallelBlockBurnsFeesExactly(m, w, txs, colors, orders);
    BatchesPartition(txs, colors);
    forall i | 0 <= i < |serial|
      ensures Lost(m, serial[i], Serial(m, w, serial[..i]).world) == 0
    {
      assert serial[i] in multiset(txs);
      NothingIsLost(m, serial[i], Serial(m, w, serial[..i]).world);
    }
  }

  lemma NothingIsLost(m: Machine, tx: Transaction, w: World)
    requires LosesNothing(tx)
    ensures Lost(m, tx, w) == 0
  {
    hide Execute, AccountOf, SaturatingMul;
  }

  // ---- the emission counter --------------------------------------------------------------------------

  lemma EmissionNotWritten(m: Machine, tx: Transaction, w: World)
    requires SparesEmission(m, tx)
    ensures Emitted(Merge(w, Effect(m, tx, w)).accounts) == Emitted(w.accounts)
  {
    hide SaturatingAdd, SaturatingMul, SaturatingSub, WrappingAdd;
    assert EMISSION_ACCOUNT !in Effect(m, tx, w).accounts;
  }

  lemma {:induction false} SerialKeepsEmission(m: Machine, w: World, txs: seq<Transaction>)
    requires AllSpareEmission(m, txs)
    ensures Emitted(Serial(m, w, txs).world.accounts) == Emitted(w.accounts)
  {
    hide Execute, Effect, Merge, SparesEmission, Emitted;
    if txs != [] {
      var n := |txs| - 1;
      SerialKeepsEmission(m, w, txs[..n]);
      EmissionNotWritten(m, txs[n], Serial(m, w, txs[..n]).world);
    }
  }
}
