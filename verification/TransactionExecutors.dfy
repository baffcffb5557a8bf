/**
  Sequential block execution (src/execution/transaction_executor.rs): transactions in order,
  stopping at the first failure, adding up the fees of those that went through.
 */
module TransactionExecutors {
  import opened Transactions
  import opened Balances
  import opened Ledgers
  import opened StateManagers

  /** What the contract engine does with a deployment or call: refuse it unpaid, or run it and charge for gas. */
  datatype ContractRun = Refused | Ran(gasUsed: u64, ok: bool)

  /** The accounts afterwards and, on success, the gas used. */
  datatype Step = Step(accounts: Accounts, used: Result)
  datatype Result = Used(gas: u64) | Failed

  /** A contract that runs and fails has paid its fee all the same. */
  function ExecuteOne(m: Accounts, tx: Transaction, run: ContractRun): Step {
    if tx.payload.Transfer? then
      match ApplyTransaction(m, tx)
      case Ok(m') => Step(m', Used(tx.gasLimit))
      case Err(_) => Step(m, Failed)
    else if run.Refused? then Step(m, Failed)
    else
      match DeductFee(m, tx.from, SaturatingMul(run.gasUsed, tx.gasPrice))
      case Err(_) => Step(m, Failed)
      case Ok(m') => Step(m', if run.ok then Used(run.gasUsed) else Failed)
  }

  datatype ExecutionResult = ExecutionResult(accounts: Accounts, executed: nat, success: bool, totalFees: u64)

  /** Executes the first `n` transactions of a block. */
  function ExecuteFirst(m: Accounts, txs: seq<Transaction>, runs: nat -> ContractRun, n: nat): ExecutionResult
    requires n <= |txs|
  {
    if n == 0 then ExecutionResult(m, 0, true, 0)
    else
      var before := ExecuteFirst(m, txs, runs, n - 1);
      if !before.success then before
      else
        var step := ExecuteOne(before.accounts, txs[n - 1], runs(n - 1));
        if step.used.Used? then
          ExecutionResult(step.accounts, n, true,
                          SaturatingAdd(before.totalFees, SaturatingMul(step.used.gas, txs[n - 1].gasPrice)))
        else
          ExecutionResult(step.accounts, n - 1, false, before.totalFees)
  }

  /** The block loop with its early exit. */
  method ExecuteBlock(state: StateManager, txs: seq<Transaction>, runs: nat -> ContractRun) returns (r: ExecutionResult)
    requires state.Valid()
    modifies state, state.tree
    ensures state.Valid() && state.Accounts() == r.accounts
    ensures r == ExecuteFirst(old(state.Accounts()), txs, runs, |txs|)
  {
    hide ApplyTransaction, DeductFee;
    ghost var m := state.Accounts();
    var executed, success, totalFees: u64, i := 0, true, 0, 0;
    while i < |txs| && success
      invariant 0 <= i <= |txs| && state.Valid()
      invariant ExecutionResult(state.Accounts(), executed, success, totalFees) == ExecuteFirst(m, txs, runs, i)
      invariant success ==> executed == i
    {
      var tx := txs[i];
      var used := Failed;
      if tx.payload.Transfer? {
        var applied := state.ApplyTransaction(tx);
        if applied.Ok? {
          used := Used(tx.gasLimit);
        }
      } else {
        var run := runs(i);
        if run.Ran? {
          var applied := state.DeductFee(tx.from, SaturatingMul(run.gasUsed, tx.gasPrice));
          if applied.Ok? && run.ok {
            used := Used(run.gasUsed);
          }
        }
      }
      if used.Used? {
        executed := executed + 1;
        totalFees := SaturatingAdd(totalFees, SaturatingMul(used.gas, tx.gasPrice));
      } else {
        success := false;
      }
      i := i + 1;
    }
    StoppedStaysStopped(m, txs, runs, i, |txs|);
    r := ExecutionResult(state.Accounts(), executed, success, totalFees);
  }

  lemma {:induction false} StoppedStaysStopped(m: Accounts, txs: seq<Transaction>, runs: nat -> ContractRun, i: nat,
                                               n: nat)
    requires i <= n <= |txs| && (i == n || !ExecuteFirst(m, txs, runs, i).success)
    ensures ExecuteFirst(m, txs, runs, n) == ExecuteFirst(m, txs, runs, i)
    decreases n - i
  {
    if i < n {
      StoppedStaysStopped(m, txs, runs, i, n - 1);
    }
  }

  // ---- what a block executes -----------------------------------------------------------------------

  /** Transaction `i` goes through on the accounts that the ones before it leave. */
  ghost predicate GoesThrough(m: Accounts, txs: seq<Transaction>, runs: nat -> ContractRun, i: nat)
    requires i < |txs|
  {
    ExecuteOne(ExecuteFirst(m, txs, runs, i).accounts, txs[i], runs(i)).used.Used?
  }

  /** One transaction goes through exactly if the state manager accepts it, or its contract runs well and is paid. */
  lemma GoesThroughExactly(m: Accounts, tx: Transaction, run: ContractRun)
    ensures var step := ExecuteOne(m, tx, run);
            var payer := AccountOf(m, tx.from);
            && (tx.payload.Transfer? ==>
                  (step.used.Used? <==>
                     && tx.payload.amount > 0 && payer.nonce == tx.nonce
                     && Covers(payer.balance, tx.payload.amount + Fee(tx))))
            && (!tx.payload.Transfer? ==>
                  (step.used.Used? <==>
                     run.Ran? && run.ok && payer.balance >= SaturatingMul(run.gasUsed, tx.gasPrice)))
            && (step.used.Used? && tx.payload.Transfer? ==> step.used.gas == tx.gasLimit)
            && (step.used.Used? && !tx.payload.Transfer? ==> step.used.gas == run.gasUsed)
  {
    hide Fee, SaturatingMul, AccountOf, Covers;
    if tx.payload.Transfer? {
      TransferAcceptedExactly(m, tx.from, tx.payload.to, tx.payload.amount, tx.nonce, Fee(tx));
    } else if run.Ran? {
      DeductExactly(m, tx.from, SaturatingMul(run.gasUsed, tx.gasPrice));
    }
  }

  /** `executed` counts the longest prefix that goes through; the block succeeds exactly when that is all of it. */
  lemma {:induction false} ExecutedIsLongestPrefix(m: Accounts, txs: seq<Transaction>, runs: nat -> ContractRun, n: nat)
    requires n <= |txs|
    ensures var r := ExecuteFirst(m, txs, runs, n);
            && r.executed <= n && (r.success <==> r.executed == n)
            && (forall i: nat :: i < r.executed ==> GoesThrough(m, txs, runs, i))
            && (r.executed < n ==> !GoesThrough(m, txs, runs, r.executed))
  {
    hide ExecuteOne;
    if n > 0 {
      ExecutedIsLongestPrefix(m, txs, runs, n - 1);
    }
  }

  // ---- what a block burns -----------------------------------------------------------------------

  /** No transaction names the emission account. */
  ghost predicate OrdinaryBlock(txs: seq<Transaction>) {
    forall i :: 0 <= i < |txs| ==>
      txs[i].from != EMISSION_ACCOUNT && (txs[i].payload.Transfer? ==> txs[i].payload.to != EMISSION_ACCOUNT)
  }

  /** The fee that a failing transaction leaves behind: only contracts that ran have paid one. */
  function LostFee(m: Accounts, tx: Transaction, run: ContractRun): nat {
    if tx.payload.Transfer? || run.Refused? || run.ok then 0
    else
      var fee := SaturatingMul(run.gasUsed, tx.gasPrice);
      if DeductFee(m, tx.from, fee).Ok? then fee else 0
  }

  function LostInFirst(m: Accounts, txs: seq<Transaction>, runs: nat -> ContractRun, n: nat): nat
    requires n <= |txs|
  {
    if n == 0 then 0
    else
      var before := ExecuteFirst(m, txs, runs, n - 1);
      if before.success then LostFee(before.accounts, txs[n - 1], runs(n - 1)) else LostInFirst(m, txs, runs, n - 1)
  }

  lemma StepBurns(m: Accounts, tx: Transaction, run: ContractRun)
    requires Supply(m) < U64_MAX && tx.from != EMISSION_ACCOUNT
    requires tx.payload.Transfer? ==> tx.payload.to != EMISSION_ACCOUNT
    ensures var step := ExecuteOne(m, tx, run);
            && Supply(m) == Supply(step.accounts) +
                 (if step.used.Used? then SaturatingMul(step.used.gas, tx.gasPrice) else LostFee(m, tx, run))
            && (step.used.Used? ==> LostFee(m, tx, run) == 0)
  {
    if tx.payload.Transfer? {
      if ApplyTransaction(m, tx).Ok? {
        TransferBurnsFee(m, tx.from, tx.payload.to, tx.payload.amount, tx.nonce, Fee(tx));
      }
    } else if run.Ran? {
      var fee := SaturatingMul(run.gasUsed, tx.gasPrice);
      if DeductFee(m, tx.from, fee).Ok? {
        DeductBurnsFee(m, tx.from, fee);
      }
    }
  }

  /** What a block takes out of circulation: the reported fees and what failing contracts paid. */
  lemma {:induction false} BlockBurns(m: Accounts, txs: seq<Transaction>, runs: nat -> ContractRun, n: nat)
    requires n <= |txs| && OrdinaryBlock(txs) && Supply(m) < U64_MAX
    ensures Supply(m) == Supply(ExecuteFirst(m, txs, runs, n).accounts) + ExecuteFirst(m, txs, runs, n).totalFees
                         + LostInFirst(m, txs, runs, n)
    ensures ExecuteFirst(m, txs, runs, n).success ==> LostInFirst(m, txs, runs, n) == 0
  {
    hide ExecuteOne, LostFee, Supply;
    if n > 0 {
      BlockBurns(m, txs, runs, n - 1);
      var before := ExecuteFirst(m, txs, runs, n - 1);
      if before.success {
        StepBurns(before.accounts, txs[n - 1], runs(n - 1));
      }
    }
  }

  /** The block reaches transaction `i`, a contract that runs, can and does pay for its gas, and then fails. */
  ghost predicate PaysAndFails(m: Accounts, txs: seq<Transaction>, runs: nat -> ContractRun, i: nat)
    requires i < |txs|
  {
    var before, tx, run := ExecuteFirst(m, txs, runs, i), txs[i], runs(i);
    && before.success && !tx.payload.Transfer? && run.Ran? && !run.ok
    && 0 < SaturatingMul(run.gasUsed, tx.gasPrice) <= AccountOf(before.accounts, tx.from).balance
  }

  /** Only such a transaction loses anything, and there is at most one: it ends the block. */
  lemma {:induction false} LostExactly(m: Accounts, txs: seq<Transaction>, runs: nat -> ContractRun, n: nat)
    requires n <= |txs|
    ensures LostInFirst(m, txs, runs, n) > 0 <==> exists i: nat :: i < n && PaysAndFails(m, txs, runs, i)
    ensures ExecuteFirst(m, txs, runs, n).success ==> LostInFirst(m, txs, runs, n) == 0
  {
    hide SaturatingMul, AccountOf;
    if n > 0 {
      LostExactly(m, txs, runs, n - 1);
      if LostInFirst(m, txs, runs, n) > 0 && ExecuteFirst(m, txs, runs, n - 1).success {
        assert PaysAndFails(m, txs, runs, n - 1);
      }
    }
  }

  /**
    The supply falls by exactly `totalFees` - also when the block stops early - if and only if the block
    was not stopped by a contract that had already paid for its gas.
   */
  lemma BlockBurnsTotalFeesExactly(m: Accounts, txs: seq<Transaction>, runs: nat -> ContractRun)
    requires OrdinaryBlock(txs) && Supply(m) < U64_MAX
    ensures var r := ExecuteFirst(m, txs, runs, |txs|);
            Supply(m) == Supply(r.accounts) + r.totalFees <==>
              forall i: nat :: i < |txs| ==> !PaysAndFails(m, txs, runs, i)
  {
    hide Supply, ExecuteFirst, LostInFirst, PaysAndFails;
    BlockBurns(m, txs, runs, |txs|);
    LostExactly(m, txs, runs, |txs|);
  }

  /** A call by account 3, which holds ten, that uses two units of gas at price one and fails. */
  const FAILING_CALL := Transaction(3, Call(5, "run", []), 0, 2, 1, true)

  /** A block of one transaction that burns two and reports no fees. */
  lemma FailingCallBurnsUnreported()
    ensures var m: Accounts, runs := map[3 := Account(10, 0)], (i: nat) => Ran(2, false);
            var r := ExecuteFirst(m, [FAILING_CALL], runs, 1);
            r.totalFees == 0 && !r.success && Supply(m) == Supply(r.accounts) + 2
  {
    var m: Accounts, runs := map[3 := Account(10, 0)], (i: nat) => Ran(2, false);
    SumUpdate(map[], 3, Account(10, 0), {EMISSION_ACCOUNT});
    assert ExecuteFirst(m, [FAILING_CALL], runs, 0).success;
    assert PaysAndFails(m, [FAILING_CALL], runs, 0);
    DeductBurnsFee(m, 3, 2);
  }

  /** In particular for every block of transfers. */
  lemma {:induction false} TransferBlockBurnsTotalFees(m: Accounts, txs: seq<Transaction>, runs: nat -> ContractRun)
    requires OrdinaryBlock(txs) && Supply(m) < U64_MAX
    requires forall i :: 0 <= i < |txs| ==> txs[i].payload.Transfer?
    ensures var r := ExecuteFirst(m, txs, runs, |txs|);
            Supply(m) == Supply(r.accounts) + r.totalFees
  {
    TransfersLoseNothing(m, txs, runs, |txs|);
    BlockBurns(m, txs, runs, |txs|);
  }

  lemma {:induction false} TransfersLoseNothing(m: Accounts, txs: seq<Transaction>, runs: nat -> ContractRun, n: nat)
    requires n <= |txs| && forall i :: 0 <= i < |txs| ==> txs[i].payload.Transfer?
    ensures LostInFirst(m, txs, runs, n) == 0
  {
    if n > 0 {
      TransfersLoseNothing(m, txs, runs, n - 1);
    }
  }
}
