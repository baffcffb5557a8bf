/**
  What executing one transaction means, without the executor's own steps: exactly when it succeeds,
  why it fails, and what a successful one leaves in the accounts, the storage and the registry.
 */
module Outcomes {
  import opened Collections
  import opened Transactions
  import opened Scheduling
  import opened Execution

  /** Signed, with gas, a gas price and - for a transfer - an amount. */
  ghost predicate WellFormed(tx: Transaction) {
    tx.signed && tx.gasLimit > 0 && tx.gasPrice > 0 && (tx.payload.Transfer? ==> tx.payload.amount > 0)
  }

  /** What the runtime answers to the deployment or call that `tx` makes in `w`. */
  ghost function RuntimeAnswer(m: Machine, tx: Transaction, w: World): VmResult
    requires tx.payload.Deploy? || (tx.payload.Call? && tx.payload.contract in w.registry)
  {
    match tx.payload
    case Deploy(code, _) =>
      m.vm(VmCall(m.hashing.codeAddress(code), tx.from, code, "init", tx.gasLimit), w.storage)
    case Call(c, entry, _) => m.vm(VmCall(c, tx.from, w.registry[c], entry, tx.gasLimit), w.storage)
  }

  /** Cut off at the 64-bit limit. */
  function CutOff(n: nat): nat {
    if n > 0xFFFF_FFFF_FFFF_FFFF then 0xFFFF_FFFF_FFFF_FFFF else n
  }

  /** The balance covers what the transaction costs, and its contract, if any, runs to a good end. */
  ghost predicate Carried(m: Machine, tx: Transaction, w: World) {
    var balance := AccountOf(w.accounts, tx.from).balance;
    match tx.payload
    case Transfer(_, amount) => balance >= amount + tx.gasLimit * tx.gasPrice
    case Deploy(_, _) =>
      var r := RuntimeAnswer(m, tx, w);
      r.started && r.ok && balance >= CutOff(r.gasUsed * tx.gasPrice)
    case Call(c, _, _) =>
      && c in w.registry
      && var r := RuntimeAnswer(m, tx, w);
         r.started && r.ok && balance >= CutOff(r.gasUsed * tx.gasPrice)
  }

  lemma TransferCarriedExactly(m: Machine, tx: Transaction, w: World)
    requires tx.payload.Transfer? && WellFormed(tx)
    ensures ExecuteTransfer(m, tx, w).receipt.success <==> Carried(m, tx, w)
  {
    hide WrappingAdd;
    var product := tx.gasLimit * tx.gasPrice;
    assert SaturatingMul(tx.gasLimit, tx.gasPrice) == if product > U64_MAX then U64_MAX else product;
  }

  lemma DeployCarriedExactly(m: Machine, tx: Transaction, w: World)
    requires tx.payload.Deploy?
    ensures ExecuteDeploy(m, tx, w).receipt.success <==> Carried(m, tx, w)
  {
    hide WrappingAdd;
  }

  lemma CallCarriedExactly(m: Machine, tx: Transaction, w: World)
    requires tx.payload.Call?
    ensures ExecuteCall(m, tx, w).receipt.success <==> Carried(m, tx, w)
  {
    hide WrappingAdd;
  }

  /** A transaction succeeds exactly when it is well formed, carries the next nonce and is carried by the world. */
  lemma SucceedsExactly(m: Machine, tx: Transaction, w: World)
    ensures Execute(m, tx, w).receipt.success <==>
              WellFormed(tx) && AccountOf(w.accounts, tx.from).nonce == tx.nonce && Carried(m, tx, w)
  {
    hide ExecuteTransfer, ExecuteDeploy, ExecuteCall, Carried, AccountOf;
    if WellFormed(tx) {
      match tx.payload
      case Transfer(_, _) => TransferCarriedExactly(m, tx, w);
      case Deploy(_, _) => DeployCarriedExactly(m, tx, w);
      case Call(_, _, _) => CallCarriedExactly(m, tx, w);
    }
  }

  /** A success reports the gas used and no error, a failure no gas and an error. */
  lemma ReceiptReports(m: Machine, tx: Transaction, w: World)
    ensures var receipt := Execute(m, tx, w).receipt;
            && receipt.txHash == m.hashing.txHash(tx)
            && (receipt.success ==> receipt.error == None)
            && (!receipt.success ==> receipt.error.Some? && receipt.gasUsed == 0)
            && (receipt.success && tx.payload.Transfer? ==> receipt.gasUsed == tx.gasLimit)
            && (receipt.success && tx.payload.Deploy? ==> receipt.gasUsed == RuntimeAnswer(m, tx, w).gasUsed)
            && (receipt.success && tx.payload.Call? && tx.payload.contract in w.registry ==>
                  receipt.gasUsed == RuntimeAnswer(m, tx, w).gasUsed)
  {
    hide SaturatingAdd, SaturatingMul, SaturatingSub, WrappingAdd, AccountOf;
  }

  /** The reasons that come before the payload is looked at, and a missing contract. */
  lemma FailsFor(m: Machine, tx: Transaction, w: World)
    ensures var error, nonce := Execute(m, tx, w).receipt.error, AccountOf(w.accounts, tx.from).nonce;
            && (error == Some(NoGas) <==> tx.gasLimit == 0)
            && (error == Some(NoGasPrice) <==> tx.gasLimit > 0 && tx.gasPrice == 0)
            && (error == Some(ZeroAmount) <==>
                  tx.gasLimit > 0 && tx.gasPrice > 0 && tx.payload.Transfer? && tx.payload.amount == 0)
            && (error == Some(BadSignature) <==> !tx.signed && WellFormed(tx.(signed := true)))
            && (error == Some(BadNonce) <==> WellFormed(tx) && nonce != tx.nonce)
            && (error == Some(ContractNotFound) <==>
                  && WellFormed(tx) && nonce == tx.nonce
                  && tx.payload.Call? && tx.payload.contract !in w.registry)
  {
    hide SaturatingAdd, SaturatingMul, SaturatingSub, WrappingAdd, AccountOf;
  }

  /** The reasons that lie in the payload, for a well-formed transaction with the next nonce. */
  lemma PayloadFailsFor(m: Machine, tx: Transaction, w: World)
    requires WellFormed(tx) && AccountOf(w.accounts, tx.from).nonce == tx.nonce
    ensures var error, balance := Execute(m, tx, w).receipt.error, AccountOf(w.accounts, tx.from).balance;
            match tx.payload
            case Transfer(_, amount) =>
              (error == Some(InsufficientBalance) <==> balance < CutOff(amount + CutOff(tx.gasLimit * tx.gasPrice)))
            case Deploy(_, _) => RuntimeFailsFor(error, balance, RuntimeAnswer(m, tx, w), tx.gasPrice)
            case Call(c, _, _) =>
              c in w.registry ==> RuntimeFailsFor(error, balance, RuntimeAnswer(m, tx, w), tx.gasPrice)
  {
    hide WrappingAdd, AccountOf;
  }

  /** Not started, not paid for, or failed - in this order. */
  ghost predicate RuntimeFailsFor(error: Option<TxError>, balance: u64, r: VmResult, price: u64) {
    && (error == Some(VmRejected) <==> !r.started)
    && (error == Some(InsufficientForFee) <==> r.started && balance < CutOff(r.gasUsed * price))
    && (error == Some(VmFailed) <==> r.started && balance >= CutOff(r.gasUsed * price) && !r.ok)
  }

  /** A failed transaction changes nothing. */
  lemma FailureChangesNothing(m: Machine, tx: Transaction, w: World)
    requires !Execute(m, tx, w).receipt.success
    ensures Merge(w, Effect(m, tx, w)) == w
  {
    hide Execute;
    assert w.accounts + map[] == w.accounts && w.storage + map[] == w.storage && map[] + w.registry == w.registry;
  }

  /**
    A successful transfer takes amount and gas bill from the sender and advances its nonce; a receiver other
    than the sender gets the amount.  Everything else stays.
   */
  lemma TransferLeaves(m: Machine, tx: Transaction, w: World)
    requires tx.payload.Transfer? && Execute(m, tx, w).receipt.success
    ensures var w', to, amount := Merge(w, Effect(m, tx, w)), tx.payload.to, tx.payload.amount;
            var sender, receiver := AccountOf(w.accounts, tx.from), AccountOf(w.accounts, to);
            && AccountOf(w'.accounts, tx.from).balance + amount + tx.gasLimit * tx.gasPrice == sender.balance
            && AccountOf(w'.accounts, tx.from).nonce == (sender.nonce + 1) % (U64_MAX + 1)
            && (to != tx.from ==> AccountOf(w'.accounts, to).nonce == receiver.nonce)
            && (to != tx.from ==> AccountOf(w'.accounts, to).balance == CutOff(receiver.balance + amount))
            && OthersKept(w.accounts, w'.accounts, {tx.from, to})
            && w'.storage == w.storage && w'.registry == w.registry
  {
    hide AccountOf;
    SucceedsExactly(m, tx, w);
    var product := tx.gasLimit * tx.gasPrice;
    assert SaturatingMul(tx.gasLimit, tx.gasPrice) == product;
    assert map[] + w.registry == w.registry && w.storage + map[] == w.storage;
    TransferReads(m, tx, w);
  }

  lemma TransferReads(m: Machine, tx: Transaction, w: World)
    requires tx.payload.Transfer? && Execute(m, tx, w).receipt.success
    ensures var d := Effect(m, tx, w);
            var w', to := Merge(w, d), tx.payload.to;
            && tx.from in d.accounts && to in d.accounts && d.accounts.Keys == {tx.from, to}
            && AccountOf(w'.accounts, tx.from) == d.accounts[tx.from]
            && AccountOf(w'.accounts, to) == d.accounts[to] && OthersKept(w.accounts, w'.accounts, {tx.from, to})
  {
    hide SaturatingAdd, SaturatingMul, SaturatingSub, WrappingAdd;
  }

  /**
    After a successful deployment the contract is registered - under its old code, if there was one - and has an
    empty account; the storage is the old one with what the runtime wrote.
   */
  lemma DeploymentLeaves(m: Machine, tx: Transaction, w: World)
    requires tx.payload.Deploy? && Execute(m, tx, w).receipt.success
    ensures var w', a := Merge(w, Effect(m, tx, w)), m.hashing.codeAddress(tx.payload.code);
            && a in w'.registry
            && w'.registry[a] == (if a in w.registry then w.registry[a] else tx.payload.code)
            && (forall c :: c != a ==> (c in w'.registry <==> c in w.registry))
            && (forall c :: c in w.registry ==> w'.registry[c] == w.registry[c])
            && w'.storage == w.storage + RuntimeAnswer(m, tx, w).written
            && AccountOf(w'.accounts, a) == Account(0, 0) && OthersKept(w.accounts, w'.accounts, {tx.from, a})
  {
    DeploymentWrites(m, tx, w);
    hide Execute, Effect;
  }

  lemma DeploymentWrites(m: Machine, tx: Transaction, w: World)
    requires tx.payload.Deploy? && Execute(m, tx, w).receipt.success
    ensures var d, a := Effect(m, tx, w), m.hashing.codeAddress(tx.payload.code);
            && d.accounts.Keys == {tx.from, a} && d.accounts[a] == Account(0, 0)
            && d.registry == map[a := tx.payload.code] && d.storage == RuntimeAnswer(m, tx, w).written
  {
    hide SaturatingMul, WrappingAdd;
  }

  /** A successful call leaves the registry alone; the storage is the old one with what the runtime wrote. */
  lemma CallLeaves(m: Machine, tx: Transaction, w: World)
    requires tx.payload.Call? && Execute(m, tx, w).receipt.success
    ensures tx.payload.contract in w.registry
    ensures var w' := Merge(w, Effect(m, tx, w));
            && w'.registry == w.registry && OthersKept(w.accounts, w'.accounts, {tx.from})
            && w'.storage == w.storage + RuntimeAnswer(m, tx, w).written
  {
    hide SaturatingMul, WrappingAdd;
    assert map[] + w.registry == w.registry;
  }

  /** What is deployed can be called: the next call does not fail for want of the contract. */
  lemma DeployedCanBeCalled(m: Machine, tx: Transaction, w: World, call: Transaction)
    requires tx.payload.Deploy? && Execute(m, tx, w).receipt.success
    requires call.payload.Call? && call.payload.contract == m.hashing.codeAddress(tx.payload.code)
    ensures Execute(m, call, Merge(w, Effect(m, tx, w))).receipt.error != Some(ContractNotFound)
  {
    hide Execute, Effect, Merge;
    DeploymentLeaves(m, tx, w);
    FailsFor(m, call, Merge(w, Effect(m, tx, w)));
  }
}
