/**
  What one transaction does to the world (src/execution/parallel_executor.rs, execution
  half): it is run against a base state, its writes go to an overlay, and the overlay is
  merged if the receipt reports success.

  The WASM runtime is a parameter.
 */
module Execution {
  import opened Collections
  import opened Transactions
  import opened Scheduling

  type Storage = map<Bytes, Bytes>
  type Registry = map<Address, Bytes>

  datatype World = World(accounts: Accounts, storage: Storage, registry: Registry)

  /** One invocation of the runtime; `entry` is "init" on deployment. */
  datatype VmCall = VmCall(contract: Address, caller: Address, code: Bytes, entry: string, gasLimit: u64)

  /** `started` is false if the module cannot be instantiated; `ok` is false if the entry point fails. */
  datatype VmResult = VmResult(started: bool, ok: bool, gasUsed: u64, written: Storage)

  /** `owner` says to which contract a storage key belongs. */
  datatype Machine = Machine(hashing: Hashing, vm: (VmCall, Storage) -> VmResult, owner: Bytes -> Address)

  function Owned(m: Machine, s: Storage, a: Address): Storage {
    map k | k in s && m.owner(k) == a :: s[k]
  }

  /** A contract reads and writes its own storage only. */
  ghost predicate Isolated(m: Machine) {
    && (forall c: VmCall, s: Storage, k :: k in m.vm(c, s).written ==> m.owner(k) == c.contract)
    && (forall c: VmCall, s: Storage, s': Storage ::
          Owned(m, s, c.contract) == Owned(m, s', c.contract) ==> m.vm(c, s) == m.vm(c, s'))
  }

  /** What a transaction wrote. */
  datatype Delta = Delta(accounts: Accounts, storage: Storage, registry: Registry)

  const NO_DELTA := Delta(map[], map[], map[])

  datatype Receipt = Receipt(txHash: TxId, success: bool, gasUsed: u64, error: Option<TxError>)

  datatype Outcome = Outcome(receipt: Receipt, delta: Delta)

  function Failed(m: Machine, tx: Transaction, e: TxError, delta: Delta): Outcome {
    Outcome(Receipt(m.hashing.txHash(tx), false, 0, Some(e)), delta)
  }

  function Done(m: Machine, tx: Transaction, gas: u64, delta: Delta): Outcome {
    Outcome(Receipt(m.hashing.txHash(tx), true, gas, None), delta)
  }

  function WriteAccount(d: Delta, a: Address, acc: Account): Delta {
    d.(accounts := d.accounts[a := acc])
  }

  /** Reads through the overlay. */
  function ReadAccount(d: Delta, base: World, a: Address): Account {
    if a in d.accounts then d.accounts[a] else AccountOf(base.accounts, a)
  }

  function ExecuteTransfer(m: Machine, tx: Transaction, base: World): Outcome
    requires tx.payload.Transfer?
  {
    var sender := AccountOf(base.accounts, tx.from);
    var amount, to := tx.payload.amount, tx.payload.to;
    var fee := SaturatingMul(tx.gasLimit, tx.gasPrice);
    if sender.balance < SaturatingAdd(amount, fee) then Failed(m, tx, InsufficientBalance, NO_DELTA)
    else
      var paid := Account(SaturatingSub(sender.balance, amount), WrappingAdd(sender.nonce, 1));
      var d1 := WriteAccount(NO_DELTA, tx.from, paid);
      var receiver := ReadAccount(d1, base, to);
      var d2 := WriteAccount(d1, to, receiver.(balance := SaturatingAdd(receiver.balance, amount)));
      if paid.balance < fee then Failed(m, tx, InsufficientForFee, d2)
      else Done(m, tx, tx.gasLimit, WriteAccount(d2, tx.from, paid.(balance := SaturatingSub(paid.balance, fee))))
  }

  function ExecuteDeploy(m: Machine, tx: Transaction, base: World): Outcome
    requires tx.payload.Deploy?
  {
    var sender := AccountOf(base.accounts, tx.from);
    var a := m.hashing.codeAddress(tx.payload.code);
    var r := m.vm(VmCall(a, tx.from, tx.payload.code, "init", tx.gasLimit), base.storage);
    var fee := SaturatingMul(r.gasUsed, tx.gasPrice);
    if !r.started then Failed(m, tx, VmRejected, NO_DELTA)
    else if sender.balance < fee then Failed(m, tx, InsufficientForFee, Delta(map[], r.written, map[]))
    else
      var paid := Account(sender.balance - fee, WrappingAdd(sender.nonce, 1));
      var d := WriteAccount(Delta(map[], r.written, map[]), tx.from, paid);
      if !r.ok then Failed(m, tx, VmFailed, d)
      else Done(m, tx, r.gasUsed, WriteAccount(d, a, NO_ACCOUNT).(registry := map[a := tx.payload.code]))
  }

  function ExecuteCall(m: Machine, tx: Transaction, base: World): Outcome
    requires tx.payload.Call?
  {
    var sender := AccountOf(base.accounts, tx.from);
    var c := tx.payload.contract;
    if c !in base.registry then Failed(m, tx, ContractNotFound, NO_DELTA)
    else
      var r := m.vm(VmCall(c, tx.from, base.registry[c], tx.payload.entry, tx.gasLimit), base.storage);
      var fee := SaturatingMul(r.gasUsed, tx.gasPrice);
      if !r.started then Failed(m, tx, VmRejected, NO_DELTA)
      else if sender.balance < fee then Failed(m, tx, InsufficientForFee, Delta(map[], r.written, map[]))
      else
        var paid := Account(sender.balance - fee, WrappingAdd(sender.nonce, 1));
        var d := WriteAccount(Delta(map[], r.written, map[]), tx.from, paid);
        if !r.ok then Failed(m, tx, VmFailed, d) else Done(m, tx, r.gasUsed, d)
  }

  function Execute(m: Machine, tx: Transaction, base: World): Outcome {
    var v := ValidateBasic(tx);
    if v.Bad? then Failed(m, tx, v.error, NO_DELTA)
    else if AccountOf(base.accounts, tx.from).nonce != tx.nonce then Failed(m, tx, BadNonce, NO_DELTA)
    else match tx.payload
      case Transfer(_, _) => ExecuteTransfer(m, tx, base)
      case Deploy(_, _) => ExecuteDeploy(m, tx, base)
      case Call(_, _, _) => ExecuteCall(m, tx, base)
  }

  /** An already registered contract stays as it is. */
  function Merge(w: World, d: Delta): World {
    World(w.accounts + d.accounts, w.storage + d.storage, d.registry + w.registry)
  }

  /** The part of an outcome that reaches the world: nothing, unless the receipt reports success. */
  function Effect(m: Machine, tx: Transaction, base: World): Delta {
    var o := Execute(m, tx, base);
    if o.receipt.success then o.delta else NO_DELTA
  }

  // ---- the declared access set is a true footprint ------------------------------------------

  ghost predicate SameAt(m: Machine, w: World, w': World, key: StateKey) {
    match key
    case AccountKey(a) => AccountOf(w.accounts, a) == AccountOf(w'.accounts, a)
    case StorageKey(c, _) => Owned(m, w.storage, c) == Owned(m, w'.storage, c)
    case RegistryKey(a) =>
      (a in w.registry <==> a in w'.registry) && (a in w.registry ==> w.registry[a] == w'.registry[a])
  }

  ghost function Footprint(m: Machine, tx: Transaction): set<StateKey> {
    AnalyzeAccess(m.hashing, tx).readSet + AnalyzeAccess(m.hashing, tx).writeSet
  }

  /** Worlds that agree on a transaction's access set give it the same receipt and the same writes. */
  lemma ExecuteDependsOnFootprint(m: Machine, tx: Transaction, w: World, w': World)
    requires Isolated(m) && forall key :: key in Footprint(m, tx) ==> SameAt(m, w, w', key)
    ensures Execute(m, tx, w) == Execute(m, tx, w')
  {
    assert SameAt(m, w, w', AccountKey(tx.from));
    match tx.payload
    case Transfer(to, _) =>
      assert SameAt(m, w, w', AccountKey(to));
    case Deploy(code, _) =>
      assert SameAt(m, w, w', StorageKey(m.hashing.codeAddress(code), []));
    case Call(c, _, _) =>
      assert SameAt(m, w, w', RegistryKey(c));
      assert SameAt(m, w, w', StorageKey(c, []));
  }

  /** `d` writes only what `keys` allow. */
  ghost predicate WritesWithin(m: Machine, d: Delta, keys: set<StateKey>) {
    && (forall a :: a in d.accounts ==> AccountKey(a) in keys)
    && (forall k :: k in d.storage ==> StorageKey(m.owner(k), []) in keys)
    && (forall a :: a in d.registry ==> RegistryKey(a) in keys)
  }

  lemma EffectStaysWithinWrites(m: Machine, tx: Transaction, base: World)
    requires Isolated(m)
    ensures WritesWithin(m, Effect(m, tx, base), AnalyzeAccess(m.hashing, tx).writeSet)
  {
  }

  // ---- what success means ---------------------------------------------------------------------

  /** `after` is `before` with `gas` paid for at the transaction's price and the nonce advanced. */
  ghost predicate Charged(tx: Transaction, gas: u64, before: Account, after: Account) {
    && after.balance + SaturatingMul(gas, tx.gasPrice) == before.balance
    && after.nonce == WrappingAdd(before.nonce, 1)
  }

  lemma DeployCharges(m: Machine, tx: Transaction, w: World)
    requires tx.payload.Deploy? && m.hashing.codeAddress(tx.payload.code) != tx.from
    requires ExecuteDeploy(m, tx, w).receipt.success
    ensures var o := ExecuteDeploy(m, tx, w);
            tx.from in o.delta.accounts &&
            Charged(tx, o.receipt.gasUsed, AccountOf(w.accounts, tx.from), o.delta.accounts[tx.from])
  {
    hide SaturatingMul, WrappingAdd;
  }

  lemma CallCharges(m: Machine, tx: Transaction, w: World)
    requires tx.payload.Call? && ExecuteCall(m, tx, w).receipt.success
    ensures var o := ExecuteCall(m, tx, w);
            tx.from in o.delta.accounts &&
            Charged(tx, o.receipt.gasUsed, AccountOf(w.accounts, tx.from), o.delta.accounts[tx.from])
  {
    hide SaturatingMul, WrappingAdd;
  }

  lemma TransferAdvances(m: Machine, tx: Transaction, w: World)
    requires tx.payload.Transfer? && ExecuteTransfer(m, tx, w).receipt.success
    ensures var o := ExecuteTransfer(m, tx, w);
            tx.from in o.delta.accounts &&
            o.delta.accounts[tx.from].nonce == WrappingAdd(AccountOf(w.accounts, tx.from).nonce, 1)
  {
    hide SaturatingMul, SaturatingAdd, SaturatingSub, WrappingAdd;
  }

  lemma MergedAccount(w: World, d: Delta, a: Address)
    requires a in d.accounts
    ensures AccountOf(Merge(w, d).accounts, a) == d.accounts[a]
  {
  }

  /** The deployed code hashes to the sender's own address. */
  predicate DeploysOntoSender(m: Machine, tx: Transaction) {
    tx.payload.Deploy? && m.hashing.codeAddress(tx.payload.code) == tx.from
  }

  lemma DeployOntoSenderResets(m: Machine, tx: Transaction, w: World)
    requires DeploysOntoSender(m, tx) && ExecuteDeploy(m, tx, w).receipt.success
    ensures var o := ExecuteDeploy(m, tx, w); tx.from in o.delta.accounts && o.delta.accounts[tx.from] == NO_ACCOUNT
  {
    hide SaturatingMul, WrappingAdd;
  }

  /**
    A successful deployment or call charges the reported gas and advances the nonce by one - but a deployment
    onto the sender's own address leaves the empty account there: all of the balance is gone and the nonce is 0.
   */
  lemma SuccessChargesSender(m: Machine, tx: Transaction, w: World)
    requires Execute(m, tx, w).receipt.success && !tx.payload.Transfer?
    ensures var after := AccountOf(Merge(w, Effect(m, tx, w)).accounts, tx.from);
            if DeploysOntoSender(m, tx) then after == NO_ACCOUNT
            else Charged(tx, Execute(m, tx, w).receipt.gasUsed, AccountOf(w.accounts, tx.from), after)
  {
    hide ExecuteDeploy, ExecuteCall, Merge, Charged, AccountOf;
    if DeploysOntoSender(m, tx) {
      DeployOntoSenderResets(m, tx, w);
    } else if tx.payload.Deploy? {
      DeployCharges(m, tx, w);
    } else {
      CallCharges(m, tx, w);
    }
    MergedAccount(w, Effect(m, tx, w), tx.from);
  }

  lemma NonceAfterSuccess(m: Machine, tx: Transaction, w: World)
    requires Execute(m, tx, w).receipt.success
    ensures AccountOf(Merge(w, Effect(m, tx, w)).accounts, tx.from).nonce ==
              if DeploysOntoSender(m, tx) then 0 else WrappingAdd(tx.nonce, 1)
  {
    hide ExecuteDeploy, ExecuteCall, ExecuteTransfer, Merge, AccountOf, WrappingAdd, SaturatingMul;
    if tx.payload.Transfer? {
      TransferAdvances(m, tx, w);
      MergedAccount(w, Effect(m, tx, w), tx.from);
    } else {
      SuccessChargesSender(m, tx, w);
    }
  }

  /**
    A transaction that succeeded is refused for its nonce when repeated, except exactly when it deploys onto its
    own sender with nonce 0, which resets the account to that nonce.
   */
  lemma {:induction false} RepeatIsRefusedExactly(m: Machine, tx: Transaction, w: World)
    requires Execute(m, tx, w).receipt.success
    ensures var again := Execute(m, tx, Merge(w, Effect(m, tx, w))).receipt;
            again == Receipt(m.hashing.txHash(tx), false, 0, Some(BadNonce)) <==>
              !(DeploysOntoSender(m, tx) && tx.nonce == 0)
  {
    hide ExecuteTransfer, ExecuteCall, Effect, Merge, AccountOf, SaturatingMul;
    NonceAfterSuccess(m, tx, w);
    assert WrappingAdd(tx.nonce, 1) != tx.nonce;
  }
}
