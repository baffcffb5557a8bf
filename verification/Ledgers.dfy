/**
  The state manager's operations on the account map (src/state/state_manager.rs), as
  functions, and what they conserve.
 */
module Ledgers {
  import opened Transactions
  import opened Balances

  /** The addresses [1; 20] and [255; 20]. */
  const GENESIS_WALLET: Address := 0x0101010101010101010101010101010101010101
  const EMISSION_ACCOUNT: Address := 0xFFFFFFFFFFFFFFFFFFFFFFFFFFFFFFFFFFFFFFFF

  const MAX_SUPPLY: u64 := 600_000_000
  const GENESIS_ALLOCATION: u64 := 100_000_000
  const MINING_SUPPLY: u64 := 500_000_000

  datatype LedgerError =
    | AmountIsZero
    | InvalidNonce
    | InsufficientForTransfer
    | InsufficientForGas
    | BeyondMaxSupply

  datatype Applied = Ok(accounts: Accounts) | Err(error: LedgerError)

  /** All balances but the emission counter's. */
  ghost function Supply(m: Accounts): nat {
    SumExcept(m, {EMISSION_ACCOUNT})
  }

  /** The supply as a saturating 64-bit sum. */
  ghost function TotalSupply(m: Accounts): u64 {
    if Supply(m) > U64_MAX then U64_MAX else Supply(m)
  }

  function Emitted(m: Accounts): u64 {
    AccountOf(m, EMISSION_ACCOUNT).balance
  }

  const NEW_STATE: Accounts := map[GENESIS_WALLET := NO_ACCOUNT, EMISSION_ACCOUNT := NO_ACCOUNT]

  function InitializeTokenomics(m: Accounts): Accounts {
    var m1 := if GENESIS_WALLET in m then m else m[GENESIS_WALLET := NO_ACCOUNT];
    var g := m1[GENESIS_WALLET];
    var m2 := if g.balance == 0 then m1[GENESIS_WALLET := Account(GENESIS_ALLOCATION, g.nonce)] else m1;
    if EMISSION_ACCOUNT in m2 then m2 else m2[EMISSION_ACCOUNT := NO_ACCOUNT]
  }

  function AddEmittedSupply(m: Accounts, amount: u64): Accounts {
    var acc := AccountOf(m, EMISSION_ACCOUNT);
    var remaining := SaturatingSub(MINING_SUPPLY, acc.balance);
    if amount == 0 || remaining == 0 then m
    else
      var toAdd := if amount < remaining then amount else remaining;
      m[EMISSION_ACCOUNT := acc.(balance := SaturatingAdd(acc.balance, toAdd))]
  }

  function ApplyTransfer(m: Accounts, from: Address, to: Address, amount: u64, nonce: u64, fee: u64): Applied {
    var sender := AccountOf(m, from);
    var total := SaturatingAdd(amount, fee);
    if amount == 0 then Err(AmountIsZero)
    else if sender.nonce != nonce then Err(InvalidNonce)
    else if sender.balance < total then Err(InsufficientForTransfer)
    else
      var m1 := m[from := Account(sender.balance - total, WrappingAdd(sender.nonce, 1))];
      var receiver := AccountOf(m1, to);
      Ok(m1[to := Account(WrappingAdd(receiver.balance, amount), receiver.nonce)])
  }

  function Fee(tx: Transaction): u64 {
    SaturatingMul(tx.gasLimit, tx.gasPrice)
  }

  /** Contract transactions are not the state manager's business. */
  function ApplyTransaction(m: Accounts, tx: Transaction): Applied {
    if tx.payload.Transfer? then ApplyTransfer(m, tx.from, tx.payload.to, tx.payload.amount, tx.nonce, Fee(tx))
    else Ok(m)
  }

  function DeductFee(m: Accounts, from: Address, fee: u64): Applied {
    var acc := AccountOf(m, from);
    if fee == 0 then Ok(m)
    else if acc.balance < fee then Err(InsufficientForGas)
    else Ok(m[from := Account(acc.balance - fee, acc.nonce)])
  }

  ghost function CreditAccount(m: Accounts, to: Address, amount: u64): Applied {
    var acc := AccountOf(m, to);
    if amount == 0 then Ok(m)
    else if SaturatingAdd(TotalSupply(m), amount) > MAX_SUPPLY then Err(BeyondMaxSupply)
    else Ok(m[to := Account(WrappingAdd(acc.balance, amount), acc.nonce)])
  }

  // ---- conservation ---------------------------------------------------------------------------

  /** The caps: what circulates and what has been counted as emitted. */
  ghost predicate Capped(m: Accounts) {
    Supply(m) <= MAX_SUPPLY && Emitted(m) <= MINING_SUPPLY
  }

  /**
    A transfer between ordinary accounts burns exactly its fee, and no balance wraps round.
   */
  lemma {:induction false} TransferBurnsFee(m: Accounts, from: Address, to: Address, amount: u64, nonce: u64, fee: u64)
    requires from != EMISSION_ACCOUNT && to != EMISSION_ACCOUNT && Supply(m) < U64_MAX
    requires ApplyTransfer(m, from, to, amount, nonce, fee).Ok?
    ensures var m' := ApplyTransfer(m, from, to, amount, nonce, fee).accounts;
            && Supply(m') + fee == Supply(m) && Emitted(m') == Emitted(m)
            && AccountOf(m', from).balance + fee + (if from == to then 0 else amount) == AccountOf(m, from).balance
            && (from != to ==> AccountOf(m', to).balance == AccountOf(m, to).balance + amount)
  {
    var x := {EMISSION_ACCOUNT};
    var sender, total := AccountOf(m, from), SaturatingAdd(amount, fee);
    BalanceWithinSum(m, from, x);
    assert total == amount + fee;
    var paid := Account(sender.balance - total, WrappingAdd(sender.nonce, 1));
    var m1 := m[from := paid];
    SumUpdate(m, from, paid, x);
    var receiver := AccountOf(m1, to);
    BalanceWithinSum(m1, to, x);
    assert WrappingAdd(receiver.balance, amount) == receiver.balance + amount;
    SumUpdate(m1, to, Account(WrappingAdd(receiver.balance, amount), receiver.nonce), x);
  }

  lemma DeductBurnsFee(m: Accounts, from: Address, fee: u64)
    requires from != EMISSION_ACCOUNT && DeductFee(m, from, fee).Ok?
    ensures var m' := DeductFee(m, from, fee).accounts;
            Supply(m') + fee == Supply(m) && Emitted(m') == Emitted(m)
  {
    if fee != 0 {
      var acc := AccountOf(m, from);
      SumUpdate(m, from, Account(acc.balance - fee, acc.nonce), {EMISSION_ACCOUNT});
    }
  }

  /** A credit mints exactly `amount`, and only below the cap. */
  lemma CreditMintsAmount(m: Accounts, to: Address, amount: u64)
    requires to != EMISSION_ACCOUNT && CreditAccount(m, to, amount).Ok? && Supply(m) <= MAX_SUPPLY
    ensures var m' := CreditAccount(m, to, amount).accounts;
            && Supply(m') == Supply(m) + amount <= MAX_SUPPLY && Emitted(m') == Emitted(m)
            && AccountOf(m', to).balance == AccountOf(m, to).balance + amount
  {
    if amount != 0 {
      var acc := AccountOf(m, to);
      BalanceWithinSum(m, to, {EMISSION_ACCOUNT});
      SumUpdate(m, to, Account(WrappingAdd(acc.balance, amount), acc.nonce), {EMISSION_ACCOUNT});
    }
  }

  /** The emission counter stops at the mining supply and is not part of the supply. */
  lemma EmissionIsClamped(m: Accounts, amount: u64)
    requires Emitted(m) <= MINING_SUPPLY
    ensures var m' := AddEmittedSupply(m, amount);
            && Supply(m') == Supply(m)
            && Emitted(m') == if Emitted(m) + amount < MINING_SUPPLY then Emitted(m) + amount else MINING_SUPPLY
  {
    var acc := AccountOf(m, EMISSION_ACCOUNT);
    var m' := AddEmittedSupply(m, amount);
    if m' != m {
      SumUpdate(m, EMISSION_ACCOUNT, m'[EMISSION_ACCOUNT], {EMISSION_ACCOUNT});
    }
  }

  // ---- exactly when, and what stays ------------------------------------------------------------------

  /** The balance is at least the cost, or the largest number there is. */
  predicate Covers(balance: u64, cost: nat) {
    balance >= cost || balance == 0xFFFF_FFFF_FFFF_FFFF
  }

  /** A transfer is accepted exactly with an amount, the next nonce and the balance; the cost is cut off at 64 bits. */
  lemma TransferAcceptedExactly(m: Accounts, from: Address, to: Address, amount: u64, nonce: u64, fee: u64)
    ensures var sender, r := AccountOf(m, from), ApplyTransfer(m, from, to, amount, nonce, fee);
            && (r.Ok? <==> amount > 0 && sender.nonce == nonce && Covers(sender.balance, amount + fee))
            && (r == Err(AmountIsZero) <==> amount == 0)
            && (r == Err(InvalidNonce) <==> amount > 0 && sender.nonce != nonce)
  {
  }

  /** It advances the sender's nonce and touches no other nonce and no third account. */
  lemma TransferFrame(m: Accounts, from: Address, to: Address, amount: u64, nonce: u64, fee: u64)
    requires ApplyTransfer(m, from, to, amount, nonce, fee).Ok?
    ensures var m' := ApplyTransfer(m, from, to, amount, nonce, fee).accounts;
            && AccountOf(m', from).nonce == (nonce + 1) % (U64_MAX + 1)
            && (to != from ==> AccountOf(m', to).nonce == AccountOf(m, to).nonce)
            && OthersKept(m, m', {from, to})
  {
  }

  /** A transfer to oneself costs the fee and a nonce, nothing else. */
  lemma SelfTransferCostsFee(m: Accounts, a: Address, amount: u64, nonce: u64, fee: u64)
    requires ApplyTransfer(m, a, a, amount, nonce, fee).Ok? && amount + fee <= U64_MAX
    ensures var m' := ApplyTransfer(m, a, a, amount, nonce, fee).accounts;
            AccountOf(m', a) == Account(AccountOf(m, a).balance - fee, (nonce + 1) % (U64_MAX + 1))
  {
  }

  /** A fee is taken exactly from a balance that covers it; the nonce and all other accounts stay. */
  lemma DeductExactly(m: Accounts, from: Address, fee: u64)
    ensures var payer, r := AccountOf(m, from), DeductFee(m, from, fee);
            && (r.Ok? <==> payer.balance >= fee)
            && (r.Ok? ==> AccountOf(r.accounts, from) == Account(payer.balance - fee, payer.nonce))
            && (r.Ok? ==> OthersKept(m, r.accounts, {from}))
  {
  }

  /** A credit is accepted exactly below the cap; all nonces and all other accounts stay. */
  lemma CreditExactly(m: Accounts, to: Address, amount: u64)
    ensures var r := CreditAccount(m, to, amount);
            && (r.Ok? <==> amount == 0 || Supply(m) + amount <= 600_000_000)
            && (r.Ok? ==> AccountOf(r.accounts, to).nonce == AccountOf(m, to).nonce)
            && (r.Ok? ==> OthersKept(m, r.accounts, {to}))
  {
    hide Supply;
  }

  /** Counting emitted coins touches the balance of the emission account alone. */
  lemma EmissionFrame(m: Accounts, amount: u64)
    ensures var m' := AddEmittedSupply(m, amount);
            && AccountOf(m', EMISSION_ACCOUNT).nonce == AccountOf(m, EMISSION_ACCOUNT).nonce
            && OthersKept(m, m', {EMISSION_ACCOUNT})
  {
  }

  /** Initialising fills an empty genesis wallet, opens both special accounts and touches nothing else. */
  lemma InitializeExactly(m: Accounts)
    ensures var m', wallet := InitializeTokenomics(m), AccountOf(m, GENESIS_WALLET);
            && m'.Keys == m.Keys + {GENESIS_WALLET, EMISSION_ACCOUNT} && OthersKept(m, m', {GENESIS_WALLET})
            && AccountOf(m', GENESIS_WALLET) ==
                 (if wallet.balance == 0 then Account(100_000_000, wallet.nonce) else wallet)
  {
  }

  // ---- runs --------------------------------------------------------------------------------------

  datatype Op =
    | Submit(tx: Transaction)
    | TakeFee(from: Address, fee: u64)
    | Credit(to: Address, amount: u64)
    | Emit(minted: u64)

  /** The emission account is no transfer party, fee payer or credit target. */
  ghost predicate Ordinary(op: Op) {
    match op
    case Submit(tx) => tx.from != EMISSION_ACCOUNT && (tx.payload.Transfer? ==> tx.payload.to != EMISSION_ACCOUNT)
    case TakeFee(from, _) => from != EMISSION_ACCOUNT
    case Credit(to, _) => to != EMISSION_ACCOUNT
    case Emit(_) => true
  }

  ghost function Attempt(m: Accounts, op: Op): Applied {
    match op
    case Submit(tx) => ApplyTransaction(m, tx)
    case TakeFee(from, fee) => DeductFee(m, from, fee)
    case Credit(to, amount) => CreditAccount(m, to, amount)
    case Emit(amount) => Ok(AddEmittedSupply(m, amount))
  }

  /** A failed operation changes nothing. */
  ghost function Perform(m: Accounts, op: Op): Accounts {
    match Attempt(m, op)
    case Ok(m') => m'
    case Err(_) => m
  }

  ghost function PerformAll(m: Accounts, ops: seq<Op>): Accounts {
    if ops == [] then m else Perform(PerformAll(m, ops[..|ops| - 1]), ops[|ops| - 1])
  }

  lemma PerformKeepsCaps(m: Accounts, op: Op)
    requires Capped(m) && Ordinary(op)
    ensures Capped(Perform(m, op))
  {
    if Attempt(m, op).Ok? {
      match op
      case Submit(tx) =>
        if tx.payload.Transfer? {
          TransferBurnsFee(m, tx.from, tx.payload.to, tx.payload.amount, tx.nonce, Fee(tx));
        }
      case TakeFee(from, fee) => DeductBurnsFee(m, from, fee);
      case Credit(to, amount) => CreditMintsAmount(m, to, amount);
      case Emit(amount) => EmissionIsClamped(m, amount);
    }
  }

  lemma {:induction false} InitialSupply()
    ensures Supply(NEW_STATE) == 0 && Emitted(NEW_STATE) == 0
    ensures Supply(InitializeTokenomics(NEW_STATE)) == GENESIS_ALLOCATION
    ensures Emitted(InitializeTokenomics(NEW_STATE)) == 0
  {
    var x := {EMISSION_ACCOUNT};
    SumUpdate(map[], GENESIS_WALLET, NO_ACCOUNT, x);
    SumUpdate(map[GENESIS_WALLET := NO_ACCOUNT], EMISSION_ACCOUNT, NO_ACCOUNT, x);
    assert NEW_STATE == map[GENESIS_WALLET := NO_ACCOUNT][EMISSION_ACCOUNT := NO_ACCOUNT];
    SumUpdate(NEW_STATE, GENESIS_WALLET, Account(GENESIS_ALLOCATION, 0), x);
  }

  /** From a fresh, once initialised state, every run of ordinary operations stays below both caps. */
  lemma {:induction false} CapsHoldOnEveryRun(ops: seq<Op>)
    requires forall i :: 0 <= i < |ops| ==> Ordinary(ops[i])
    ensures Capped(PerformAll(InitializeTokenomics(NEW_STATE), ops))
  {
    hide Perform, Ordinary, InitializeTokenomics;
    if ops == [] {
      InitialSupply();
    } else {
      CapsHoldOnEveryRun(ops[..|ops| - 1]);
      PerformKeepsCaps(PerformAll(InitializeTokenomics(NEW_STATE), ops[..|ops| - 1]), ops[|ops| - 1]);
    }
  }

  // ---- the edges of these guarantees -----------------------------------------------------------------

  /** Initialising again leaves the supply alone exactly when the genesis wallet still holds something. */
  lemma InitializeTwiceExactly(m: Accounts)
    ensures Supply(InitializeTokenomics(m)) == Supply(m) <==> AccountOf(m, GENESIS_WALLET).balance != 0
    ensures AccountOf(m, GENESIS_WALLET).balance == 0 ==>
              Supply(InitializeTokenomics(m)) == Supply(m) + GENESIS_ALLOCATION
  {
    var x := {EMISSION_ACCOUNT};
    var m1 := if GENESIS_WALLET in m then m else m[GENESIS_WALLET := NO_ACCOUNT];
    SumUpdate(m, GENESIS_WALLET, NO_ACCOUNT, x);
    var g := m1[GENESIS_WALLET];
    var m2 := if g.balance == 0 then m1[GENESIS_WALLET := Account(GENESIS_ALLOCATION, g.nonce)] else m1;
    SumUpdate(m1, GENESIS_WALLET, Account(GENESIS_ALLOCATION, g.nonce), x);
    SumUpdate(m2, EMISSION_ACCOUNT, NO_ACCOUNT, x);
  }

  /**
    Initialising again keeps the caps exactly when the genesis wallet holds something or there is room for
    another allocation.
   */
  lemma InitializeKeepsCapsExactly(m: Accounts)
    requires Capped(m)
    ensures Capped(InitializeTokenomics(m)) <==>
              AccountOf(m, GENESIS_WALLET).balance != 0 || Supply(m) + GENESIS_ALLOCATION <= MAX_SUPPLY
  {
    hide Supply;
    InitializeTwiceExactly(m);
  }

  /** The genesis allocation moves to account 7, which is then credited with all that may still be minted. */
  const SPENT: seq<Op> :=
    [Submit(Transaction(GENESIS_WALLET, Transfer(7, GENESIS_ALLOCATION), 0, 0, 0, true)),
     Credit(7, MAX_SUPPLY - GENESIS_ALLOCATION)]

  lemma AfterSpending(m: Accounts)
    requires m == PerformAll(InitializeTokenomics(NEW_STATE), SPENT)
    ensures Supply(m) == MAX_SUPPLY && Emitted(m) == 0 && AccountOf(m, GENESIS_WALLET).balance == 0
  {
    hide Supply, PerformAll;
    var m0 := InitializeTokenomics(NEW_STATE);
    InitialSupply();
    TransferBurnsFee(m0, GENESIS_WALLET, 7, GENESIS_ALLOCATION, 0, 0);
    var m1 := Perform(m0, SPENT[0]);
    assert Supply(m1) == GENESIS_ALLOCATION && AccountOf(m1, GENESIS_WALLET).balance == 0;
    var m2 := Perform(m1, SPENT[1]);
    CreditMintsAmount(m1, 7, MAX_SUPPLY - GENESIS_ALLOCATION);
    PerformTwo(m0, SPENT[0], SPENT[1]);
    assert SPENT == [SPENT[0], SPENT[1]];
  }

  lemma PerformTwo(m: Accounts, a: Op, b: Op)
    ensures PerformAll(m, [a, b]) == Perform(Perform(m, a), b)
  {
    hide Perform;
    assert [a, b][..1] == [a] && [a][..0] == [];
    assert PerformAll(m, [a]) == Perform(m, a);
  }

  /** A run of ordinary operations after which initialising again breaks the cap. */
  lemma InitializeTwiceBreaksCap()
    ensures forall i :: 0 <= i < |SPENT| ==> Ordinary(SPENT[i])
    ensures !Capped(InitializeTokenomics(PerformAll(InitializeTokenomics(NEW_STATE), SPENT)))
  {
    hide Supply, PerformAll, InitializeTokenomics;
    var m := PerformAll(InitializeTokenomics(NEW_STATE), SPENT);
    AfterSpending(m);
    InitializeKeepsCapsExactly(m);
  }

  /** A successful transfer raises the supply exactly when it leads out of the emission account. */
  lemma {:induction false} TransferRaisesSupplyExactly(m: Accounts, from: Address, to: Address, amount: u64,
                                                       nonce: u64, fee: u64)
    requires Supply(m) + Emitted(m) < U64_MAX && ApplyTransfer(m, from, to, amount, nonce, fee).Ok?
    ensures Supply(ApplyTransfer(m, from, to, amount, nonce, fee).accounts) > Supply(m)
       <==> from == EMISSION_ACCOUNT && to != EMISSION_ACCOUNT
  {
    var x := {EMISSION_ACCOUNT};
    var sender, total := AccountOf(m, from), SaturatingAdd(amount, fee);
    var paid := Account(sender.balance - total, WrappingAdd(sender.nonce, 1));
    var m1 := m[from := paid];
    SumUpdate(m, from, paid, x);
    var receiver := AccountOf(m1, to);
    if from != EMISSION_ACCOUNT {
      BalanceWithinSum(m, from, x);
    }
    if to != EMISSION_ACCOUNT {
      BalanceWithinSum(m1, to, x);
    }
    SumUpdate(m1, to, Account(WrappingAdd(receiver.balance, amount), receiver.nonce), x);
  }
}
