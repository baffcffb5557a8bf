/**
  The state manager object (src/state/state_manager.rs): it owns the account tree, keeps
  the current root next to it, and changes nothing when an operation fails.
 */
module StateManagers {
  import opened Transactions
  import opened Balances
  import opened Ledgers
  import opened StateTrees

  class StateManager {
    const tree: SparseMerkleTree
    var currentRoot: Hash

    /** The stored root is the root of the stored accounts. */
    ghost predicate Valid()
      reads this, tree
    {
      tree.Valid() && currentRoot == RootHash(tree.root)
    }

    function Accounts(): Accounts
      reads this, tree
    {
      tree.leaves
    }

    constructor (sha: Sha)
      ensures Valid() && fresh(tree) && Accounts() == NEW_STATE && tree.sha == sha
    {
      tree := new SparseMerkleTree(sha);
      new;
      tree.UpdateAccount(GENESIS_WALLET, Account(0, 0));
      tree.UpdateAccount(EMISSION_ACCOUNT, Account(0, 0));
      currentRoot := tree.CalculateRoot();
    }

    method InitializeTokenomics()
      requires Valid()
      modifies this, tree
      ensures Valid() && Accounts() == Ledgers.InitializeTokenomics(old(Accounts()))
    {
      if GENESIS_WALLET !in tree.leaves {
        tree.UpdateAccount(GENESIS_WALLET, Account(0, 0));
      }
      var genesis := tree.leaves[GENESIS_WALLET];
      if genesis.balance == 0 {
        tree.UpdateAccount(GENESIS_WALLET, Account(100_000_000, genesis.nonce));
      }
      if EMISSION_ACCOUNT !in tree.leaves {
        tree.UpdateAccount(EMISSION_ACCOUNT, Account(0, 0));
      }
      currentRoot := tree.CalculateRoot();
    }

    method AddEmittedSupply(amount: u64)
      requires Valid()
      modifies this, tree
      ensures Valid() && Accounts() == Ledgers.AddEmittedSupply(old(Accounts()), amount)
    {
      if amount == 0 {
        return;
      }
      var acc := AccountOf(tree.leaves, EMISSION_ACCOUNT);
      var remaining := SaturatingSub(MINING_SUPPLY, acc.balance);
      if remaining == 0 {
        return;
      }
      var toAdd := if amount < remaining then amount else remaining;
      tree.UpdateAccount(EMISSION_ACCOUNT, acc.(balance := SaturatingAdd(acc.balance, toAdd)));
      currentRoot := tree.CalculateRoot();
    }

    /** The accumulating loop over all accounts, in any order. */
    method GetTotalSupply() returns (total: u64)
      ensures total == TotalSupply(Accounts())
    {
      total := 0;
      var rest := tree.leaves.Keys;
      ghost var m := tree.leaves;
      while rest != {}
        invariant rest <= m.Keys
        invariant SaturatingSum(total, Sum(m, rest - {EMISSION_ACCOUNT})) == TotalSupply(m)
        decreases rest
      {
        var a :| a in rest;
        if a == EMISSION_ACCOUNT {
          assert rest - {a} - {EMISSION_ACCOUNT} == rest - {EMISSION_ACCOUNT};
        } else {
          SumSplit(m, rest - {EMISSION_ACCOUNT}, a);
          assert rest - {EMISSION_ACCOUNT} - {a} == rest - {a} - {EMISSION_ACCOUNT};
          total := SaturatingAdd(total, tree.leaves[a].balance);
        }
        rest := rest - {a};
      }
    }

    method ApplyTransaction(tx: Transaction) returns (r: Applied)
      requires Valid()
      modifies this, tree
      ensures Valid() && r == Ledgers.ApplyTransaction(old(Accounts()), tx)
      ensures Accounts() == if r.Ok? then r.accounts else old(Accounts())
      ensures r.Err? ==> currentRoot == old(currentRoot)
    {
      var fee := SaturatingMul(tx.gasLimit, tx.gasPrice);
      if tx.payload.Transfer? {
        r := ApplyTransfer(tx.from, tx.payload.to, tx.payload.amount, tx.nonce, fee);
      } else {
        r := Ok(tree.leaves);
      }
    }

    method ApplyTransfer(from: Address, to: Address, amount: u64, nonce: u64, fee: u64) returns (r: Applied)
      requires Valid()
      modifies this, tree
      ensures Valid() && r == Ledgers.ApplyTransfer(old(Accounts()), from, to, amount, nonce, fee)
      ensures Accounts() == if r.Ok? then r.accounts else old(Accounts())
      ensures r.Err? ==> currentRoot == old(currentRoot)
    {
      hide SaturatingAdd, WrappingAdd, WellHashed, ListsEntries, Commits, CollisionFree;
      if amount == 0 {
        return Err(AmountIsZero);
      }
      var sender := AccountOf(tree.leaves, from);
      if sender.nonce != nonce {
        return Err(InvalidNonce);
      }
      var total := SaturatingAdd(amount, fee);
      if sender.balance < total {
        return Err(InsufficientForTransfer);
      }
      tree.UpdateAccount(from, Account(sender.balance - total, WrappingAdd(sender.nonce, 1)));
      var receiver := AccountOf(tree.leaves, to);
      tree.UpdateAccount(to, Account(WrappingAdd(receiver.balance, amount), receiver.nonce));
      currentRoot := tree.CalculateRoot();
      r := Ok(tree.leaves);
    }

    method DeductFee(from: Address, fee: u64) returns (r: Applied)
      requires Valid()
      modifies this, tree
      ensures Valid() && r == Ledgers.DeductFee(old(Accounts()), from, fee)
      ensures Accounts() == if r.Ok? then r.accounts else old(Accounts())
      ensures r.Err? ==> currentRoot == old(currentRoot)
    {
      if fee == 0 {
        return Ok(tree.leaves);
      }
      var acc := AccountOf(tree.leaves, from);
      if acc.balance < fee {
        return Err(InsufficientForGas);
      }
      tree.UpdateAccount(from, Account(acc.balance - fee, acc.nonce));
      currentRoot := tree.CalculateRoot();
      r := Ok(tree.leaves);
    }

    method CreditAccount(to: Address, amount: u64) returns (r: Applied)
      requires Valid()
      modifies this, tree
      ensures Valid() && r == Ledgers.CreditAccount(old(Accounts()), to, amount)
      ensures Accounts() == if r.Ok? then r.accounts else old(Accounts())
      ensures r.Err? ==> currentRoot == old(currentRoot)
    {
      if amount == 0 {
        return Ok(tree.leaves);
      }
      var supply := GetTotalSupply();
      if SaturatingAdd(supply, amount) > MAX_SUPPLY {
        return Err(BeyondMaxSupply);
      }
      var acc := AccountOf(tree.leaves, to);
      tree.UpdateAccount(to, Account(WrappingAdd(acc.balance, amount), acc.nonce));
      currentRoot := tree.CalculateRoot();
      r := Ok(tree.leaves);
    }
  }

  ghost function SaturatingSum(a: u64, b: nat): u64 {
    if a + b > U64_MAX then U64_MAX else a + b
  }

  /** Two non-empty states with the same current root hold the same accounts, whatever was done to reach them. */
  lemma StateRootCommits(s: StateManager, t: StateManager)
    requires s.Valid() && t.Valid() && s.tree.sha == t.tree.sha && CollisionFree(s.tree.sha)
    requires s.Accounts() != map[] && t.Accounts() != map[] && s.currentRoot == t.currentRoot
    ensures s.Accounts() == t.Accounts()
  {
    RootBindsAccounts(s.tree, t.tree);
  }
}
