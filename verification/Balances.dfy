/**
  Sums of balances over an account map.
 */
module Balances {
  import opened Transactions

  ghost function Sum(m: Accounts, S: set<Address>): nat
    requires S <= m.Keys
    decreases S
  {
    if S == {} then 0
    else
      var a :| a in S;
      m[a].balance + Sum(m, S - {a})
  }

  /** The sum over all accounts outside `excluded`. */
  ghost function SumExcept(m: Accounts, excluded: set<Address>): nat {
    Sum(m, m.Keys - excluded)
  }

  lemma {:induction false} SumSplit(m: Accounts, S: set<Address>, a: Address)
    requires S <= m.Keys && a in S
    ensures Sum(m, S) == m[a].balance + Sum(m, S - {a})
    decreases S
  {
    var b :| b in S && Sum(m, S) == m[b].balance + Sum(m, S - {b});
    if a != b {
      SumSplit(m, S - {b}, a);
      SumSplit(m, S - {a}, b);
      assert S - {b} - {a} == S - {a} - {b};
    }
  }

  lemma {:induction false} SumSame(m: Accounts, m': Accounts, S: set<Address>)
    requires S <= m.Keys && S <= m'.Keys && forall a :: a in S ==> m[a].balance == m'[a].balance
    ensures Sum(m, S) == Sum(m', S)
    decreases S
  {
    if S != {} {
      var a :| a in S;
      SumSame(m, m', S - {a});
      SumSplit(m, S, a);
      SumSplit(m', S, a);
    }
  }

  /** Writing one account changes the sum by the difference in that account's balance. */
  lemma {:induction false} SumUpdate(m: Accounts, a: Address, acc: Account, excluded: set<Address>)
    ensures SumExcept(m[a := acc], excluded) + (if a in excluded then 0 else AccountOf(m, a).balance)
         == SumExcept(m, excluded) + (if a in excluded then 0 else acc.balance)
  {
    var m' := m[a := acc];
    var S, S' := m.Keys - excluded, m'.Keys - excluded;
    assert S - {a} == S' - {a};
    SumSame(m, m', S - {a});
    if a !in excluded {
      SumSplit(m', S', a);
      if a in m {
        SumSplit(m, S, a);
      } else {
        assert S - {a} == S;
      }
    } else {
      assert S == S - {a} && S' == S' - {a};
    }
  }

  lemma BalanceWithinSum(m: Accounts, a: Address, excluded: set<Address>)
    requires a !in excluded
    ensures AccountOf(m, a).balance <= SumExcept(m, excluded)
  {
    if a in m {
      SumSplit(m, m.Keys - excluded, a);
    }
  }

  lemma TwoBalancesWithinSum(m: Accounts, a: Address, b: Address, excluded: set<Address>)
    requires a != b && a !in excluded && b !in excluded
    ensures AccountOf(m, a).balance + AccountOf(m, b).balance <= SumExcept(m, excluded)
  {
    var S := m.Keys - excluded;
    if a in m && b in m {
      SumSplit(m, S, a);
      SumSplit(m, S - {a}, b);
    } else if a in m {
      SumSplit(m, S, a);
    } else if b in m {
      SumSplit(m, S, b);
    }
  }
}
