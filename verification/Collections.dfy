/**
  What every part of the model uses: optional values, lists without repeats, sizes of sets.
 */
module Collections {

  datatype Option<+T> = None | Some(value: T)

  ghost predicate NoRepeats<T>(xs: seq<T>) {
    forall i, j :: 0 <= i < j < |xs| ==> xs[i] != xs[j]
  }

  function Elements<T(==)>(xs: seq<T>): set<T> {
    set x | x in xs
  }

  lemma {:induction false} ElementsCount<T>(xs: seq<T>)
    requires NoRepeats(xs)
    ensures |Elements(xs)| == |xs|
  {
    if xs != [] {
      var init, x := xs[..|xs| - 1], xs[|xs| - 1];
      ElementsCount(init);
      assert xs == init + [x];
      assert Elements(xs) == Elements(init) + {x};
    }
  }

  /** A list has as many members as entries exactly when none is repeated. */
  lemma {:induction false} DistinctExactly<T>(xs: seq<T>)
    ensures |Elements(xs)| <= |xs| && (|Elements(xs)| == |xs| <==> NoRepeats(xs))
  {
    if xs != [] {
      var n := |xs| - 1;
      var init, x := xs[..n], xs[n];
      DistinctExactly(init);
      assert xs == init + [x];
      assert Elements(xs) == Elements(init) + {x};
      if x in init {
        var i :| 0 <= i < n && init[i] == x;
        assert xs[i] == xs[n];
      }
    }
  }

  lemma NoRepeatsPermutes<T>(xs: seq<T>, ys: seq<T>)
    requires NoRepeats(xs) && multiset(xs) == multiset(ys)
    ensures NoRepeats(ys)
  {
    forall i, j | 0 <= i < j < |ys|
      ensures ys[i] != ys[j]
    {
      if ys[i] == ys[j] {
        assert ys == ys[..i] + [ys[i]] + ys[i + 1..j] + [ys[j]] + ys[j + 1..];
        assert multiset(ys)[ys[i]] >= 2;
        OnceEach(xs, ys[i]);
      }
    }
  }

  lemma {:induction false} OnceEach<T>(xs: seq<T>, x: T)
    requires NoRepeats(xs)
    ensures multiset(xs)[x] <= 1
  {
    if xs != [] {
      var init := xs[..|xs| - 1];
      OnceEach(init, x);
      assert xs == init + [xs[|xs| - 1]];
      assert xs[|xs| - 1] !in init;
    }
  }

  lemma SomeMember<T>(xs: seq<T>)
    ensures xs == [] || exists x :: x in xs
  {
    if xs != [] {
      assert xs[0] in xs;
    }
  }

  lemma {:induction false} SubsetIsSmaller<T>(a: set<T>, b: set<T>)
    requires a <= b
    ensures |a| <= |b|
    decreases a
  {
    if x :| x in a {
      SubsetIsSmaller(a - {x}, b - {x});
    }
  }

  lemma {:induction false} SetBelow(S: set<nat>, n: nat)
    requires forall c :: c in S ==> c < n
    ensures |S| <= n
  {
    if n == 0 {
      assert S == {};
    } else {
      SetBelow(S - {n - 1}, n - 1);
    }
  }

  // ---- numbers for pairs and lists ---------------------------------------------------------------

  /** 2^a * (2b + 1). */
  function PairCode(a: nat, b: nat): nat {
    if a == 0 then 2 * b + 1 else 2 * PairCode(a - 1, b)
  }

  lemma {:induction false} PairCodeInjective(a: nat, b: nat, a': nat, b': nat)
    requires PairCode(a, b) == PairCode(a', b')
    ensures a == a' && b == b'
  {
    if a > 0 && a' > 0 {
      PairCodeInjective(a - 1, b, a' - 1, b');
    }
  }

  lemma {:induction false} PairCodePositive(a: nat, b: nat)
    ensures PairCode(a, b) > 0
  {
    if a > 0 {
      PairCodePositive(a - 1, b);
    }
  }

  function ListCode(xs: seq<nat>): nat {
    if xs == [] then 0 else PairCode(xs[|xs| - 1], ListCode(xs[..|xs| - 1]))
  }

  lemma {:induction false} ListCodeInjective(xs: seq<nat>, ys: seq<nat>)
    requires ListCode(xs) == ListCode(ys)
    ensures xs == ys
    decreases |xs|
  {
    hide PairCode;
    if xs != [] {
      PairCodePositive(xs[|xs| - 1], ListCode(xs[..|xs| - 1]));
    }
    if ys != [] {
      PairCodePositive(ys[|ys| - 1], ListCode(ys[..|ys| - 1]));
    }
    if xs != [] && ys != [] {
      PairCodeInjective(xs[|xs| - 1], ListCode(xs[..|xs| - 1]), ys[|ys| - 1], ListCode(ys[..|ys| - 1]));
      ListCodeInjective(xs[..|xs| - 1], ys[..|ys| - 1]);
      assert xs == xs[..|xs| - 1] + [xs[|xs| - 1]] && ys == ys[..|ys| - 1] + [ys[|ys| - 1]];
    }
  }
}
