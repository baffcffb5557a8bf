/**
  How deep the finality engine's height tree gets: as shallow as a binary tree can be when all heights
  differ, and a list when they are all equal.
 */
module TreeDepths {
  import opened Collections
  import opened HeightTrees

  function Depth(t: Tree): nat {
    match t
    case Empty => 0
    case Node(_, l, r) => 1 + if Depth(l) < Depth(r) then Depth(r) else Depth(l)
  }

  /** The least depth of a binary tree with `n` nodes: the number of binary digits of `n`. */
  function Bits(n: nat): nat {
    if n == 0 then 0 else 1 + Bits(n / 2)
  }

  lemma {:induction false} BitsGrow(a: nat, b: nat)
    requires a <= b
    ensures Bits(a) <= Bits(b)
  {
    if a > 0 {
      BitsGrow(a / 2, b / 2);
    }
  }

  function Size(t: Tree): nat {
    match t
    case Empty => 0
    case Node(_, l, r) => 1 + Size(l) + Size(r)
  }

  /** No binary tree of this size is shallower. */
  lemma {:induction false} DepthAtLeastBits(t: Tree)
    ensures Bits(Size(t)) <= Depth(t)
  {
    match t
    case Empty =>
    case Node(_, l, r) =>
      DepthAtLeastBits(l);
      DepthAtLeastBits(r);
      var larger := if Size(l) < Size(r) then r else l;
      BitsGrow(Size(t) / 2, Size(larger));
  }

  ghost predicate DistinctHeights(xs: seq<Entry>) {
    forall i, j :: 0 <= i < j < |xs| ==> xs[i].height != xs[j].height
  }

  lemma DistinctPermutes(xs: seq<Entry>, ys: seq<Entry>)
    requires DistinctHeights(xs) && multiset(xs) == multiset(ys)
    ensures DistinctHeights(ys)
  {
    assert NoRepeats(xs);
    NoRepeatsPermutes(xs, ys);
    forall i, j | 0 <= i < j < |ys| ensures ys[i].height != ys[j].height {
      assert ys[i] in multiset(xs) && ys[j] in multiset(xs);
      var a :| 0 <= a < |xs| && xs[a] == ys[i];
      var b :| 0 <= b < |xs| && xs[b] == ys[j];
      assert a < b || b < a;
    }
  }

  lemma {:induction false} InsertAscends(xs: seq<Entry>, e: Entry)
    requires HeightsAscend(xs)
    ensures HeightsAscend(InsertByHeight(xs, e))
  {
    if xs != [] && xs[|xs| - 1].height > e.height {
      var init, last := xs[..|xs| - 1], xs[|xs| - 1];
      InsertAscends(init, e);
      InsertKeeps(init, e);
      var ys := InsertByHeight(init, e);
      forall i | 0 <= i < |ys| ensures ys[i].height <= last.height {
        assert ys[i] in multiset(ys);
      }
    }
  }

  lemma {:induction false} SortAscends(xs: seq<Entry>)
    ensures HeightsAscend(SortByHeight(xs))
  {
    if xs != [] {
      SortAscends(xs[..|xs| - 1]);
      InsertAscends(SortByHeight(xs[..|xs| - 1]), xs[|xs| - 1]);
    }
  }

  /** The entries of one height, in list order. */
  function OfHeight(xs: seq<Entry>, height: nat): seq<Entry> {
    if xs == [] then []
    else OfHeight(xs[..|xs| - 1], height) + (if xs[|xs| - 1].height == height then [xs[|xs| - 1]] else [])
  }

  lemma OfHeightSnoc(xs: seq<Entry>, e: Entry, height: nat)
    ensures OfHeight(xs + [e], height) == OfHeight(xs, height) + (if e.height == height then [e] else [])
  {
    assert (xs + [e])[..|xs|] == xs;
  }

  lemma {:induction false} InsertIsStable(xs: seq<Entry>, e: Entry, height: nat)
    requires HeightsAscend(xs)
    ensures OfHeight(InsertByHeight(xs, e), height) == OfHeight(xs, height) + (if e.height == height then [e] else [])
  {
    hide OfHeight;
    if xs == [] || xs[|xs| - 1].height <= e.height {
      OfHeightSnoc(xs, e, height);
      assert [] + [e] == [e];
    } else {
      var init, last := xs[..|xs| - 1], xs[|xs| - 1];
      InsertIsStable(init, e, height);
      OfHeightSnoc(InsertByHeight(init, e), last, height);
      OfHeightSnoc(init, last, height);
      assert xs == init + [last];
    }
  }

  /** The sort is stable: entries of equal height keep their order. */
  lemma {:induction false} SortIsStable(xs: seq<Entry>, height: nat)
    ensures OfHeight(SortByHeight(xs), height) == OfHeight(xs, height)
  {
    hide InsertByHeight, OfHeight;
    if xs != [] {
      var init, x := xs[..|xs| - 1], xs[|xs| - 1];
      SortIsStable(init, height);
      SortAscends(init);
      InsertIsStable(SortByHeight(init), x, height);
      OfHeightSnoc(init, x, height);
      assert xs == init + [x];
    }
  }

  lemma SplitSnoc(xs: seq<Entry>, e: Entry, height: nat)
    ensures Lower(xs + [e], height) == Lower(xs, height) + (if e.height < height then [e] else [])
    ensures NotLower(xs + [e], height) == NotLower(xs, height) + (if e.height < height then [] else [e])
  {
    assert (xs + [e])[..|xs|] == xs;
  }

  lemma SplitNone(height: nat)
    ensures Lower([], height) == [] && NotLower([], height) == []
  {
  }

  lemma {:induction false} SplitLow(xs: seq<Entry>, height: nat)
    requires forall x :: x in xs ==> x.height < height
    ensures Lower(xs, height) == xs && NotLower(xs, height) == []
  {
    hide Lower, NotLower;
    if xs == [] {
      SplitNone(height);
    } else {
      var init, x := xs[..|xs| - 1], xs[|xs| - 1];
      SplitLow(init, height);
      SplitSnoc(init, x, height);
      assert xs == init + [x] && x in xs;
    }
  }

  lemma {:induction false} SplitConcat(xs: seq<Entry>, ys: seq<Entry>, height: nat)
    requires forall x :: x in xs ==> x.height < height
    requires forall y :: y in ys ==> y.height >= height
    ensures Lower(xs + ys, height) == xs && NotLower(xs + ys, height) == ys
    decreases |ys|
  {
    hide Lower, NotLower;
    if ys == [] {
      SplitLow(xs, height);
      assert xs + ys == xs;
    } else {
      var init, y := ys[..|ys| - 1], ys[|ys| - 1];
      SplitConcat(xs, init, height);
      SplitSnoc(xs + init, y, height);
      assert xs + ys == (xs + init) + [y] && ys == init + [y] && y in ys;
    }
  }

  /** What the removal of the middle entry of a sorted list leaves on its two sides. */
  lemma MiddleSplits(sorted: seq<Entry>, mid: nat)
    requires HeightsAscend(sorted) && DistinctHeights(sorted) && mid < |sorted|
    ensures var rest, h := SwapRemove(sorted, mid), sorted[mid].height;
            && |Lower(rest, h)| == mid && DistinctHeights(Lower(rest, h))
            && |NotLower(rest, h)| == |sorted| - 1 - mid && DistinctHeights(NotLower(rest, h))
  {
    hide Lower, NotLower, HeightsAscend, DistinctHeights, SwapRemove;
    var rest := SwapRemove(sorted, mid);
    MiddleSides(sorted, mid);
    assert rest == rest[..mid] + rest[mid..];
    SplitConcat(rest[..mid], rest[mid..], sorted[mid].height);
  }

  lemma MiddleSides(sorted: seq<Entry>, mid: nat)
    requires HeightsAscend(sorted) && DistinctHeights(sorted) && mid < |sorted|
    ensures var rest, h := SwapRemove(sorted, mid), sorted[mid].height;
            && |rest| == |sorted| - 1
            && (forall x :: x in rest[..mid] ==> x.height < h) && (forall y :: y in rest[mid..] ==> y.height >= h)
            && DistinctHeights(rest[..mid]) && DistinctHeights(rest[mid..])
  {
    var rest, n := SwapRemove(sorted, mid), |sorted| - 1;
    assert forall i :: 0 <= i < n ==> rest[i] == sorted[if i == mid then n else i];
  }

  /** With all heights different the tree is as shallow as possible. */
  lemma {:induction false} DistinctHeightsBalance(nodes: seq<Entry>)
    requires DistinctHeights(nodes)
    ensures Depth(BuildBalancedTree(nodes)) == Bits(|nodes|)
    decreases |nodes|
  {
    hide Lower, NotLower, SortByHeight, SwapRemove, DistinctHeights;
    if nodes != [] {
      var sorted := SortByHeight(nodes);
      SortKeeps(nodes);
      SortAscends(nodes);
      DistinctPermutes(nodes, sorted);
      var mid := |sorted| / 2;
      MiddleSplits(sorted, mid);
      var rest, h := SwapRemove(sorted, mid), sorted[mid].height;
      DistinctHeightsBalance(Lower(rest, h));
      DistinctHeightsBalance(NotLower(rest, h));
      BitsGrow(|sorted| - 1 - mid, mid);
    }
  }

  /** With all heights equal it is a list. */
  lemma {:induction false} EqualHeightsDegenerate(nodes: seq<Entry>, height: nat)
    requires forall e :: e in nodes ==> e.height == height
    ensures Depth(BuildBalancedTree(nodes)) == |nodes|
    decreases |nodes|
  {
    hide Lower, NotLower, SortByHeight, SwapRemove;
    if nodes != [] {
      var sorted := SortByHeight(nodes);
      SortKeeps(nodes);
      var mid := |sorted| / 2;
      var rest := SwapRemove(sorted, mid);
      SwapRemoveKeeps(sorted, mid);
      assert |multiset(rest)| + 1 == |multiset(sorted)|;
      forall e | e in rest ensures e.height == height { assert e in multiset(sorted); }
      assert sorted[mid] in multiset(nodes);
      SplitConcat([], rest, height);
      assert [] + rest == rest;
      EqualHeightsDegenerate(rest, height);
      EqualHeightsDegenerate([], height);
    }
  }
}
