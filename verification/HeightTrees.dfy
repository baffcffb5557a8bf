/**
  The height-ordered search tree of the finality engine: sort by height, take the middle
  entry out by swapping in the last one, split the rest, recurse.
 */
module HeightTrees {
  import opened Collections
  import opened Graphs

  datatype Entry = Entry(hash: BlockHash, height: nat, score: nat)

  datatype Tree = Empty | Node(entry: Entry, left: Tree, right: Tree)

  /** Left to right. */
  function Entries(t: Tree): seq<Entry> {
    match t
    case Empty => []
    case Node(e, l, r) => Entries(l) + [e] + Entries(r)
  }

  ghost predicate HeightsAscend(xs: seq<Entry>) {
    forall i, j :: 0 <= i < j < |xs| ==> xs[i].height <= xs[j].height
  }

  /** Behind all entries that are not higher. */
  function InsertByHeight(xs: seq<Entry>, e: Entry): seq<Entry> {
    if xs == [] then [e]
    else if xs[|xs| - 1].height <= e.height then xs + [e]
    else InsertByHeight(xs[..|xs| - 1], e) + [xs[|xs| - 1]]
  }

  /** A stable sort by height. */
  function SortByHeight(xs: seq<Entry>): seq<Entry> {
    if xs == [] then [] else InsertByHeight(SortByHeight(xs[..|xs| - 1]), xs[|xs| - 1])
  }

  /** Removes the entry at `i`, moving the last one into its place. */
  function SwapRemove(xs: seq<Entry>, i: nat): seq<Entry>
    requires i < |xs|
  {
    xs[i := xs[|xs| - 1]][..|xs| - 1]
  }

  function Lower(xs: seq<Entry>, height: nat): seq<Entry> {
    if xs == [] then []
    else Lower(xs[..|xs| - 1], height) + (if xs[|xs| - 1].height < height then [xs[|xs| - 1]] else [])
  }

  function NotLower(xs: seq<Entry>, height: nat): seq<Entry> {
    if xs == [] then []
    else NotLower(xs[..|xs| - 1], height) + (if xs[|xs| - 1].height < height then [] else [xs[|xs| - 1]])
  }

  function BuildBalancedTree(nodes: seq<Entry>): Tree
    decreases |nodes|
  {
    if nodes == [] then Empty
    else
      SortKeeps(nodes);
      var sorted := SortByHeight(nodes);
      var mid := |sorted| / 2;
      var rest := SwapRemove(sorted, mid);
      SplitKeeps(rest, sorted[mid].height);
      Node(sorted[mid],
           BuildBalancedTree(Lower(rest, sorted[mid].height)),
           BuildBalancedTree(NotLower(rest, sorted[mid].height)))
  }

  /** The node itself, then the left subtree, then the right one. */
  function FindNode(t: Tree, target: BlockHash): Option<Entry> {
    match t
    case Empty => None
    case Node(e, l, r) =>
      if e.hash == target then Some(e)
      else if FindNode(l, target).Some? then FindNode(l, target)
      else FindNode(r, target)
  }

  lemma {:induction false} InsertKeeps(xs: seq<Entry>, e: Entry)
    ensures multiset(InsertByHeight(xs, e)) == multiset(xs) + multiset{e}
  {
    if xs != [] {
      assert xs == xs[..|xs| - 1] + [xs[|xs| - 1]];
      if xs[|xs| - 1].height > e.height {
        InsertKeeps(xs[..|xs| - 1], e);
      }
    }
  }

  lemma {:induction false} SortKeeps(xs: seq<Entry>)
    ensures multiset(SortByHeight(xs)) == multiset(xs)
    ensures |SortByHeight(xs)| == |xs|
  {
    hide InsertByHeight;
    if xs != [] {
      var init, x := xs[..|xs| - 1], xs[|xs| - 1];
      SortKeeps(init);
      InsertKeeps(SortByHeight(init), x);
      assert xs == init + [x];
    }
    assert |multiset(SortByHeight(xs))| == |multiset(xs)|;
  }

  lemma SwapRemoveKeeps(xs: seq<Entry>, i: nat)
    requires i < |xs|
    ensures multiset(SwapRemove(xs, i)) + multiset{xs[i]} == multiset(xs)
  {
    var last := xs[|xs| - 1];
    var ys := xs[i := last];
    assert multiset(ys) == multiset(xs) - multiset{xs[i]} + multiset{last};
    assert ys == ys[..|ys| - 1] + [last];
  }

  lemma {:induction false} SplitKeeps(xs: seq<Entry>, height: nat)
    ensures multiset(Lower(xs, height)) + multiset(NotLower(xs, height)) == multiset(xs)
    ensures |Lower(xs, height)| <= |xs| && |NotLower(xs, height)| <= |xs|
    ensures forall e :: e in Lower(xs, height) ==> e.height < height
    ensures forall e :: e in NotLower(xs, height) ==> e.height >= height
  {
    if xs != [] {
      SplitKeeps(xs[..|xs| - 1], height);
      assert xs == xs[..|xs| - 1] + [xs[|xs| - 1]];
    }
  }

  lemma AscendConcat(l: seq<Entry>, e: Entry, r: seq<Entry>)
    requires HeightsAscend(l) && HeightsAscend(r)
    requires forall x :: x in l ==> x.height <= e.height
    requires forall x :: x in r ==> x.height >= e.height
    ensures HeightsAscend(l + [e] + r)
  {
    var all := l + [e] + r;
    forall i, j | 0 <= i < j < |all|
      ensures all[i].height <= all[j].height
    {
      if i < |l| { assert all[i] in l; }
      if j < |l| { assert all[j] in l; }
      if i > |l| { assert all[i] in r; }
      if j > |l| { assert all[j] in r && all[j] == r[j - |l| - 1]; }
    }
  }

  /** The tree holds every entry exactly as often as the input, and reads in height order from left to right. */
  lemma {:induction false} TreeHoldsAll(nodes: seq<Entry>)
    ensures multiset(Entries(BuildBalancedTree(nodes))) == multiset(nodes)
    ensures HeightsAscend(Entries(BuildBalancedTree(nodes)))
    decreases |nodes|
  {
    if nodes != [] {
      SortKeeps(nodes);
      var sorted := SortByHeight(nodes);
      var mid := |sorted| / 2;
      var rest, h := SwapRemove(sorted, mid), sorted[mid].height;
      SwapRemoveKeeps(sorted, mid);
      SplitKeeps(rest, h);
      TreeHoldsAll(Lower(rest, h));
      TreeHoldsAll(NotLower(rest, h));
      TreeJoins(sorted[mid], BuildBalancedTree(Lower(rest, h)), BuildBalancedTree(NotLower(rest, h)),
                Lower(rest, h), NotLower(rest, h));
    }
  }

  lemma TreeJoins(e: Entry, l: Tree, r: Tree, lower: seq<Entry>, higher: seq<Entry>)
    requires multiset(Entries(l)) == multiset(lower) && HeightsAscend(Entries(l))
    requires multiset(Entries(r)) == multiset(higher) && HeightsAscend(Entries(r))
    requires forall x :: x in lower ==> x.height < e.height
    requires forall x :: x in higher ==> x.height >= e.height
    ensures multiset(Entries(Node(e, l, r))) == multiset(lower) + multiset(higher) + multiset{e}
    ensures HeightsAscend(Entries(Node(e, l, r)))
  {
    var ls, rs := Entries(l), Entries(r);
    assert Entries(Node(e, l, r)) == ls + [e] + rs;
    hide Entries, HeightsAscend;
    forall x | x in ls ensures x.height <= e.height { assert x in multiset(lower); }
    forall x | x in rs ensures x.height >= e.height { assert x in multiset(higher); }
    AscendConcat(ls, e, rs);
  }

  /** `FindNode` succeeds exactly on the hashes in the tree, and then returns an entry with that hash. */
  lemma {:induction false} FindNodeFinds(t: Tree, target: BlockHash)
    ensures FindNode(t, target).Some? <==> exists e :: e in Entries(t) && e.hash == target
    ensures FindNode(t, target).Some? ==>
              FindNode(t, target).value in Entries(t) && FindNode(t, target).value.hash == target
  {
    match t
    case Empty =>
    case Node(e, l, r) =>
      FindNodeFinds(l, target);
      FindNodeFinds(r, target);
      assert forall x :: x in Entries(t) <==> x in Entries(l) || x == e || x in Entries(r);
  }
}
