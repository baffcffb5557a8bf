/**
  The scheduling loops (src/execution/parallel_executor.rs) and what the batches they
  produce guarantee.
 */
module Schedulers {
  import opened Collections
  import opened Transactions
  import opened Scheduling

  function Flatten(batches: seq<seq<Transaction>>): seq<Transaction> {
    if batches == [] then [] else Flatten(batches[..|batches| - 1]) + batches[|batches| - 1]
  }

  // ---- what a colour class holds -------------------------------------------------------

  /** The members of a class are the transactions at the positions of that colour. */
  lemma {:induction false} ClassMembers(txs: seq<Transaction>, colors: seq<nat>, c: nat, tx: Transaction)
    requires |colors| == |txs|
    ensures tx in ColorClass(txs, colors, c) <==> exists i :: 0 <= i < |txs| && colors[i] == c && txs[i] == tx
  {
    if txs != [] {
      var n := |txs| - 1;
      ClassMembers(txs[..n], colors[..n], c, tx);
      if i :| 0 <= i < |txs| && colors[i] == c && txs[i] == tx && i < n {
        assert colors[..n][i] == c && txs[..n][i] == tx;
      }
      if tx in ColorClass(txs[..n], colors[..n], c) {
        var i :| 0 <= i < n && colors[..n][i] == c && txs[..n][i] == tx;
        assert colors[i] == c && txs[i] == tx;
      }
    }
  }

  lemma {:induction false} ClassHasNoRepeats(txs: seq<Transaction>, colors: seq<nat>, c: nat)
    requires |colors| == |txs| && NoRepeats(txs)
    ensures NoRepeats(ColorClass(txs, colors, c))
  {
    if txs != [] {
      var n := |txs| - 1;
      ClassHasNoRepeats(txs[..n], colors[..n], c);
      ClassMembers(txs[..n], colors[..n], c, txs[n]);
    }
  }

  /** The classes of the colours `cs`, one after the other. */
  ghost function Classes(txs: seq<Transaction>, colors: seq<nat>, cs: seq<nat>): seq<seq<Transaction>>
    requires |colors| == |txs|
  {
    seq(|cs|, b requires 0 <= b < |cs| => ColorClass(txs, colors, cs[b]))
  }

  lemma FlattenClassesSnoc(txs: seq<Transaction>, colors: seq<nat>, cs: seq<nat>)
    requires |colors| == |txs| && cs != []
    ensures Flatten(Classes(txs, colors, cs))
         == Flatten(Classes(txs, colors, cs[..|cs| - 1])) + ColorClass(txs, colors, cs[|cs| - 1])
  {
    var all := Classes(txs, colors, cs);
    assert all[..|all| - 1] == Classes(txs, colors, cs[..|cs| - 1]);
  }

  lemma SplitCounts(a: seq<Transaction>, b: seq<Transaction>)
    ensures multiset(a + b) == multiset(a) + multiset(b)
  {
  }

  lemma LastIsNew(cs: seq<nat>)
    requires NoRepeats(cs) && cs != []
    ensures cs[|cs| - 1] !in cs[..|cs| - 1]
    ensures forall c :: c in cs <==> c in cs[..|cs| - 1] || c == cs[|cs| - 1]
  {
    assert cs == cs[..|cs| - 1] + [cs[|cs| - 1]];
  }

  lemma {:induction false} SnocIsCounted(txs: seq<Transaction>, colors: seq<nat>, tx: Transaction, color: nat,
                                         cs: seq<nat>)
    requires |colors| == |txs| && NoRepeats(cs)
    ensures multiset(Flatten(Classes(txs + [tx], colors + [color], cs))) ==
            multiset(Flatten(Classes(txs, colors, cs))) + (if color in cs then multiset{tx} else multiset{})
    decreases |cs|
  {
    if cs == [] {
      assert Classes(txs + [tx], colors + [color], cs) == Classes(txs, colors, cs);
    } else {
      hide Flatten, ColorClass, Classes;
      var init, c := cs[..|cs| - 1], cs[|cs| - 1];
      SnocIsCounted(txs, colors, tx, color, init);
      FlattenClassesSnoc(txs + [tx], colors + [color], cs);
      FlattenClassesSnoc(txs, colors, cs);
      ClassSnoc(txs, colors, tx, color, c);
      SplitCounts(Flatten(Classes(txs + [tx], colors + [color], init)), ColorClass(txs + [tx], colors + [color], c));
      SplitCounts(Flatten(Classes(txs, colors, init)), ColorClass(txs, colors, c));
      LastIsNew(cs);
      if color == c {
        SplitCounts(ColorClass(txs, colors, c), [tx]);
      }
    }
  }

  lemma {:induction false} NothingToClassify(cs: seq<nat>)
    ensures Flatten(Classes([], [], cs)) == []
  {
    if cs != [] {
      NothingToClassify(cs[..|cs| - 1]);
      FlattenClassesSnoc([], [], cs);
    }
  }

  lemma {:induction false} ClassesCountAll(txs: seq<Transaction>, colors: seq<nat>, cs: seq<nat>)
    requires |colors| == |txs| && NoRepeats(cs) && forall c :: c in colors ==> c in cs
    ensures multiset(Flatten(Classes(txs, colors, cs))) == multiset(txs)
  {
    if txs == [] {
      NothingToClassify(cs);
    } else {
      var n := |txs| - 1;
      assert colors == colors[..n] + [colors[n]] && txs == txs[..n] + [txs[n]];
      ClassesCountAll(txs[..n], colors[..n], cs);
      SnocIsCounted(txs[..n], colors[..n], txs[n], colors[n], cs);
    }
  }

  lemma ByFirstUseHasNoRepeats(colors: seq<nat>, cs: seq<nat>)
    requires (forall c :: c in cs ==> c in colors) && ByFirstUse(colors, cs)
    ensures NoRepeats(cs)
  {
  }

  // ---- the guarantees --------------------------------------------------------------------

  /** Every transaction is in exactly one batch, exactly once. */
  lemma BatchesPartition(txs: seq<Transaction>, colors: seq<nat>)
    requires |colors| == |txs|
    ensures multiset(Flatten(Batches(txs, colors))) == multiset(txs)
  {
    ColorOrderSorted(colors);
    ByFirstUseHasNoRepeats(colors, ColorOrder(colors));
    ClassesCountAll(txs, colors, ColorOrder(colors));
    assert Classes(txs, colors, ColorOrder(colors)) == Batches(txs, colors);
  }

  /** Pairwise free of conflicts, and without repeats. */
  ghost predicate Independent(hashing: Hashing, txs: seq<Transaction>) {
    && NoRepeats(txs)
    && forall a, b :: a in txs && b in txs && a != b ==> !Conflict(hashing, a, b)
  }

  lemma DistinctHashesNoRepeats(hashing: Hashing, txs: seq<Transaction>)
    requires DistinctHashes(hashing, txs)
    ensures NoRepeats(txs)
  {
  }

  /** No two conflicting transactions share a batch. */
  lemma BatchesAreIndependent(hashing: Hashing, txs: seq<Transaction>, colors: seq<nat>, b: nat)
    requires DistinctHashes(hashing, txs) && Greedy(hashing, txs, colors) && b < |Batches(txs, colors)|
    ensures Independent(hashing, Batches(txs, colors)[b])
  {
    hide Conflict, ColorOrder;
    var c := ColorOrder(colors)[b];
    DistinctHashesNoRepeats(hashing, txs);
    ClassHasNoRepeats(txs, colors, c);
    var batch := ColorClass(txs, colors, c);
    forall x, y | x in batch && y in batch && x != y
      ensures !Conflict(hashing, x, y)
    {
      ClassMembers(txs, colors, c, x);
      ClassMembers(txs, colors, c, y);
      var i :| 0 <= i < |txs| && colors[i] == c && txs[i] == x;
      var j :| 0 <= j < |txs| && colors[j] == c && txs[j] == y;
      if Adjacent(hashing, txs, i, j) {
        GreedyIsProper(hashing, txs, colors, i, j);
      }
    }
  }

  /** There are at most (greatest number of conflicts + 1) batches. */
  lemma BatchesBound(hashing: Hashing, txs: seq<Transaction>, colors: seq<nat>, most: nat)
    requires Greedy(hashing, txs, colors)
    requires forall i: nat :: i < |txs| ==> Degree(hashing, txs, i) <= most
    ensures |Batches(txs, colors)| <= most + 1
  {
    hide Greedy, Degree, FirstUse;
    GreedyLength(hashing, txs, colors);
    ColorOrderSorted(colors);
    ByFirstUseHasNoRepeats(colors, ColorOrder(colors));
    forall c | c in ColorOrder(colors)
      ensures c < most + 1
    {
      var i :| 0 <= i < |colors| && colors[i] == c;
      ColorAtMostDegree(hashing, txs, colors, i);
    }
    ElementsCount(ColorOrder(colors));
    SetBelow(Elements(ColorOrder(colors)), most + 1);
  }

  lemma GreedyLength(hashing: Hashing, txs: seq<Transaction>, colors: seq<nat>)
    requires Greedy(hashing, txs, colors)
    ensures |colors| == |txs|
  {
  }

  /** There is only one schedule: it does not depend on any iteration order. */
  lemma ScheduleIsUnique(hashing: Hashing, txs: seq<Transaction>, c1: seq<nat>, c2: seq<nat>)
    requires Greedy(hashing, txs, c1) && Greedy(hashing, txs, c2)
    ensures c1 == c2
  {
    GreedyIsUnique(hashing, txs, c1, c2, |txs|);
    assert c1[..|txs|] == c1 && c2[..|txs|] == c2;
  }

  // ---- the order of conflicting transactions ------------------------------------------------

  /** Position `i` runs in an earlier batch than position `j`. */
  ghost predicate RunsBefore(colors: seq<nat>, i: nat, j: nat)
    requires i < |colors| && j < |colors|
  {
    FirstUse(colors, colors[i]) < FirstUse(colors, colors[j])
  }

  ghost predicate KeepsOriginalOrder(hashing: Hashing, txs: seq<Transaction>, colors: seq<nat>)
    requires |colors| == |txs|
  {
    forall i: nat, j: nat :: i < j < |txs| && Adjacent(hashing, txs, i, j) ==> RunsBefore(colors, i, j)
  }

  /**
    If nothing later conflicts with the first transaction, its batch - which runs first - collects
    every transaction without later conflicts; conflicting transactions then keep their original
    order only when there are none.
   */
  lemma {:induction false} OrderLostWhenFirstIsFree(hashing: Hashing, txs: seq<Transaction>, colors: seq<nat>)
    requires Greedy(hashing, txs, colors) && txs != []
    requires forall j: nat :: j > 0 ==> !Adjacent(hashing, txs, 0, j)
    ensures KeepsOriginalOrder(hashing, txs, colors) <==>
              forall i: nat, j: nat :: i < j < |txs| ==> !Adjacent(hashing, txs, i, j)
  {
    ColorZeroExactly(hashing, txs, colors, 0);
    FirstUseUnique(colors, 0, 0);
    if i: nat, j: nat :| i < j < |txs| && Adjacent(hashing, txs, i, j) {
      var last := LastConflict(hashing, txs, i, j);
      var k: nat :| k < last && Adjacent(hashing, txs, k, last);
      ColorZeroExactly(hashing, txs, colors, last);
      assert !RunsBefore(colors, k, last);
    }
  }

  /** From any conflict one comes to a position with earlier conflicts and no later ones. */
  lemma {:induction false} LastConflict(hashing: Hashing, txs: seq<Transaction>, i: nat, j: nat) returns (last: nat)
    requires i < j < |txs| && Adjacent(hashing, txs, i, j)
    ensures last < |txs| && exists k: nat :: k < last && Adjacent(hashing, txs, k, last)
    ensures forall m: nat :: last < m ==> !Adjacent(hashing, txs, last, m)
    decreases |txs| - j
  {
    if m: nat :| j < m && Adjacent(hashing, txs, j, m) {
      last := LastConflict(hashing, txs, j, m);
    } else {
      last := j;
    }
  }

  const FREE := Transaction(1, Transfer(2, 1), 0, 1, 1, true)
  const FORMER := Transaction(3, Transfer(4, 1), 0, 1, 1, true)
  const LATTER := Transaction(3, Transfer(4, 1), 1, 1, 1, true)

  lemma ExampleConflicts(h: Hashing)
    ensures !Conflict(h, FREE, FORMER) && !Conflict(h, FREE, LATTER)
    ensures !Conflict(h, FORMER, FREE) && !Conflict(h, LATTER, FREE)
    ensures Conflict(h, FORMER, LATTER) && Conflict(h, LATTER, FORMER)
  {
    assert AccountKey(3) in AnalyzeAccess(h, FORMER).writeSet * AnalyzeAccess(h, LATTER).writeSet;
  }

  lemma ExampleColors(h: Hashing)
    ensures Greedy(h, [FREE, FORMER, LATTER], [0, 1, 0])
  {
    ExampleConflicts(h);
    hide Conflict;
    var txs, colors := [FREE, FORMER, LATTER], [0, 1, 0];
    assert Adjacent(h, txs, 1, 2) && Shown(colors, 1, 2) == 0;
    assert Adjacent(h, txs, 2, 1) && Shown(colors, 2, 1) == 1;
    assert GreedyAt(h, txs, colors, 0) && GreedyAt(h, txs, colors, 1) && GreedyAt(h, txs, colors, 2);
  }

  lemma ClassSnoc(txs: seq<Transaction>, colors: seq<nat>, tx: Transaction, color: nat, c: nat)
    requires |colors| == |txs|
    ensures ColorClass(txs + [tx], colors + [color], c) ==
              ColorClass(txs, colors, c) + (if color == c then [tx] else [])
  {
    assert (txs + [tx])[..|txs|] == txs && (colors + [color])[..|colors|] == colors;
  }

  lemma OrderSnoc(colors: seq<nat>, c: nat)
    ensures ColorOrder(colors + [c]) == if c in colors then ColorOrder(colors) else ColorOrder(colors) + [c]
  {
    assert (colors + [c])[..|colors|] == colors;
  }

  lemma ExampleClass(x: Transaction, a: Transaction, b: Transaction, c: nat)
    ensures ColorClass([x, a, b], [0, 1, 0], c) == if c == 0 then [x, b] else if c == 1 then [a] else []
  {
    hide ColorClass;
    assert [x] == [] + [x] && [x, a] == [x] + [a] && [x, a, b] == [x, a] + [b];
    assert [0] == [] + [0] && [0, 1] == [0] + [1] && [0, 1, 0] == [0, 1] + [0];
    assert ColorClass([], [], c) == [] by { EmptyClass(c); }
    ClassSnoc([], [], x, 0, c);
    ClassSnoc([x], [0], a, 1, c);
    ClassSnoc([x, a], [0, 1], b, 0, c);
  }

  lemma EmptyClass(c: nat)
    ensures ColorClass([], [], c) == [] && ColorOrder([]) == []
  {
  }

  /**
    Three transfers of which only the second and third conflict: the third shares the first
    batch and runs before the second.
   */
  lemma ConflictingPairReordered(h: Hashing)
    ensures Greedy(h, [FREE, FORMER, LATTER], [0, 1, 0])
    ensures Batches([FREE, FORMER, LATTER], [0, 1, 0]) == [[FREE, LATTER], [FORMER]]
    ensures Conflict(h, FORMER, LATTER)
  {
    hide ColorClass, ColorOrder, Greedy, Conflict;
    ExampleColors(h);
    ExampleConflicts(h);
    EmptyClass(0);
    OrderSnoc([], 0);
    OrderSnoc([0], 1);
    OrderSnoc([0, 1], 0);
    assert [0] == [] + [0] && [0, 1] == [0] + [1] && [0, 1, 0] == [0, 1] + [0];
    assert ColorOrder([0, 1, 0]) == [0, 1];
    ExampleClass(FREE, FORMER, LATTER, 0);
    ExampleClass(FREE, FORMER, LATTER, 1);
  }

  // ---- the loops -------------------------------------------------------------------------------

  type Positions = map<TxId, nat>

  ghost predicate Locates(hashing: Hashing, txs: seq<Transaction>, index: Positions) {
    && (forall id :: id in index ==> index[id] < |txs| && hashing.txHash(txs[index[id]]) == id)
    && (forall j: nat :: j < |txs| ==> hashing.txHash(txs[j]) in index && index[hashing.txHash(txs[j])] == j)
  }

  method IndexByHash(hashing: Hashing, txs: seq<Transaction>) returns (index: Positions)
    requires DistinctHashes(hashing, txs)
    ensures Locates(hashing, txs, index)
  {
    index := map[];
    for i := 0 to |txs|
      invariant forall id :: id in index ==> index[id] < i && hashing.txHash(txs[index[id]]) == id
      invariant forall j: nat :: j < i ==> hashing.txHash(txs[j]) in index && index[hashing.txHash(txs[j])] == j
    {
      index := index[hashing.txHash(txs[i]) := i];
    }
  }

  ghost predicate JoinsAdjacent(hashing: Hashing, txs: seq<Transaction>, edges: Edges) {
    && (forall i: nat, j: nat :: i < |txs| && j < |txs| ==>
          (hashing.txHash(txs[j]) in Neighbours(edges, hashing.txHash(txs[i])) <==> Adjacent(hashing, txs, i, j)))
  }

  lemma GraphJoinsAdjacent(hashing: Hashing, txs: seq<Transaction>, edges: Edges)
    requires DistinctHashes(hashing, txs)
    requires forall a, b :: b in Neighbours(edges, a) <==> Linked(hashing, txs, |txs|, |txs| + 1, a, b)
    ensures JoinsAdjacent(hashing, txs, edges)
  {
    hide Linked, Adjacent;
    forall i: nat, j: nat | i < |txs| && j < |txs|
      ensures hashing.txHash(txs[j]) in Neighbours(edges, hashing.txHash(txs[i])) <==> Adjacent(hashing, txs, i, j)
    {
      LinkedIsAdjacent(hashing, txs, i, j);
    }
  }

  /** Some neighbour of position `i`, with an id outside `rest`, has colour `c`. */
  ghost predicate Shows(hashing: Hashing, txs: seq<Transaction>, colors: seq<nat>, rest: set<TxId>, i: nat, c: nat)
    requires |colors| == |txs|
  {
    exists j: nat :: Adjacent(hashing, txs, i, j) && hashing.txHash(txs[j]) !in rest && colors[j] == c
  }

  /** The colours shown by the neighbours of position `i`. */
  method ForbiddenColors(hashing: Hashing, txs: seq<Transaction>, edges: Edges, index: Positions,
                         colors: array<nat>, i: nat) returns (forbidden: set<nat>)
    requires colors.Length == |txs| && i < |txs| && Locates(hashing, txs, index) && JoinsAdjacent(hashing, txs, edges)
    ensures forall c: nat :: c in forbidden <==> Shows(hashing, txs, colors[..], {}, i, c)
  {
    hide Conflict;
    forbidden := {};
    var all := Neighbours(edges, hashing.txHash(txs[i]));
    var rest := all;
    while rest != {}
      invariant rest <= all
      invariant forall c: nat :: c in forbidden <==> Shows(hashing, txs, colors[..], rest, i, c)
      decreases rest
    {
      var id :| id in rest;
      ghost var before, rest0 := forbidden, rest;
      rest := rest - {id};
      if id in index {
        forbidden := forbidden + {colors[index[id]]};
      }
      forall c: nat
        ensures c in forbidden <==> Shows(hashing, txs, colors[..], rest, i, c)
      {
        if c in before {
          var j: nat :| Adjacent(hashing, txs, i, j) && hashing.txHash(txs[j]) !in rest0 && colors[j] == c;
        } else if c in forbidden {
          assert Adjacent(hashing, txs, i, index[id]);
        }
        if j: nat :| Adjacent(hashing, txs, i, j) && hashing.txHash(txs[j]) !in rest && colors[j] == c {
          if hashing.txHash(txs[j]) == id {
            assert index[id] == j;
          }
        }
      }
    }
  }

  method LeastFree(forbidden: set<nat>) returns (color: nat)
    ensures color !in forbidden && forall c: nat :: c < color ==> c in forbidden
  {
    color := 0;
    ghost var rest := forbidden;
    while color in forbidden
      invariant forall c: nat :: c < color ==> c in forbidden
      invariant rest == set c | c in forbidden && c >= color
      decreases rest
    {
      assert color in rest;
      color := color + 1;
      rest := set c | c in forbidden && c >= color;
    }
  }

  /** Greedy colouring, position by position, in an array that starts out as zeros. */
  method ColorTransactions(hashing: Hashing, txs: seq<Transaction>, index: Positions) returns (colors: array<nat>)
    requires DistinctHashes(hashing, txs) && Locates(hashing, txs, index)
    ensures fresh(colors) && Greedy(hashing, txs, colors[..])
  {
    hide Linked, Adjacent, Conflict, Locates, JoinsAdjacent;
    var edges := BuildConflictGraph(hashing, txs);
    GraphJoinsAdjacent(hashing, txs, edges);
    colors := new nat[|txs|](_ => 0);
    for i := 0 to |txs|
      invariant forall j :: i <= j < |txs| ==> colors[j] == 0
      invariant forall j: nat :: j < i ==> GreedyAt(hashing, txs, colors[..], j)
    {
      var forbidden := ForbiddenColors(hashing, txs, edges, index, colors, i);
      var color := LeastFree(forbidden);
      ghost var before := colors[..];
      colors[i] := color;
      forall c: nat ensures c in forbidden <==> Forbidden(hashing, txs, colors[..], i, c) {
        ForbiddenNow(hashing, txs, before, colors[..], i, c);
      }
      forall j: nat | j < i ensures GreedyAt(hashing, txs, colors[..], j) {
        GreedyAtKept(hashing, txs, before, colors[..], j);
      }
    }
  }

  lemma ForbiddenNow(hashing: Hashing, txs: seq<Transaction>, before: seq<nat>, colors: seq<nat>, i: nat, c: nat)
    requires |before| == |colors| == |txs| && i < |txs| && before[..i] == colors[..i]
    requires forall j :: i <= j < |txs| ==> before[j] == 0
    ensures Forbidden(hashing, txs, colors, i, c) <==> Shows(hashing, txs, before, {}, i, c)
  {
    assert forall j: nat :: j < |txs| ==> Shown(colors, i, j) == before[j] by {
      forall j: nat | j < i ensures colors[j] == before[j] {
        assert colors[..i][j] == before[..i][j];
      }
    }
    if j: nat :| Adjacent(hashing, txs, i, j) && before[j] == c {
      assert Shown(colors, i, j) == c;
    }
  }

  lemma GreedyAtKept(hashing: Hashing, txs: seq<Transaction>, before: seq<nat>, colors: seq<nat>, j: nat)
    requires |before| == |colors| == |txs| && j < |txs| && GreedyAt(hashing, txs, before, j)
    requires before[..j + 1] == colors[..j + 1]
    ensures GreedyAt(hashing, txs, colors, j)
  {
    assert colors[j] == colors[..j + 1][j] == before[j];
    assert colors[..j] == colors[..j + 1][..j] == before[..j];
    forall c: nat ensures Forbidden(hashing, txs, before, j, c) <==> Forbidden(hashing, txs, colors, j, c) {
      SameShown(hashing, txs, before, colors, j, c);
      SameShown(hashing, txs, colors, before, j, c);
    }
  }

  type BatchMap = map<nat, seq<Transaction>>

  /** Groups the transactions by colour. */
  method GroupByColor(txs: seq<Transaction>, colors: seq<nat>) returns (groups: BatchMap)
    requires |colors| == |txs|
    ensures forall c :: c in groups <==> c in colors
    ensures forall c :: c in groups ==> groups[c] == ColorClass(txs, colors, c)
  {
    hide ColorClass;
    groups := map[];
    forall c: nat { EmptyClass(c); }
    assert txs[..0] == [] && colors[..0] == [];
    for i := 0 to |txs|
      invariant forall c :: c in groups <==> c in colors[..i]
      invariant forall c :: c in groups ==> groups[c] == ColorClass(txs[..i], colors[..i], c)
      invariant forall c :: c !in groups ==> ColorClass(txs[..i], colors[..i], c) == []
    {
      assert txs[..i + 1] == txs[..i] + [txs[i]] && colors[..i + 1] == colors[..i] + [colors[i]];
      forall c { ClassSnoc(txs[..i], colors[..i], txs[i], colors[i], c); }
      groups := groups[colors[i] := (if colors[i] in groups then groups[colors[i]] else []) + [txs[i]]];
    }
    assert txs[..|txs|] == txs && colors[..|colors|] == colors;
  }

  /** The sort key of a batch: the least original index of its members. */
  method EarliestIndex(hashing: Hashing, batch: seq<Transaction>, index: Positions) returns (least: nat)
    requires batch != [] && forall tx :: tx in batch ==> hashing.txHash(tx) in index
    ensures exists tx :: tx in batch && index[hashing.txHash(tx)] == least
    ensures forall tx :: tx in batch ==> least <= index[hashing.txHash(tx)]
  {
    assert batch[0] in batch;
    least := index[hashing.txHash(batch[0])];
    for i := 1 to |batch|
      invariant exists tx :: tx in batch && index[hashing.txHash(tx)] == least
      invariant forall j :: 0 <= j < i ==> least <= index[hashing.txHash(batch[j])]
    {
      assert batch[i] in batch;
      if index[hashing.txHash(batch[i])] < least {
        least := index[hashing.txHash(batch[i])];
      }
    }
  }

  lemma ClassKey(hashing: Hashing, txs: seq<Transaction>, colors: seq<nat>, index: Positions, c: nat)
    requires |colors| == |txs| && Locates(hashing, txs, index) && c in colors
    ensures ColorClass(txs, colors, c) != []
    ensures forall tx :: tx in ColorClass(txs, colors, c) ==>
              hashing.txHash(tx) in index && FirstUse(colors, c) <= index[hashing.txHash(tx)]
    ensures exists tx :: tx in ColorClass(txs, colors, c) && hashing.txHash(tx) in index &&
              index[hashing.txHash(tx)] == FirstUse(colors, c)
  {
    var f := FirstUse(colors, c);
    ClassMembers(txs, colors, c, txs[f]);
    forall tx | tx in ColorClass(txs, colors, c)
      ensures hashing.txHash(tx) in index && f <= index[hashing.txHash(tx)]
    {
      ClassMembers(txs, colors, c, tx);
      var i :| 0 <= i < |txs| && colors[i] == c && txs[i] == tx;
      assert index[hashing.txHash(tx)] == i;
    }
  }

  /** The colours of `left` whose batch starts earliest. */
  method PickEarliest(hashing: Hashing, txs: seq<Transaction>, ghost colors: seq<nat>, groups: BatchMap,
                      index: Positions, left: set<nat>) returns (best: nat)
    requires |colors| == |txs| && Locates(hashing, txs, index) && left != {}
    requires forall c :: c in left ==> c in colors && c in groups && groups[c] == ColorClass(txs, colors, c)
    ensures best in left && forall c :: c in left ==> FirstUse(colors, best) <= FirstUse(colors, c)
  {
    hide ColorClass, FirstUse, Locates;
    best :| best in left;
    ClassKey(hashing, txs, colors, index, best);
    var bestKey := EarliestIndex(hashing, groups[best], index);
    var rest := left - {best};
    while rest != {}
      invariant rest <= left && best in left && bestKey == FirstUse(colors, best)
      invariant forall c :: c in left - rest ==> FirstUse(colors, best) <= FirstUse(colors, c)
      decreases rest
    {
      var c :| c in rest;
      rest := rest - {c};
      ClassKey(hashing, txs, colors, index, c);
      var key := EarliestIndex(hashing, groups[c], index);
      if key < bestKey {
        best, bestKey := c, key;
      }
    }
  }

  /**
    Colours the transactions, groups them, and sorts the groups - which come out of a hash map in no
    particular order - by their earliest member.
   */
  method ScheduleParallelBatches(hashing: Hashing, txs: seq<Transaction>)
    returns (batches: seq<seq<Transaction>>, ghost colors: seq<nat>)
    requires DistinctHashes(hashing, txs)
    ensures Greedy(hashing, txs, colors)
    ensures batches == Batches(txs, colors)
    ensures multiset(Flatten(batches)) == multiset(txs)
    ensures forall b :: 0 <= b < |batches| ==> Independent(hashing, batches[b])
  {
    hide ColorClass, FirstUse, Greedy, Locates, ColorOrder, Independent, Flatten;
    var index := IndexByHash(hashing, txs);
    var palette := ColorTransactions(hashing, txs, index);
    var cs := palette[..];
    colors := cs;
    GreedyLength(hashing, txs, colors);
    var groups := GroupByColor(txs, cs);
    batches := [];
    ghost var order: seq<nat> := [];
    var left := groups.Keys;
    while left != {}
      invariant left <= groups.Keys
      invariant forall c :: c in order <==> c in groups && c !in left
      invariant ByFirstUse(colors, order)
      invariant forall a, c :: a in order && c in left ==> FirstUse(colors, a) < FirstUse(colors, c)
      invariant batches == Classes(txs, colors, order)
      decreases left
    {
      var c := PickEarliest(hashing, txs, colors, groups, index, left);
      forall x | x in left && x != c
        ensures FirstUse(colors, c) < FirstUse(colors, x)
      {
        FirstUseInjective(colors, c, x);
      }
      left := left - {c};
      batches := batches + [groups[c]];
      order := order + [c];
    }
    ColorOrderSorted(colors);
    SortedByUseIsUnique(colors, order, ColorOrder(colors));
    BatchesPartition(txs, colors);
    forall b | 0 <= b < |batches| ensures Independent(hashing, batches[b]) {
      BatchesAreIndependent(hashing, txs, colors, b);
    }
  }

  lemma FirstUseInjective(colors: seq<nat>, a: nat, b: nat)
    requires a in colors && b in colors && a != b
    ensures FirstUse(colors, a) != FirstUse(colors, b)
  {
  }
}
