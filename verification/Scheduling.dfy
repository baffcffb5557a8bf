/**
  Access sets, conflicts and the batches of a block (src/execution/parallel_executor.rs,
  scheduling half).
 */
module Scheduling {
  import opened Collections
  import opened Transactions

  /** An empty storage key stands for the whole storage of the contract. */
  datatype StateKey =
    | AccountKey(account: Address)
    | StorageKey(contract: Address, key: Bytes)
    | RegistryKey(entry: Address)

  datatype AccessSet = AccessSet(readSet: set<StateKey>, writeSet: set<StateKey>)

  /** How hashes are computed: of transactions, and of contract code (giving its address). */
  datatype Hashing = Hashing(txHash: Transaction -> TxId, codeAddress: Bytes -> Address)

  function AnalyzeAccess(hashing: Hashing, tx: Transaction): AccessSet {
    var sender := AccountKey(tx.from);
    match tx.payload
    case Transfer(to, _) =>
      AccessSet({sender, AccountKey(to)}, {sender, AccountKey(to)})
    case Deploy(code, _) =>
      var a := hashing.codeAddress(code);
      AccessSet({sender}, {sender, AccountKey(a), StorageKey(a, []), RegistryKey(a)})
    case Call(c, _, _) =>
      AccessSet({sender, AccountKey(c), StorageKey(c, []), RegistryKey(c)},
                {sender, AccountKey(c), StorageKey(c, [])})
  }

  predicate SetsConflict(a: AccessSet, b: AccessSet) {
    !(a.writeSet !! b.writeSet) || !(a.writeSet !! b.readSet) || !(a.readSet !! b.writeSet)
  }

  /** Access sets conflict exactly when one writes a key that the other reads or writes. */
  lemma SetsConflictExactly(a: AccessSet, b: AccessSet)
    ensures SetsConflict(a, b) <==>
              exists key :: key in a.readSet + a.writeSet && key in b.readSet + b.writeSet &&
                (key in a.writeSet || key in b.writeSet)
  {
    if SetsConflict(a, b) {
      var key := SharedKey(a, b);
    }
  }

  predicate Conflict(hashing: Hashing, a: Transaction, b: Transaction) {
    SetsConflict(AnalyzeAccess(hashing, a), AnalyzeAccess(hashing, b))
  }

  lemma ConflictIsSymmetric(hashing: Hashing, a: Transaction, b: Transaction)
    ensures Conflict(hashing, a, b) == Conflict(hashing, b, a)
  {
  }

  /** The accounts a transaction is about: its sender and its receiver or contract. */
  function Parties(hashing: Hashing, tx: Transaction): set<Address> {
    match tx.payload
    case Transfer(to, _) => {tx.from, to}
    case Deploy(code, _) => {tx.from, hashing.codeAddress(code)}
    case Call(c, _, _) => {tx.from, c}
  }

  function PartyOf(key: StateKey): Address {
    match key
    case AccountKey(a) => a
    case StorageKey(c, _) => c
    case RegistryKey(a) => a
  }

  /** Every declared key belongs to a party, and every party's account is declared as written. */
  lemma AccessIsOfParties(hashing: Hashing, tx: Transaction)
    ensures var access := AnalyzeAccess(hashing, tx);
            && (forall key :: key in access.readSet + access.writeSet ==> PartyOf(key) in Parties(hashing, tx))
            && (forall a :: a in Parties(hashing, tx) ==> AccountKey(a) in access.writeSet)
  {
  }

  lemma SharedKey(x: AccessSet, y: AccessSet) returns (key: StateKey)
    requires SetsConflict(x, y)
    ensures key in x.readSet + x.writeSet && key in y.readSet + y.writeSet
    ensures key in x.writeSet || key in y.writeSet
  {
    if k :| k in x.writeSet && k in y.writeSet {
      key := k;
    } else if k :| k in x.writeSet && k in y.readSet {
      key := k;
    } else {
      key :| key in x.readSet && key in y.writeSet;
    }
  }

  /** Two transactions conflict exactly when they have a party in common. */
  lemma ConflictExactly(hashing: Hashing, a: Transaction, b: Transaction)
    ensures Conflict(hashing, a, b) <==> !(Parties(hashing, a) !! Parties(hashing, b))
  {
    hide AnalyzeAccess, Parties;
    AccessIsOfParties(hashing, a);
    AccessIsOfParties(hashing, b);
    var x, y := AnalyzeAccess(hashing, a), AnalyzeAccess(hashing, b);
    if p :| p in Parties(hashing, a) && p in Parties(hashing, b) {
      assert AccountKey(p) in x.writeSet && AccountKey(p) in y.writeSet;
    }
    if SetsConflict(x, y) {
      var key := SharedKey(x, y);
      assert PartyOf(key) in Parties(hashing, a) && PartyOf(key) in Parties(hashing, b);
    }
  }

  ghost predicate DistinctHashes(hashing: Hashing, txs: seq<Transaction>) {
    forall i, j :: 0 <= i < j < |txs| ==> hashing.txHash(txs[i]) != hashing.txHash(txs[j])
  }

  // ---- the conflict graph ---------------------------------------------------------

  type Edges = map<TxId, set<TxId>>

  function Neighbours(edges: Edges, id: TxId): set<TxId> {
    if id in edges then edges[id] else {}
  }

  function AddEdge(edges: Edges, a: TxId, b: TxId): Edges {
    var edges' := edges[a := Neighbours(edges, a) + {b}];
    edges'[b := Neighbours(edges', b) + {a}]
  }

  /** The pairs `(i, j)` with `i < j` that come before `(m, n)` in the double loop. */
  ghost predicate Visited(m: nat, n: nat, i: nat, j: nat) {
    i < m || (i == m && j < n)
  }

  ghost predicate Linked(hashing: Hashing, txs: seq<Transaction>, m: nat, n: nat, a: TxId, b: TxId) {
    exists i: nat, j: nat :: i < j < |txs| && Visited(m, n, i, j) && Conflict(hashing, txs[i], txs[j]) &&
      ((hashing.txHash(txs[i]) == a && hashing.txHash(txs[j]) == b) ||
       (hashing.txHash(txs[i]) == b && hashing.txHash(txs[j]) == a))
  }

  lemma LinkedStep(hashing: Hashing, txs: seq<Transaction>, m: nat, n: nat, a: TxId, b: TxId)
    requires m < n < |txs|
    ensures Linked(hashing, txs, m, n + 1, a, b) <==>
              Linked(hashing, txs, m, n, a, b) ||
              (Conflict(hashing, txs[m], txs[n]) &&
               ((hashing.txHash(txs[m]) == a && hashing.txHash(txs[n]) == b) ||
                (hashing.txHash(txs[m]) == b && hashing.txHash(txs[n]) == a)))
  {
    if Linked(hashing, txs, m, n, a, b) {
      var i: nat, j: nat :| i < j < |txs| && Visited(m, n, i, j) && Conflict(hashing, txs[i], txs[j]) &&
        ((hashing.txHash(txs[i]) == a && hashing.txHash(txs[j]) == b) ||
         (hashing.txHash(txs[i]) == b && hashing.txHash(txs[j]) == a));
      assert Visited(m, n + 1, i, j);
    }
    assert Visited(m, n + 1, m, n);
  }

  lemma LinkedNextRow(hashing: Hashing, txs: seq<Transaction>, m: nat, a: TxId, b: TxId)
    requires m < |txs|
    ensures Linked(hashing, txs, m, |txs|, a, b) <==> Linked(hashing, txs, m + 1, m + 2, a, b)
  {
    if Linked(hashing, txs, m, |txs|, a, b) {
      var i: nat, j: nat :| i < j < |txs| && Visited(m, |txs|, i, j) && Conflict(hashing, txs[i], txs[j]) &&
        ((hashing.txHash(txs[i]) == a && hashing.txHash(txs[j]) == b) ||
         (hashing.txHash(txs[i]) == b && hashing.txHash(txs[j]) == a));
      assert Visited(m + 1, m + 2, i, j);
    }
    if Linked(hashing, txs, m + 1, m + 2, a, b) {
      var i: nat, j: nat :| i < j < |txs| && Visited(m + 1, m + 2, i, j) && Conflict(hashing, txs[i], txs[j]) &&
        ((hashing.txHash(txs[i]) == a && hashing.txHash(txs[j]) == b) ||
         (hashing.txHash(txs[i]) == b && hashing.txHash(txs[j]) == a));
      assert Visited(m, |txs|, i, j);
    }
  }

  /** Two ids are joined exactly when two different positions with these ids conflict. */
  method BuildConflictGraph(hashing: Hashing, txs: seq<Transaction>) returns (edges: Edges)
    ensures forall a, b :: b in Neighbours(edges, a) <==> Linked(hashing, txs, |txs|, |txs| + 1, a, b)
  {
    hide Linked, Conflict;
    edges := map[];
    NothingLinked(hashing, txs);
    for i := 0 to |txs|
      invariant forall a, b :: b in Neighbours(edges, a) <==> Linked(hashing, txs, i, i + 1, a, b)
    {
      for j := i + 1 to |txs|
        invariant forall a, b :: b in Neighbours(edges, a) <==> Linked(hashing, txs, i, j, a, b)
      {
        ghost var before := edges;
        if Conflict(hashing, txs[i], txs[j]) {
          edges := AddEdge(edges, hashing.txHash(txs[i]), hashing.txHash(txs[j]));
        }
        forall a, b
          ensures b in Neighbours(edges, a) <==> Linked(hashing, txs, i, j + 1, a, b)
        {
          LinkedStep(hashing, txs, i, j, a, b);
          AddEdgeNeighbours(before, hashing.txHash(txs[i]), hashing.txHash(txs[j]), a, b);
        }
      }
      forall a, b { LinkedNextRow(hashing, txs, i, a, b); }
    }
  }

  lemma AddEdgeNeighbours(edges: Edges, x: TxId, y: TxId, a: TxId, b: TxId)
    ensures b in Neighbours(AddEdge(edges, x, y), a) <==>
              b in Neighbours(edges, a) || (a == x && b == y) || (a == y && b == x)
  {
  }

  lemma NothingLinked(hashing: Hashing, txs: seq<Transaction>)
    ensures forall a, b :: !Linked(hashing, txs, 0, 1, a, b)
  {
  }

  // ---- colours -------------------------------------------------------------------------

  ghost predicate Adjacent(hashing: Hashing, txs: seq<Transaction>, i: nat, j: nat) {
    i < |txs| && j < |txs| && i != j && Conflict(hashing, txs[i], txs[j])
  }

  lemma LinkedIsAdjacent(hashing: Hashing, txs: seq<Transaction>, i: nat, j: nat)
    requires DistinctHashes(hashing, txs) && i < |txs| && j < |txs|
    ensures Linked(hashing, txs, |txs|, |txs| + 1, hashing.txHash(txs[i]), hashing.txHash(txs[j]))
       <==> Adjacent(hashing, txs, i, j)
  {
    if Adjacent(hashing, txs, i, j) {
      ConflictIsSymmetric(hashing, txs[i], txs[j]);
      if i < j {
        assert Visited(|txs|, |txs| + 1, i, j);
      } else {
        assert Visited(|txs|, |txs| + 1, j, i);
      }
    }
    if Linked(hashing, txs, |txs|, |txs| + 1, hashing.txHash(txs[i]), hashing.txHash(txs[j])) {
      var x: nat, y: nat :| x < y < |txs| && Visited(|txs|, |txs| + 1, x, y) && Conflict(hashing, txs[x], txs[y]) &&
        ((hashing.txHash(txs[x]) == hashing.txHash(txs[i]) && hashing.txHash(txs[y]) == hashing.txHash(txs[j])) ||
         (hashing.txHash(txs[x]) == hashing.txHash(txs[j]) && hashing.txHash(txs[y]) == hashing.txHash(txs[i])));
      ConflictIsSymmetric(hashing, txs[x], txs[y]);
    }
  }

  /** The colour that position `j` shows while position `i` is being coloured: later ones still show 0. */
  ghost function Shown(colors: seq<nat>, i: nat, j: nat): nat
    requires j < |colors|
  {
    if j < i then colors[j] else 0
  }

  ghost predicate Forbidden(hashing: Hashing, txs: seq<Transaction>, colors: seq<nat>, i: nat, c: nat)
    requires |colors| == |txs|
  {
    exists j: nat :: Adjacent(hashing, txs, i, j) && Shown(colors, i, j) == c
  }

  /** Each colour is the least one that no conflicting position shows. */
  ghost predicate Greedy(hashing: Hashing, txs: seq<Transaction>, colors: seq<nat>) {
    && |colors| == |txs|
    && forall i: nat :: i < |txs| ==> GreedyAt(hashing, txs, colors, i)
  }

  ghost predicate GreedyAt(hashing: Hashing, txs: seq<Transaction>, colors: seq<nat>, i: nat)
    requires |colors| == |txs| && i < |txs|
  {
    && !Forbidden(hashing, txs, colors, i, colors[i])
    && forall c: nat :: c < colors[i] ==> Forbidden(hashing, txs, colors, i, c)
  }

  /** No two conflicting positions share a colour. */
  lemma GreedyIsProper(hashing: Hashing, txs: seq<Transaction>, colors: seq<nat>, i: nat, j: nat)
    requires Greedy(hashing, txs, colors) && Adjacent(hashing, txs, i, j)
    ensures colors[i] != colors[j]
  {
    ConflictIsSymmetric(hashing, txs[i], txs[j]);
    var lo, hi := if i < j then i else j, if i < j then j else i;
    assert GreedyAt(hashing, txs, colors, hi);
    assert Adjacent(hashing, txs, hi, lo) && Shown(colors, hi, lo) == colors[lo];
  }

  /** The rule determines the colours: whatever order neighbours are visited in, the result is the same. */
  lemma {:induction false} GreedyIsUnique(hashing: Hashing, txs: seq<Transaction>, c1: seq<nat>, c2: seq<nat>, n: nat)
    requires Greedy(hashing, txs, c1) && Greedy(hashing, txs, c2) && n <= |txs|
    ensures c1[..n] == c2[..n]
  {
    if n > 0 {
      var i := n - 1;
      GreedyIsUnique(hashing, txs, c1, c2, i);
      forall c: nat
        ensures Forbidden(hashing, txs, c1, i, c) <==> Forbidden(hashing, txs, c2, i, c)
      {
        SameShown(hashing, txs, c1, c2, i, c);
        SameShown(hashing, txs, c2, c1, i, c);
      }
      assert GreedyAt(hashing, txs, c1, i) && GreedyAt(hashing, txs, c2, i);
      assert c1[..n] == c1[..i] + [c1[i]] && c2[..n] == c2[..i] + [c2[i]];
    }
  }

  lemma SameShown(hashing: Hashing, txs: seq<Transaction>, c1: seq<nat>, c2: seq<nat>, i: nat, c: nat)
    requires |c1| == |c2| == |txs| && i < |txs| && c1[..i] == c2[..i]
    ensures Forbidden(hashing, txs, c1, i, c) ==> Forbidden(hashing, txs, c2, i, c)
  {
    if Forbidden(hashing, txs, c1, i, c) {
      var j: nat :| Adjacent(hashing, txs, i, j) && Shown(c1, i, j) == c;
      if j < i {
        assert c1[..i][j] == c2[..i][j];
      }
      assert Shown(c2, i, j) == c;
    }
  }

  /** How many positions conflict with `i`. */
  ghost function Degree(hashing: Hashing, txs: seq<Transaction>, i: nat): nat {
    |set j: nat | j < |txs| && Adjacent(hashing, txs, i, j)|
  }

  ghost predicate Hit(S: set<nat>, image: map<nat, nat>, c: nat)
    requires S <= image.Keys
  {
    exists j :: j in S && image[j] == c
  }

  lemma {:induction false} ImageBound(S: set<nat>, image: map<nat, nat>, n: nat)
    requires S <= image.Keys && forall c: nat :: c < n ==> Hit(S, image, c)
    ensures n <= |S|
    decreases n
  {
    if n > 0 {
      assert Hit(S, image, n - 1);
      var j :| j in S && image[j] == n - 1;
      forall c: nat | c < n - 1
        ensures Hit(S - {j}, image, c)
      {
        assert Hit(S, image, c);
        var x :| x in S && image[x] == c;
        assert x in S - {j};
      }
      ImageBound(S - {j}, image, n - 1);
    }
  }

  /** A position's colour is at most the number of its conflicts. */
  lemma ColorAtMostDegree(hashing: Hashing, txs: seq<Transaction>, colors: seq<nat>, i: nat)
    requires Greedy(hashing, txs, colors) && i < |txs|
    ensures colors[i] <= Degree(hashing, txs, i)
  {
    var S := set j: nat | j < |txs| && Adjacent(hashing, txs, i, j);
    var image := map j: nat | j < |txs| :: Shown(colors, i, j);
    assert GreedyAt(hashing, txs, colors, i);
    forall c: nat | c < colors[i]
      ensures Hit(S, image, c)
    {
      assert Forbidden(hashing, txs, colors, i, c);
      var j: nat :| Adjacent(hashing, txs, i, j) && Shown(colors, i, j) == c;
      assert j in S && image[j] == c;
    }
    ImageBound(S, image, colors[i]);
  }

  /** Colour 0 goes exactly to the positions that no later position conflicts with. */
  lemma ColorZeroExactly(hashing: Hashing, txs: seq<Transaction>, colors: seq<nat>, i: nat)
    requires Greedy(hashing, txs, colors) && i < |txs|
    ensures colors[i] == 0 <==> forall j: nat :: i < j ==> !Adjacent(hashing, txs, i, j)
  {
    assert GreedyAt(hashing, txs, colors, i);
    if j: nat :| i < j && Adjacent(hashing, txs, i, j) {
      assert Shown(colors, i, j) == 0;
    } else if colors[i] != 0 {
      assert Forbidden(hashing, txs, colors, i, 0);
      var j: nat :| Adjacent(hashing, txs, i, j) && Shown(colors, i, j) == 0;
      ColorZeroEarlier(hashing, txs, colors, i, j);
    }
  }

  lemma ColorZeroEarlier(hashing: Hashing, txs: seq<Transaction>, colors: seq<nat>, i: nat, j: nat)
    requires Greedy(hashing, txs, colors) && j < i && Adjacent(hashing, txs, i, j)
    ensures colors[j] != 0
  {
    ConflictIsSymmetric(hashing, txs[i], txs[j]);
    assert GreedyAt(hashing, txs, colors, j);
    assert Adjacent(hashing, txs, j, i) && Shown(colors, j, i) == 0;
  }

  // ---- batches ---------------------------------------------------------------------------

  /** The transactions of one colour, in original order. */
  function ColorClass(txs: seq<Transaction>, colors: seq<nat>, c: nat): seq<Transaction>
    requires |colors| == |txs|
  {
    if txs == [] then []
    else
      var n := |txs| - 1;
      ColorClass(txs[..n], colors[..n], c) + (if colors[n] == c then [txs[n]] else [])
  }

  /** The colours in order of their first use. */
  function ColorOrder(colors: seq<nat>): seq<nat> {
    if colors == [] then []
    else
      var init, c := colors[..|colors| - 1], colors[|colors| - 1];
      if c in init then ColorOrder(init) else ColorOrder(init) + [c]
  }

  function Batches(txs: seq<Transaction>, colors: seq<nat>): seq<seq<Transaction>>
    requires |colors| == |txs|
  {
    seq(|ColorOrder(colors)|,
        b requires 0 <= b < |ColorOrder(colors)| => ColorClass(txs, colors, ColorOrder(colors)[b]))
  }

  /** The position at which a colour is first used. */
  ghost function FirstUse(colors: seq<nat>, c: nat): (i: nat)
    requires c in colors
    ensures i < |colors| && colors[i] == c && c !in colors[..i]
  {
    if c in colors[..|colors| - 1] then
      FirstUse(colors[..|colors| - 1], c)
    else
      assert colors == colors[..|colors| - 1] + [colors[|colors| - 1]];
      |colors| - 1
  }

  lemma FirstUseUnique(colors: seq<nat>, c: nat, i: nat)
    requires i < |colors| && colors[i] == c && c !in colors[..i]
    ensures c in colors && FirstUse(colors, c) == i
  {
    var j := FirstUse(colors, c);
  }

  ghost predicate ByFirstUse(colors: seq<nat>, xs: seq<nat>)
    requires forall c :: c in xs ==> c in colors
  {
    forall a, b :: 0 <= a < b < |xs| ==> FirstUse(colors, xs[a]) < FirstUse(colors, xs[b])
  }

  lemma FirstUseInPrefix(colors: seq<nat>, n: nat, c: nat)
    requires n <= |colors| && c in colors[..n]
    ensures c in colors && FirstUse(colors, c) == FirstUse(colors[..n], c)
  {
    var i := FirstUse(colors[..n], c);
    assert colors[..i] == colors[..n][..i];
    FirstUseUnique(colors, c, i);
  }

  /** `ColorOrder` lists every used colour once, by first use. */
  lemma {:induction false} ColorOrderSorted(colors: seq<nat>)
    ensures forall c :: c in ColorOrder(colors) <==> c in colors
    ensures ByFirstUse(colors, ColorOrder(colors))
  {
    if colors != [] {
      hide FirstUse;
      var n := |colors| - 1;
      var init, c := colors[..n], colors[n];
      assert colors == init + [c];
      ColorOrderSorted(init);
      var xs, ys := ColorOrder(init), ColorOrder(colors);
      if c !in init {
        FirstUseUnique(colors, c, n);
      }
      forall a, b | 0 <= a < b < |ys|
        ensures FirstUse(colors, ys[a]) < FirstUse(colors, ys[b])
      {
        assert xs[a] in xs;
        FirstUseInPrefix(colors, n, xs[a]);
        if b < |xs| {
          assert xs[b] in xs;
          FirstUseInPrefix(colors, n, xs[b]);
        } else {
          FirstUseBound(init, xs[a]);
        }
      }
    }
  }

  lemma FirstUseBound(colors: seq<nat>, c: nat)
    requires c in colors
    ensures FirstUse(colors, c) < |colors|
  {
  }

  /** Two lists of the same colours, both sorted by first use, are equal. */
  lemma {:induction false} SortedByUseIsUnique(colors: seq<nat>, xs: seq<nat>, ys: seq<nat>)
    requires forall c :: c in xs ==> c in colors
    requires forall c :: c in xs <==> c in ys
    requires ByFirstUse(colors, xs) && ByFirstUse(colors, ys)
    ensures xs == ys
  {
    hide FirstUse;
    if xs == [] {
      SomeMember(ys);
    } else {
      assert xs[0] in xs;
      assert ys != [] && ys[0] in ys;
      HeadsAgree(colors, xs, ys);
      var xs', ys' := xs[1..], ys[1..];
      assert xs == [xs[0]] + xs' && ys == [ys[0]] + ys';
      HeadNotRepeated(colors, xs);
      HeadNotRepeated(colors, ys);
      assert forall c :: c in xs' <==> c in xs && c != xs[0];
      assert forall c :: c in ys' <==> c in ys && c != ys[0];
      SortedByUseIsUnique(colors, xs', ys');
    }
  }

  lemma HeadNotRepeated(colors: seq<nat>, xs: seq<nat>)
    requires xs != [] && (forall c :: c in xs ==> c in colors) && ByFirstUse(colors, xs)
    ensures xs[0] !in xs[1..]
  {
  }

  lemma HeadsAgree(colors: seq<nat>, xs: seq<nat>, ys: seq<nat>)
    requires xs != [] && ys != [] && xs[0] in ys && ys[0] in xs
    requires forall c :: c in xs ==> c in colors
    requires forall c :: c in ys ==> c in colors
    requires ByFirstUse(colors, xs) && ByFirstUse(colors, ys)
    ensures xs[0] == ys[0]
  {
    var i :| 0 <= i < |xs| && xs[i] == ys[0];
    var j :| 0 <= j < |ys| && ys[j] == xs[0];
  }
}
