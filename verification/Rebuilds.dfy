/**
  Rebuilding the index (src/dag/blockdag.rs, `rebuild_index`) keeps tips and child lists up to the
  order of siblings.  That order decides Kahn's order, and with it which blocks are final: when a
  rebuild keeps the order, and that it can take finality back without any new block.
 */
module Rebuilds {
  import opened Collections
  import opened Graphs
  import opened Blocks
  import opened Dags
  import opened Heights
  import opened Kahn
  import opened KahnGrowth
  import opened DagOrders
  import opened Finality
  import opened GhostOrders
  import opened Replay
  import opened SampleRuns

  /** The members of `F`, in the order of `xs`. */
  ghost function Select(xs: seq<BlockHash>, F: set<BlockHash>): seq<BlockHash> {
    if xs == [] then []
    else
      var x := xs[|xs| - 1];
      Select(xs[..|xs| - 1], F) + (if x in F then [x] else [])
  }

  lemma {:induction false} SelectLists(xs: seq<BlockHash>, F: set<BlockHash>)
    requires NoRepeats(xs)
    ensures NoRepeats(Select(xs, F)) && forall x :: x in Select(xs, F) <==> x in xs && x in F
  {
    if xs != [] {
      var init, x := xs[..|xs| - 1], xs[|xs| - 1];
      SelectLists(init, F);
      assert xs == init + [x];
    }
  }

  lemma SelectSize(xs: seq<BlockHash>, ys: seq<BlockHash>, F: set<BlockHash>)
    requires NoRepeats(xs) && NoRepeats(ys) && forall x :: x in xs <==> x in ys
    ensures |Select(xs, F)| == |Select(ys, F)|
  {
    SelectLists(xs, F);
    SelectLists(ys, F);
    ElementsCount(Select(xs, F));
    ElementsCount(Select(ys, F));
    assert Elements(Select(xs, F)) == Elements(Select(ys, F));
  }

  // ---- what one step frees --------------------------------------------------------------------

  /** The blocks whose remaining in-degree is used up by their links to `y`. */
  ghost function Due(g: Graph, deg: Degrees, y: BlockHash): set<BlockHash> {
    set x | x in g && x in deg && 0 < deg[x] <= multiset(g[x])[y]
  }

  lemma NotYetListed(g: Graph, hashes: seq<BlockHash>, p: BlockHash, x: BlockHash)
    requires NoRepeats(hashes) && x !in hashes
    ensures x !in Adj(Rebuilt(g, hashes), p)
  {
    hide Rebuilt;
    RebuiltCounts(g, hashes, p, x);
    assert x !in multiset(Adj(Rebuilt(g, hashes), p));
  }

  /** Over rebuilt child lists, the blocks due are freed in the order of the listing. */
  lemma {:induction false} FreedInListingOrder(g: Graph, hashes: seq<BlockHash>, deg: Degrees, y: BlockHash)
    requires NoRepeats(hashes) && forall x :: x in hashes ==> x in g && x in deg
    ensures Freed(deg, Adj(Rebuilt(g, hashes), y)) == Select(hashes, Due(g, deg, y))
  {
    hide Freed, AddChild, Repeat;
    if hashes == [] {
      NothingFreed(deg);
    } else {
      var init, x := hashes[..|hashes| - 1], hashes[|hashes| - 1];
      FreedInListingOrder(g, init, deg, y);
      var cs := Adj(Rebuilt(g, init), y);
      AddChildAppends(Rebuilt(g, init), Adj(g, x), x, y);
      assert x !in cs by { NotYetListed(g, init, y, x); }
      assert deg[x := deg[x]] == deg;
      FreedRepeat(deg, cs, x, deg[x], multiset(Adj(g, x))[y]);
    }
  }

  lemma NothingFreed(deg: Degrees)
    ensures Freed(deg, []) == []
  {
  }

  /** The blocks whose last parent in `order` stands at place `i`. */
  ghost function Released(g: Graph, order: seq<BlockHash>, i: nat): set<BlockHash>
    requires i < |order|
  {
    set x | x in g && order[i] in g[x] && forall p :: p in g[x] ==> p in order[..i + 1]
  }

  lemma DueIsReleased(g: Graph, done: seq<BlockHash>, q: seq<BlockHash>, deg: Degrees, order: seq<BlockHash>)
    requires Progress(g, done, q, deg) && q != [] && |done| < |order| && order[..|done| + 1] == done + [q[0]]
    ensures Due(g, deg, q[0]) == Released(g, order, |done|)
  {
    hide Missing;
    var y := q[0];
    HeadIsNew(done, q);
    assert order[|done|] == order[..|done| + 1][|done|] == y;
    forall x | x in g
      ensures x in Due(g, deg, y) <==> x in Released(g, order, |done|)
    {
      MissingStep(g[x], Elements(done), y);
      MissingNone(g[x], Elements(done));
      MissingNone(g[x], Elements(done) + {y});
    }
  }

  // ---- two rebuilds ------------------------------------------------------------------------------

  /** The two listings agree on the order of the blocks released at place `i`. */
  ghost predicate Agree(g: Graph, order: seq<BlockHash>, xs: seq<BlockHash>, ys: seq<BlockHash>, i: nat)
    requires i < |order|
  {
    Select(xs, Released(g, order, i)) == Select(ys, Released(g, order, i))
  }

  lemma {:induction false} DrainStartsWithQueue(q: seq<BlockHash>, deg: Degrees, c: Graph)
    ensures q <= Drain(q, deg, c)
    decreases Waiting(deg), |q|
  {
    if q != [] {
      var cs := Adj(c, q[0]);
      SettleShrinks(deg, cs);
      DrainStartsWithQueue(q[1..] + Freed(deg, cs), Settle(deg, cs), c);
    }
  }

  lemma SamePrefix(a: seq<BlockHash>, f: seq<BlockHash>, f': seq<BlockHash>, xs: seq<BlockHash>)
    requires a + f <= xs && a + f' <= xs && |f| == |f'|
    ensures f == f'
  {
    assert f == xs[|a|..|a| + |f|] && f' == xs[|a|..|a| + |f'|];
  }

  lemma SettleSame(g: Graph, c: Graph, c': Graph, deg: Degrees, y: BlockHash)
    requires Transposed(g, c) && Transposed(g, c')
    ensures Settle(deg, Adj(c, y)) == Settle(deg, Adj(c', y))
  {
    forall x ensures multiset(Adj(c, y))[x] == multiset(Adj(c', y))[x] {
      assert multiset(Adj(c, y))[x] == multiset(Adj(g, x))[y];
    }
  }

  /** From a common state two rebuilt indexes run alike exactly when they agree at every place to come. */
  lemma {:induction false} RunsAlikeExactly(g: Graph, xs: seq<BlockHash>, ys: seq<BlockHash>,
                                            done: seq<BlockHash>, q: seq<BlockHash>, deg: Degrees,
                                            order: seq<BlockHash>)
    requires Lists(xs, g.Keys) && Lists(ys, g.Keys) && Progress(g, done, q, deg)
    requires order == done + Drain(q, deg, Rebuilt(g, xs))
    ensures Drain(q, deg, Rebuilt(g, xs)) == Drain(q, deg, Rebuilt(g, ys)) <==>
              forall i :: |done| <= i < |order| ==> Agree(g, order, xs, ys, i)
    decreases Waiting(deg), |q|
  {
    hide Progress, Rebuilt, Drain, Freed, Settle, Agree, Lists, NoRepeats;
    var c, c' := Rebuilt(g, xs), Rebuilt(g, ys);
    if q == [] {
      NothingToDrain(deg, c);
      NothingToDrain(deg, c');
    } else {
      var y, rest := q[0], q[1..];
      assert q == [y] + rest;
      var f, f', deg' := Freed(deg, Adj(c, y)), Freed(deg, Adj(c', y)), Settle(deg, Adj(c, y));
      SettleShrinks(deg, Adj(c, y));
      DrainPop(y, rest, deg, c);
      DrainPop(y, rest, deg, c');
      RebuiltTransposes(g, xs);
      RebuiltTransposes(g, ys);
      SettleSame(g, c, c', deg, y);
      assert order[..|done| + 1] == done + [y];
      StepAgrees(g, xs, ys, done, q, deg, order);
      if f == f' {
        ProgressStep(g, c, done, q, deg);
        assert order == (done + [y]) + Drain(rest + f, deg', c);
        RunsAlikeExactly(g, xs, ys, done + [y], rest + f, deg', order);
      } else {
        DrainStartsWithQueue(rest + f, deg', c);
        DrainStartsWithQueue(rest + f', deg', c');
        assert !Agree(g, order, xs, ys, |done|);
        assert Drain(q, deg, c)[1..] == Drain(rest + f, deg', c);
        assert Drain(q, deg, c')[1..] == Drain(rest + f', deg', c');
        if Drain(rest + f, deg', c) == Drain(rest + f', deg', c') {
          SamePrefix(rest, f, f', Drain(rest + f, deg', c));
        }
      }
    }
  }

  lemma NothingToDrain(deg: Degrees, c: Graph)
    ensures Drain([], deg, c) == []
  {
  }

  lemma StepAgrees(g: Graph, xs: seq<BlockHash>, ys: seq<BlockHash>,
                   done: seq<BlockHash>, q: seq<BlockHash>, deg: Degrees, order: seq<BlockHash>)
    requires Lists(xs, g.Keys) && Lists(ys, g.Keys) && Progress(g, done, q, deg) && q != []
    requires |done| < |order| && order[..|done| + 1] == done + [q[0]]
    ensures var f, f' := Freed(deg, Adj(Rebuilt(g, xs), q[0])), Freed(deg, Adj(Rebuilt(g, ys), q[0]));
            |f| == |f'| && (f == f' <==> Agree(g, order, xs, ys, |done|))
  {
    hide Rebuilt, Freed, Released, Due, Select;
    FreedInListingOrder(g, xs, deg, q[0]);
    FreedInListingOrder(g, ys, deg, q[0]);
    DueIsReleased(g, done, q, deg, order);
    SelectSize(xs, ys, Due(g, deg, q[0]));
  }

  /**
    Two rebuilds of the same store give the same order exactly when, for every block, they list in the same
    order the blocks whose last parent it is.
   */
  lemma RebuildsAgreeExactly(g: Graph, xs: seq<BlockHash>, ys: seq<BlockHash>, hashes: seq<BlockHash>)
    requires Lists(xs, g.Keys) && Lists(ys, g.Keys) && Lists(hashes, g.Keys)
    ensures var order := Order(g, Rebuilt(g, xs), hashes);
            order == Order(g, Rebuilt(g, ys), hashes) <==> forall i :: 0 <= i < |order| ==> Agree(g, order, xs, ys, i)
  {
    hide Rebuilt, Drain, Roots, InDegrees, Agree, Lists, Progress;
    StartProgress(g, hashes);
    var order := Order(g, Rebuilt(g, xs), hashes);
    assert [] + order == order;
    RunsAlikeExactly(g, xs, ys, [], Roots(g, hashes), InDegrees(g), order);
  }

  // ---- the incremental index -----------------------------------------------------------------------

  function HashesOf(blocks: seq<Block>): seq<BlockHash> {
    seq(|blocks|, i requires 0 <= i < |blocks| => blocks[i].hash)
  }

  /** The stored hashes in the order of insertion. */
  function InsertionOrder(rules: Rules, log: seq<Submission>): seq<BlockHash> {
    HashesOf(StoredBlocks(rules, log))
  }

  lemma {:induction false} RebuiltGrows(g: Graph, g': Graph, hashes: seq<BlockHash>)
    requires forall h :: h in hashes ==> Adj(g', h) == Adj(g, h)
    ensures Rebuilt(g', hashes) == Rebuilt(g, hashes)
  {
    if hashes != [] {
      assert hashes[|hashes| - 1] in hashes;
      RebuiltGrows(g, g', hashes[..|hashes| - 1]);
    }
  }

  lemma InsertionOrderLists(rules: Rules, log: seq<Submission>)
    requires CollisionFree(rules)
    ensures Lists(InsertionOrder(rules, log), Run(rules, log).store.Keys)
  {
    hide StoredBlocks, Run;
    StoredBlocksAreTheStore(rules, log);
    var xs, s := InsertionOrder(rules, log), Run(rules, log).store;
    var blocks := StoredBlocks(rules, log);
    assert forall i :: 0 <= i < |xs| ==> xs[i] in s && s[xs[i]].header.topoIndex == i;
    assert NoRepeats(xs);
    ElementsCount(xs);
    assert Elements(xs) <= s.Keys;
    FullSubset(Elements(xs), s.Keys);
    assert forall x :: x in xs <==> x in Elements(xs);
  }

  lemma FullSubset(a: set<BlockHash>, b: set<BlockHash>)
    requires a <= b && |a| == |b|
    ensures a == b
  {
    assert b == a + (b - a);
  }

  lemma InsertionOrderSnoc(rules: Rules, log: seq<Submission>)
    requires log != []
    ensures var init, last := log[..|log| - 1], log[|log| - 1];
            var d := Run(rules, init);
            InsertionOrder(rules, log) == InsertionOrder(rules, init) +
              (if Insert(rules, last.now, d, last.block).Ok? then [Annotate(rules, d.store, last.block).hash] else [])
  {
    hide Insert, Annotate, Run;
  }

  /** The child lists of a run are those of a rebuild in the order of insertion. */
  lemma {:induction false} RunIsRebuilt(rules: Rules, log: seq<Submission>)
    requires CollisionFree(rules)
    ensures var d := Run(rules, log); d.children == Rebuilt(ParentGraph(d.store), InsertionOrder(rules, log))
  {
    hide Valid, Annotate, Admit, AddChild, InsertionOrder, Rebuilt;
    if log == [] {
      assert InsertionOrder(rules, []) == [] && Rebuilt(map[], []) == map[] by { NothingRebuilt(rules); }
    } else {
      var init, last := log[..|log| - 1], log[|log| - 1];
      var d := Run(rules, init);
      RunIsRebuilt(rules, init);
      RunIsValid(rules, init);
      InsertionOrderSnoc(rules, log);
      if Insert(rules, last.now, d, last.block).Ok? {
        var b, xs := Annotate(rules, d.store, last.block), InsertionOrder(rules, init);
        InsertKeepsValid(rules, last.now, d, last.block);
        AnnotateKeepsParents(rules, d.store, last.block);
        InsertionOrderLists(rules, init);
        RebuiltSnoc(d.store, xs, b);
      } else {
        assert InsertionOrder(rules, log) == InsertionOrder(rules, init);
      }
    }
  }

  lemma NothingRebuilt(rules: Rules)
    ensures InsertionOrder(rules, []) == [] && Rebuilt(map[], []) == map[]
  {
  }

  lemma RebuiltSnoc(s: Store, xs: seq<BlockHash>, b: Block)
    requires b.hash !in s && Lists(xs, s.Keys)
    ensures Rebuilt(ParentGraph(s[b.hash := b]), xs + [b.hash]) ==
              AddChild(Rebuilt(ParentGraph(s), xs), b.header.parentHashes, b.hash)
  {
    hide AddChild, Rebuilt;
    var g, g' := ParentGraph(s), ParentGraph(s[b.hash := b]);
    RebuiltGrows(g, g', xs);
    RebuiltLast(g', xs, b.hash);
  }

  /** `d` with its child lists rebuilt from the listing `hashes`. */
  ghost function Reindexed(d: Dag, hashes: seq<BlockHash>): Dag {
    d.(children := Rebuilt(ParentGraph(d.store), hashes))
  }

  lemma ReindexedIsValid(rules: Rules, d: Dag, hashes: seq<BlockHash>)
    requires Valid(rules, d) && Lists(hashes, d.store.Keys)
    ensures Valid(rules, Reindexed(d, hashes))
  {
    hide ValidStore, Rebuilt, Transposed, Childless;
    RebuiltTransposes(ParentGraph(d.store), hashes);
  }

  /**
    After any run, rebuilding the index keeps the exported order - and then all final blocks - exactly when
    the store enumerates blocks with the same last parent in the order of their insertion.
   */
  lemma RebuildKeepsOrderExactly(rules: Rules, log: seq<Submission>, hashes: seq<BlockHash>)
    requires CollisionFree(rules) && Lists(hashes, Run(rules, log).store.Keys)
    ensures var d := Run(rules, log);
            DagOrder(Reindexed(d, hashes)) == DagOrder(d) <==>
              forall i :: 0 <= i < |DagOrder(d)| ==>
                Agree(ParentGraph(d.store), DagOrder(d), InsertionOrder(rules, log), hashes, i)
    ensures var d := Run(rules, log);
            DagOrder(Reindexed(d, hashes)) == DagOrder(d) ==>
              forall k: nat :: FinalBlocks(k, Reindexed(d, hashes)) == FinalBlocks(k, d)
  {
    hide Rebuilt, InsertionOrder, Order, Agree, Run, Lists, FinalIn;
    var d := Run(rules, log);
    RunIsRebuilt(rules, log);
    InsertionOrderLists(rules, log);
    ListingLists(d.store.Keys);
    ParentGraphKeys(d.store);
    RebuildsAgreeExactly(ParentGraph(d.store), InsertionOrder(rules, log), hashes, Listing(d.store.Keys));
  }

  // ---- the store's own enumeration: ascending hash -------------------------------------------------------

  /** The order in which the key-value store lists its blocks. */
  ghost function ByHash(s: Store): seq<BlockHash> {
    Arranged(map[], s.Keys)
  }

  ghost predicate Increasing(xs: seq<BlockHash>, rank: BlockHash -> int) {
    forall i, j :: 0 <= i < j < |xs| ==> rank(xs[i]) < rank(xs[j])
  }

  const HASH: BlockHash -> int := h => h

  /** It lists every stored block once by ascending hash, and is the only list that does. */
  lemma ByHashExactly(s: Store, xs: seq<BlockHash>)
    ensures Lists(xs, s.Keys) && Increasing(xs, HASH) <==> xs == ByHash(s)
  {
    ArrangedLists(map[], s.Keys);
    ArrangedAscends(map[], s.Keys);
    if Lists(xs, s.Keys) && Increasing(xs, HASH) {
      AscendingIsArranged(map[], xs);
      assert Elements(xs) == s.Keys;
    }
  }

  lemma {:induction false} SelectIncreases(xs: seq<BlockHash>, F: set<BlockHash>, rank: BlockHash -> int)
    requires Increasing(xs, rank) && NoRepeats(xs)
    ensures Increasing(Select(xs, F), rank)
  {
    if xs != [] {
      var init, x := xs[..|xs| - 1], xs[|xs| - 1];
      assert xs == init + [x];
      SelectIncreases(init, F, rank);
      SelectLists(init, F);
      var ys := Select(init, F);
      forall i | 0 <= i < |ys| ensures rank(ys[i]) < rank(x) {
        assert ys[i] in init;
      }
    }
  }

  /** Two listings of the same blocks by ascending hash are equal. */
  lemma IncreasingIsUnique(xs: seq<BlockHash>, ys: seq<BlockHash>)
    requires Increasing(xs, HASH) && Increasing(ys, HASH) && Elements(xs) == Elements(ys)
    ensures xs == ys
  {
    AscendingIsArranged(map[], xs);
    AscendingIsArranged(map[], ys);
  }

  /** The position of a block in the order of insertion. */
  ghost function TopoOf(s: Store): BlockHash -> int {
    h => if h in s then s[h].header.topoIndex else 0
  }

  lemma InsertionOrderIncreases(rules: Rules, log: seq<Submission>)
    requires CollisionFree(rules)
    ensures Increasing(InsertionOrder(rules, log), TopoOf(Run(rules, log).store))
  {
    hide StoredBlocks, Run;
    StoredBlocksAreTheStore(rules, log);
    var xs, s := InsertionOrder(rules, log), Run(rules, log).store;
    var blocks := StoredBlocks(rules, log);
    assert forall i :: 0 <= i < |xs| ==> xs[i] == blocks[i].hash && TopoOf(s)(xs[i]) == i;
  }

  /** The members of `F` were inserted by ascending hash. */
  ghost predicate InsertedByHash(s: Store, F: set<BlockHash>) {
    forall a, b :: a in F && b in F && TopoOf(s)(a) < TopoOf(s)(b) ==> a < b
  }

  lemma SelectedByHashExactly(s: Store, xs: seq<BlockHash>, ys: seq<BlockHash>, F: set<BlockHash>)
    requires Lists(xs, s.Keys) && Lists(ys, s.Keys) && Increasing(xs, TopoOf(s)) && Increasing(ys, HASH) && F <= s.Keys
    ensures Select(xs, F) == Select(ys, F) <==> InsertedByHash(s, F)
  {
    hide Select, TopoOf, InsertedByHash;
    var us, vs := Select(xs, F), Select(ys, F);
    SelectLists(xs, F);
    SelectLists(ys, F);
    SelectIncreases(xs, F, TopoOf(s));
    SelectIncreases(ys, F, HASH);
    assert Elements(us) == F && Elements(vs) == F;
    IncreasingByHashExactly(s, us, F);
    if Increasing(us, HASH) {
      IncreasingIsUnique(us, vs);
    }
  }

  /** The ranks along an increasing list compare as the places do. */
  lemma RanksAreSorted(us: seq<BlockHash>, rank: BlockHash -> int, i: nat, j: nat)
    requires Increasing(us, rank) && i < |us| && j < |us|
    ensures rank(us[i]) < rank(us[j]) <==> i < j
  {
    assert i < j ==> rank(us[i]) < rank(us[j]);
    assert j < i ==> rank(us[j]) < rank(us[i]);
  }

  /** A list in the order of insertion is one by ascending hash exactly when its members were inserted that way. */
  lemma IncreasingByHashExactly(s: Store, us: seq<BlockHash>, F: set<BlockHash>)
    requires Increasing(us, TopoOf(s)) && Elements(us) == F
    ensures Increasing(us, HASH) <==> InsertedByHash(s, F)
  {
    if Increasing(us, HASH) {
      InsertedIfIncreasing(s, us, F);
    }
    if InsertedByHash(s, F) {
      IncreasingIfInserted(s, us, F);
    }
  }

  lemma InsertedIfIncreasing(s: Store, us: seq<BlockHash>, F: set<BlockHash>)
    requires Increasing(us, TopoOf(s)) && Elements(us) == F && Increasing(us, HASH)
    ensures InsertedByHash(s, F)
  {
    hide TopoOf, Increasing;
    forall a, b | a in F && b in F && TopoOf(s)(a) < TopoOf(s)(b) ensures a < b {
      var i: nat :| i < |us| && us[i] == a;
      var j: nat :| j < |us| && us[j] == b;
      RanksAreSorted(us, TopoOf(s), i, j);
      RanksAreSorted(us, HASH, i, j);
    }
  }

  lemma IncreasingIfInserted(s: Store, us: seq<BlockHash>, F: set<BlockHash>)
    requires Increasing(us, TopoOf(s)) && Elements(us) == F && InsertedByHash(s, F)
    ensures Increasing(us, HASH)
  {
    hide TopoOf;
    forall i: nat, j: nat | i < j < |us| ensures HASH(us[i]) < HASH(us[j]) {
      RanksAreSorted(us, TopoOf(s), i, j);
      assert us[i] in F && us[j] in F;
    }
  }

  /**
    The rebuild that the code makes, from its store's enumeration: it leaves a valid index, and keeps the exported
    order exactly when blocks with the same last parent were inserted by ascending hash.
   */
  lemma RebuildByHashKeepsOrderExactly(rules: Rules, log: seq<Submission>)
    requires CollisionFree(rules)
    ensures var d := Run(rules, log);
            && Valid(rules, Reindexed(d, ByHash(d.store)))
            && (DagOrder(Reindexed(d, ByHash(d.store))) == DagOrder(d) <==>
                  forall i :: 0 <= i < |DagOrder(d)| ==>
                    InsertedByHash(d.store, Released(ParentGraph(d.store), DagOrder(d), i)))
  {
    hide *;
    var d := Run(rules, log);
    var ys := ByHash(d.store);
    ByHashExactly(d.store, ys);
    RunIsValid(rules, log);
    ReindexedIsValid(rules, d, ys);
    RebuildKeepsOrderExactly(rules, log, ys);
    forall i | 0 <= i < |DagOrder(d)|
      ensures Agree(ParentGraph(d.store), DagOrder(d), InsertionOrder(rules, log), ys, i) <==>
                InsertedByHash(d.store, Released(ParentGraph(d.store), DagOrder(d), i))
    {
      AgreeByHash(rules, log, i);
    }
  }

  lemma AgreeByHash(rules: Rules, log: seq<Submission>, i: nat)
    requires CollisionFree(rules) && i < |DagOrder(Run(rules, log))|
    ensures var d := Run(rules, log);
            var F := Released(ParentGraph(d.store), DagOrder(d), i);
            Agree(ParentGraph(d.store), DagOrder(d), InsertionOrder(rules, log), ByHash(d.store), i) <==>
              InsertedByHash(d.store, F)
  {
    hide Run, DagOrder, InsertionOrder, Select, ByHash, Increasing, InsertedByHash, Lists;
    var d := Run(rules, log);
    ByHashExactly(d.store, ByHash(d.store));
    InsertionOrderLists(rules, log);
    InsertionOrderIncreases(rules, log);
    SelectedByHashExactly(d.store, InsertionOrder(rules, log), ByHash(d.store),
                          Released(ParentGraph(d.store), DagOrder(d), i));
  }

  // ---- a rebuild that takes finality back -------------------------------------------------------------

  lemma {:induction false} SelectSkipsFirst(xs: seq<BlockHash>, F: set<BlockHash>)
    requires xs != [] && xs[0] !in F && forall x :: x in xs[1..] ==> x in F
    ensures Select(xs, F) == xs[1..]
    decreases |xs|
  {
    var n := |xs| - 1;
    if n == 0 {
      assert Select(xs[..0], F) == [];
    } else {
      assert xs[n] == xs[1..][n - 1];
      assert xs[..n][1..] == xs[1..n];
      SelectSkipsFirst(xs[..n], F);
      assert xs[1..] == xs[1..n] + [xs[n]];
    }
  }

  lemma LeafHasNoChildren(s: Store, g: BlockHash, c: Graph, y: BlockHash)
    requires Star(s, g) && Transposed(ParentGraph(s), c) && y != g
    ensures Adj(c, y) == []
  {
    SomeMember(Adj(c, y));
    if x :| x in Adj(c, y) {
      TransposedEdge(ParentGraph(s), c, y, x);
    }
  }

  /** In a star the order is genesis and then the listing. */
  lemma StarOrder(rules: Rules, d: Dag, g: BlockHash, xs: seq<BlockHash>)
    requires Valid(rules, d) && Star(d.store, g) && Lists(xs, d.store.Keys)
    ensures DagOrder(Reindexed(d, xs)) == [g] + Select(xs, d.store.Keys - {g})
  {
    hide *;
    var s := d.store;
    var G, hashes := ParentGraph(s), Listing(s.Keys);
    var c, f := Rebuilt(G, xs), Select(xs, s.Keys - {g});
    ValidHasValidStore(rules, d);
    ListingLists(s.Keys);
    StarRoots(rules, s, g, hashes);
    StarFreed(s, g, xs);
    ParentGraphKeys(s);
    RebuiltTransposes(G, xs);
    StarLeaves(s, g, c, xs);
    DrainPop(g, [], InDegrees(G), c);
    DrainLeaves(f, Settle(InDegrees(G), Adj(c, g)), c);
    OrderIsDrain(G, c, hashes);
    ReindexedFields(d, xs);
    OrderUnfolds(Reindexed(d, xs));
    assert [] + f == f && [g] + [] == [g];
  }

  lemma ReindexedFields(d: Dag, hashes: seq<BlockHash>)
    ensures Reindexed(d, hashes).store == d.store
    ensures Reindexed(d, hashes).children == Rebuilt(ParentGraph(d.store), hashes)
    ensures d.children == Rebuilt(ParentGraph(d.store), hashes) ==> Reindexed(d, hashes) == d
  {
  }

  lemma OrderIsDrain(g: Graph, c: Graph, hashes: seq<BlockHash>)
    ensures Order(g, c, hashes) == Drain(Roots(g, hashes), InDegrees(g), c)
  {
  }

  lemma StarRoots(rules: Rules, s: Store, g: BlockHash, hashes: seq<BlockHash>)
    requires ValidStore(rules, s) && Star(s, g) && Lists(hashes, s.Keys)
    ensures Roots(ParentGraph(s), hashes) == [g]
  {
    hide ValidStore, Roots;
    RootsAreGenesis(rules, s, hashes);
    assert IsGenesis(s, g);
  }

  lemma StarLeaves(s: Store, g: BlockHash, c: Graph, xs: seq<BlockHash>)
    requires Star(s, g) && Transposed(ParentGraph(s), c) && Lists(xs, s.Keys)
    ensures forall y :: y in Select(xs, s.Keys - {g}) ==> Adj(c, y) == []
  {
    hide Star, Transposed, ParentGraph, Select;
    SelectLists(xs, s.Keys - {g});
    forall y | y in Select(xs, s.Keys - {g}) ensures Adj(c, y) == [] { LeafHasNoChildren(s, g, c, y); }
  }

  lemma StarFreed(s: Store, g: BlockHash, xs: seq<BlockHash>)
    requires Star(s, g) && Lists(xs, s.Keys)
    ensures Freed(InDegrees(ParentGraph(s)), Adj(Rebuilt(ParentGraph(s), xs), g)) == Select(xs, s.Keys - {g})
  {
    hide Rebuilt, Freed, Due, Select, Star;
    FreedInListingOrder(ParentGraph(s), xs, InDegrees(ParentGraph(s)), g);
    StarDue(s, g);
  }

  lemma StarDue(s: Store, g: BlockHash)
    requires Star(s, g)
    ensures Due(ParentGraph(s), InDegrees(ParentGraph(s)), g) == s.Keys - {g}
  {
    forall x | x in s ensures x in Due(ParentGraph(s), InDegrees(ParentGraph(s)), g) <==> x != g {
      if x != g {
        assert multiset(s[x].header.parentHashes)[g] == 1;
      }
    }
  }

  lemma FirstIsRoot(rules: Rules, log: seq<Submission>, g: BlockHash)
    requires CollisionFree(rules) && Star(Run(rules, log).store, g)
    ensures InsertionOrder(rules, log) != [] && InsertionOrder(rules, log)[0] == g
  {
    hide StoredBlocks, Run, Valid;
    var s, xs := Run(rules, log).store, InsertionOrder(rules, log);
    StoredBlocksAreTheStore(rules, log);
    RunIsValid(rules, log);
    InsertionOrderLists(rules, log);
    SomeMember(xs);
    assert xs[0] in s && s[xs[0]].header.topoIndex == 0;
    ValidHasValidStore(rules, Run(rules, log));
  }

  /** `h`, final before the rebuild, is not final afterwards. */
  ghost predicate RebuildTakesBack(d: Dag, hashes: seq<BlockHash>, k: nat, h: BlockHash) {
    && Lists(hashes, d.store.Keys)
    && h in FinalBlocks(k, d) && h !in FinalBlocks(k, Reindexed(d, hashes))
  }

  /** The order before the rebuild: genesis, and the leaves as they were inserted. */
  lemma StarOrderBefore(rules: Rules, log: seq<Submission>, g: BlockHash)
    requires CollisionFree(rules) && Star(Run(rules, log).store, g)
    ensures DagOrder(Run(rules, log)) == InsertionOrder(rules, log)
  {
    hide *;
    var d, xs := Run(rules, log), InsertionOrder(rules, log);
    RunIsValid(rules, log);
    InsertionOrderLists(rules, log);
    RunIsRebuilt(rules, log);
    ReindexedFields(d, xs);
    StarOrder(rules, d, g, xs);
    FirstIsRoot(rules, log, g);
    RestAreLeaves(xs, d.store.Keys);
    SelectSkipsFirst(xs, d.store.Keys - {g});
    assert [g] + xs[1..] == xs;
  }

  lemma RestAreLeaves(xs: seq<BlockHash>, S: set<BlockHash>)
    requires Lists(xs, S) && xs != []
    ensures forall x :: x in xs[1..] ==> x in S - {xs[0]}
  {
  }

  /** The largest member of a list by ascending hash is its last. */
  lemma LargestIsLast(xs: seq<BlockHash>, h: BlockHash)
    requires Increasing(xs, HASH) && h in xs && forall x :: x in xs && x != h ==> x < h
    ensures xs[|xs| - 1] == h
  {
    assert xs[|xs| - 1] in xs;
  }

  /** The first leaf, if its hash is larger than all others, comes last after the rebuild. */
  lemma LargestLeafGoesLast(rules: Rules, d: Dag, g: BlockHash, h: BlockHash)
    requires Valid(rules, d) && Star(d.store, g) && h in d.store && h != g
    requires forall x :: x in d.store && x != g && x != h ==> x < h
    ensures var order := DagOrder(Reindexed(d, ByHash(d.store)));
            |order| == |d.store| && order[|order| - 1] == h
  {
    hide Valid, DagOrder, ByHash, Select, Star, Reindexed;
    var ys, F := ByHash(d.store), d.store.Keys - {g};
    ByHashExactly(d.store, ys);
    StarOrder(rules, d, g, ys);
    SelectLists(ys, F);
    SelectIncreases(ys, F, HASH);
    LargestIsLast(Select(ys, F), h);
    ReindexedIsValid(rules, d, ys);
    DagOrderIsTopological(rules, Reindexed(d, ys));
    ReindexedFields(d, ys);
  }

  /** In a run whose first leaf outgrows all others, the first leaf is the largest. */
  lemma FirstLeafIsLargest(rules: Rules, s: Store, g: BlockHash, nonce: nat, n: nat, h: BlockHash)
    requires ValidStore(rules, s) && Star(s, g) && Leaves(rules, s, g, nonce) && |s| == n + 1
    requires forall i: nat :: 1 < i <= n ==> LeafHash(rules, g, 0, i) < LeafHash(rules, g, nonce, 1)
    requires h in s && s[h].header.topoIndex == 1
    ensures h != g && forall x :: x in s && x != g && x != h ==> x < h
  {
    hide LeafHash, Annotated, Keyed, Layered;
    assert h != g;
    assert IsLeaf(rules, g, nonce, h, 1);
    forall x | x in s && x != g && x != h ensures x < h {
      var i := s[x].header.topoIndex;
      assert IsLeaf(rules, g, nonce, x, i);
      assert i != 0 && i != 1 && i <= n;
    }
  }

  lemma StarThreshold(k: nat, n: nat)
    requires n == 10 * (k + 1)
    ensures 1 <= Threshold(k, n) < n
  {
  }

  lemma SecondInserted(rules: Rules, log: seq<Submission>)
    requires CollisionFree(rules) && |Run(rules, log).store| > 1
    ensures var xs, s := InsertionOrder(rules, log), Run(rules, log).store;
            |xs| == |s| && xs[1] in s && s[xs[1]].header.topoIndex == 1
  {
    hide StoredBlocks, Run;
    StoredBlocksAreTheStore(rules, log);
  }

  /**
    For every k there is a run - genesis and 10(k + 1) blocks on it, the first with a suitable nonce - after which the
    rebuild that the code makes un-finalises a block.
   */
  lemma RebuildCanTakeFinalityBack(rules: Rules, k: nat, n: nat) returns (nonce: nat, h: BlockHash)
    requires CollisionFree(rules) && n == 10 * (k + 1)
    ensures var d := Run(rules, StarLog(rules, nonce, n)); RebuildTakesBack(d, ByHash(d.store), k, h)
  {
    hide *;
    var g := StarStarts(rules, 0);
    var most := LeavesAreBounded(rules, g, n);
    nonce := LargeNonce(rules, g, most);
    var log := StarLog(rules, nonce, n);
    var d := Run(rules, log);
    var g' := StarIsStar(rules, nonce, n);
    assert g' in {g};
    SecondInserted(rules, log);
    h := InsertionOrder(rules, log)[1];
    ValidHasValidStore(rules, d);
    FirstLeafIsLargest(rules, d.store, g, nonce, n, h);
    StarOrderBefore(rules, log, g);
    LargestLeafGoesLast(rules, d, g, h);
    ByHashExactly(d.store, ByHash(d.store));
    ReindexedIsValid(rules, d, ByHash(d.store));
    DagOrderIsTopological(rules, d);
    DagOrderIsTopological(rules, Reindexed(d, ByHash(d.store)));
    ListsHasNoRepeats(DagOrder(d), d.store.Keys);
    ReindexedFields(d, ByHash(d.store));
    ListsHasNoRepeats(DagOrder(Reindexed(d, ByHash(d.store))), d.store.Keys);
    MovedBack(d, ByHash(d.store), k, n, h);
  }

  lemma MovedBack(d: Dag, ys: seq<BlockHash>, k: nat, n: nat, h: BlockHash)
    requires n == 10 * (k + 1) && Lists(ys, d.store.Keys)
    requires |DagOrder(d)| == |DagOrder(Reindexed(d, ys))| == n + 1
    requires DagOrder(d)[1] == h && DagOrder(Reindexed(d, ys))[n] == h
    requires NoRepeats(DagOrder(d)) && NoRepeats(DagOrder(Reindexed(d, ys)))
    ensures RebuildTakesBack(d, ys, k, h)
  {
    hide Threshold, DagOrder, FinalIn, Reindexed, NoRepeats, Lists;
    StarThreshold(k, n);
    NotFinalBeyond(k, DagOrder(d), 1);
    NotFinalBeyond(k, DagOrder(Reindexed(d, ys)), n);
  }
}
