/**
  What an attached copy of the DAG sees.  Cloning a `BlockDAG` shares the store and copies the
  index, so a block inserted later is in the copy's store and not in its index; and a blue score
  cached before is kept.
 */
module Snapshots {
  import opened Collections
  import opened Graphs
  import opened Blocks
  import opened Dags
  import opened Pasts
  import opened Kahn
  import opened KahnGrowth
  import opened DagOrders

  // ---- Kahn's order over an old index ---------------------------------------------------

  /** The two tables agree on every block that some child list names. */
  ghost predicate AgreeOnListed(deg: Degrees, deg': Degrees, c: Graph) {
    forall y, x :: x in Adj(c, y) ==> x in deg && x in deg' && deg[x] == deg'[x]
  }

  lemma {:induction false} FreedAgrees(deg: Degrees, deg': Degrees, cs: seq<BlockHash>)
    requires forall x :: x in cs ==> x in deg && x in deg' && deg[x] == deg'[x]
    ensures Freed(deg, cs) == Freed(deg', cs)
  {
    if cs != [] {
      FreedAgrees(deg, deg', cs[..|cs| - 1]);
    }
  }

  lemma {:induction false} DrainAgrees(q: seq<BlockHash>, deg: Degrees, deg': Degrees, c: Graph)
    requires AgreeOnListed(deg, deg', c)
    ensures Drain(q, deg, c) == Drain(q, deg', c)
    decreases Waiting(deg), |q|
  {
    hide Freed;
    if q != [] {
      var cs := Adj(c, q[0]);
      FreedAgrees(deg, deg', cs);
      SettleShrinks(deg, cs);
      DrainAgrees(q[1..] + Freed(deg, cs), Settle(deg, cs), Settle(deg', cs), c);
    }
  }

  lemma ChildIsStored(rules: Rules, d: Dag, y: BlockHash, x: BlockHash)
    requires Valid(rules, d) && x in Adj(d.children, y)
    ensures x in d.store
  {
    TransposedEdge(ParentGraph(d.store), d.children, y, x);
  }

  lemma NoChildren(rules: Rules, d: Dag, y: BlockHash)
    requires Valid(rules, d) && d.store == map[]
    ensures Adj(d.children, y) == []
  {
    SomeMember(Adj(d.children, y));
    if x :| x in Adj(d.children, y) {
      ChildIsStored(rules, d, y, x);
    }
  }

  /** The blocks that the order over the index of `d` and the store `s` contains. */
  ghost function Visible(d: Dag, s: Store): Store {
    if d.store == map[] then map h | h in s && s[h].header.parentHashes == [] :: s[h] else d.store
  }

  lemma VisibleGrows(rules: Rules, d: Dag, s: Store)
    requires Valid(rules, d) && Grows(d.store, s)
    ensures Grows(Visible(d, s), s) && Layered(Visible(d, s))
  {
  }

  /**
    An index that has fallen behind yields the order of its own time: the blocks inserted since are
    missing - all but genesis, if the index is that of an empty DAG.
   */
  lemma {:induction false} OldIndexOrder(rules: Rules, d: Dag, s: Store, hashes: seq<BlockHash>)
    requires Valid(rules, d) && ValidStore(rules, s) && Grows(d.store, s) && Lists(hashes, s.Keys)
    ensures d.store != map[] ==> Order(ParentGraph(s), d.children, hashes) == DagOrder(d)
    ensures Lists(Order(ParentGraph(s), d.children, hashes), Visible(d, s).Keys)
  {
    hide Valid, ValidStore, Drain, Roots, Lists, Listing;
    var deg := InDegrees(ParentGraph(s));
    if d.store == map[] {
      forall y ensures Adj(d.children, y) == [] { NoChildren(rules, d, y); }
      DrainLeaves(Roots(ParentGraph(s), hashes), deg, d.children);
      RootsAreListed(s, hashes);
    } else {
      var own := Listing(d.store.Keys);
      ValidHasValidStore(rules, d);
      assert Lists(own, d.store.Keys) by { ListingLists(d.store.Keys); }
      SameRoots(rules, d.store, s, own, hashes);
      forall y, x | x in Adj(d.children, y) ensures x in d.store { ChildIsStored(rules, d, y, x); }
      DrainAgrees(Roots(ParentGraph(s), hashes), InDegrees(ParentGraph(d.store)), deg, d.children);
      DagOrderIsTopological(rules, d);
    }
  }

  lemma RootsAreListed(s: Store, hashes: seq<BlockHash>)
    requires Lists(hashes, s.Keys)
    ensures Lists(Roots(ParentGraph(s), hashes), (map h | h in s && s[h].header.parentHashes == [] :: s[h]).Keys)
  {
    RootsExactly(ParentGraph(s), hashes);
  }

  // ---- cached scores --------------------------------------------------------------------

  type ScoreCache = map<BlockHash, nat>

  /** Every cached score is the one a recomputation would give. */
  ghost predicate CacheHolds(s: Store, cache: ScoreCache) {
    forall h :: h in cache ==> cache[h] == BlueScore(s, h)
  }

  /**
    A cache that is right stays right while the DAG grows exactly when no hash was scored before its
    block arrived - unless that block has no parents.
   */
  lemma CacheKeptExactly(s: Store, s': Store, cache: ScoreCache)
    requires CacheHolds(s, cache) && Layered(s) && Layered(s') && Grows(s, s')
    ensures CacheHolds(s', cache) <==>
              forall h :: h in cache && h !in s && h in s' ==> s'[h].header.parentHashes == []
  {
    hide Layered, BlueScore, Grows;
    forall h | h in cache
      ensures cache[h] == BlueScore(s', h) <==> (h !in s && h in s' ==> s'[h].header.parentHashes == [])
    {
      if h in s {
        PastStable(s, s', h);
      } else {
        ScoreOneExactly(s, h);
        ScoreOneExactly(s', h);
      }
    }
  }

  /** Each entry is the score at some moment between two states of the store. */
  ghost predicate ScoredBetween(s: Store, s': Store, cache: ScoreCache) {
    forall h :: h in cache ==> ScoredAt(s, s', h, cache[h])
  }

  ghost predicate ScoredAt(s: Store, s': Store, h: BlockHash, score: nat) {
    exists t: Store :: Layered(t) && Grows(s, t) && Grows(t, s') && score == BlueScore(t, h)
  }

  lemma ScoredNow(s: Store, s': Store, h: BlockHash)
    requires Layered(s') && Grows(s, s')
    ensures ScoredAt(s, s', h, BlueScore(s', h))
  {
    assert Grows(s', s');
  }

  lemma ScoredBetweenGrows(s: Store, t: Store, s': Store, cache: ScoreCache)
    requires ScoredBetween(s, t, cache) && Grows(t, s')
    ensures ScoredBetween(s, s', cache)
  {
    hide BlueScore, Layered;
    forall h | h in cache ensures ScoredAt(s, s', h, cache[h]) {
      var u: Store :| Layered(u) && Grows(s, u) && Grows(u, t) && cache[h] == BlueScore(u, h);
      assert Grows(u, s');
    }
  }

  /** A score taken at some moment is still right, or it is the 1 of a block that has arrived since. */
  lemma OldScore(s: Store, s': Store, h: BlockHash, score: nat)
    requires Layered(s') && ScoredAt(s, s', h, score)
    ensures h in s || h !in s' || s'[h].header.parentHashes == [] ==> score == BlueScore(s', h)
    ensures score == BlueScore(s', h) || score == 1
  {
    hide BlueScore, Layered;
    var t: Store :| Layered(t) && Grows(s, t) && Grows(t, s') && score == BlueScore(t, h);
    if h in t {
      PastStable(t, s', h);
    } else {
      ScoreOneExactly(t, h);
      ScoreOneExactly(s', h);
    }
  }

  /** Scored over `s` the hash `x` is cached as 1, and over `s'` that is wrong. */
  ghost predicate StaleAfter(s: Store, s': Store, x: BlockHash) {
    && x !in s && x in s' && BlueScore(s', x) > 1
    && CacheHolds(s, map[x := 1]) && !CacheHolds(s', map[x := 1])
  }

  /** The hash of the next block, scored before the block is inserted, is cached as 1 and wrong afterwards. */
  lemma ScoredTooEarly(rules: Rules, now: nat, d: Dag, b: Block)
    requires CollisionFree(rules) && Valid(rules, d) && Insert(rules, now, d, b).Ok? && b.header.parentHashes != []
    ensures StaleAfter(d.store, Insert(rules, now, d, b).dag.store, Annotate(rules, d.store, b).hash)
  {
    hide *;
    var x, d' := Annotate(rules, d.store, b).hash, Insert(rules, now, d, b).dag;
    InsertKeepsValid(rules, now, d, b);
    InsertedParents(rules, now, d, b);
    StoreIsLayered(rules, d);
    StoreIsLayered(rules, d');
    ScoreOneExactly(d.store, x);
    ScoreOneExactly(d'.store, x);
    ScoreIsPositive(d'.store, x);
    StaleByScores(d.store, d'.store, x);
  }

  lemma InsertedParents(rules: Rules, now: nat, d: Dag, b: Block)
    requires Insert(rules, now, d, b).Ok?
    ensures var x, d' := Annotate(rules, d.store, b).hash, Insert(rules, now, d, b).dag;
            x in d'.store && d'.store[x].header.parentHashes == b.header.parentHashes
  {
    hide Annotate, AddChild, Admit;
    AnnotateKeepsParents(rules, d.store, b);
  }

  lemma StaleByScores(s: Store, s': Store, x: BlockHash)
    requires x !in s && x in s' && BlueScore(s, x) == 1 < BlueScore(s', x)
    ensures StaleAfter(s, s', x)
  {
    hide BlueScore;
    var cache: ScoreCache := map[x := 1];
    assert x in cache;
  }

  lemma ScoreIsPositive(s: Store, h: BlockHash)
    ensures BlueScore(s, h) > 0
  {
  }

  lemma StoreIsLayered(rules: Rules, d: Dag)
    requires Valid(rules, d)
    ensures Layered(d.store)
  {
  }

  lemma InsertGrows(rules: Rules, now: nat, d: Dag, b: Block)
    requires CollisionFree(rules) && Valid(rules, d) && Insert(rules, now, d, b).Ok?
    ensures Grows(d.store, Insert(rules, now, d, b).dag.store)
  {
    hide Valid, Annotate, AddChild, Admit;
    InsertKeepsValid(rules, now, d, b);
  }
}
