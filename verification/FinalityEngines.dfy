/**
  The finality engine object (src/finality/finality_engine.rs): heights and scores taken
  from the exported order, the height tree with its reachability caches, the finalized
  blocks by height, and cached blue scores.
 */
module FinalityEngines {
  import opened Collections
  import opened Graphs
  import opened Blocks
  import opened Dags
  import opened Pasts
  import opened Kahn
  import opened DagOrders
  import opened Heights
  import opened HeightTrees
  import opened Finality
  import opened BlockDags
  import opened Snapshots

  type Table = map<BlockHash, nat>

  const MAX_CACHE_SIZE := 10000

  /** The reachability test on heights and scores; None where a block is unknown. */
  function ReachTest(heights: Table, scores: Table, from: BlockHash, to: BlockHash): Option<bool> {
    if from in heights && to in heights && from in scores && to in scores
    then Some(heights[from] <= heights[to] && scores[from] <= scores[to])
    else None
  }

  /** Every cached answer is the one the test would give. */
  ghost predicate CachesHold(heights: Table, scores: Table, cache: map<BlockHash, map<BlockHash, bool>>) {
    forall a, b :: a in cache && b in cache[a] ==> ReachTest(heights, scores, a, b) == Some(cache[a][b])
  }

  /** Heights are the stored ones and scores are positions in `order`. */
  ghost predicate Measures(s: Store, order: seq<BlockHash>, heights: Table, scores: Table) {
    && heights.Keys == scores.Keys == s.Keys == Elements(order)
    && (forall h :: h in heights ==> heights[h] == s[h].header.chainHeight)
    && (forall i :: 0 <= i < |order| ==> order[i] in scores && scores[order[i]] == i)
  }

  /** Heights and scores are those of `d` and its exported order. */
  ghost predicate Synced(d: Dag, heights: Table, scores: Table) {
    Measures(d.store, DagOrder(d), heights, scores)
  }

  /** One entry per block of `order`. */
  ghost predicate Holds(nodes: seq<Entry>, order: seq<BlockHash>, heights: Table) {
    Elements(order) == heights.Keys && nodes == EntriesFor(order, heights)
  }

  /** The tree holds each block of `order` exactly once and reads in height order from left to right. */
  ghost predicate TreeFits(t: Tree, order: seq<BlockHash>, heights: Table) {
    && Elements(order) == heights.Keys
    && multiset(Entries(t)) == multiset(EntriesFor(order, heights))
    && HeightsAscend(Entries(t))
  }

  lemma TreeOf(nodes: seq<Entry>, order: seq<BlockHash>, heights: Table)
    requires Holds(nodes, order, heights)
    ensures TreeFits(BuildBalancedTree(nodes), order, heights)
  {
    TreeHoldsAll(nodes);
  }

  ghost function EntriesFor(order: seq<BlockHash>, heights: Table): seq<Entry>
    requires forall h :: h in order ==> h in heights
  {
    seq(|order|, i requires 0 <= i < |order| => Entry(order[i], heights[order[i]], i))
  }

  /** A block's virtual selected parent, with that parent's height, score and blue score. */
  datatype VirtualParent = VirtualParent(block: BlockHash, height: nat, score: nat, blueScore: nat)

  /** `p` is the first of the parents `ps` with the greatest blue score. */
  ghost predicate IsBluest(s: Store, ps: seq<BlockHash>, p: BlockHash) {
    exists i :: 0 <= i < |ps| && ps[i] == p && BluestAt(s, ps, i)
  }

  ghost predicate BluestAt(s: Store, ps: seq<BlockHash>, i: nat)
    requires i < |ps|
  {
    && (forall j :: 0 <= j < i ==> BlueScore(s, ps[j]) < BlueScore(s, ps[i]))
    && (forall j :: i < j < |ps| ==> BlueScore(s, ps[j]) <= BlueScore(s, ps[i]))
  }

  /** Genesis stands for itself, every other block for its bluest parent. */
  ghost predicate IsVirtualParent(s: Store, scores: Table, h: BlockHash, v: VirtualParent)
    requires h in s
  {
    var ps := s[h].header.parentHashes;
    if ps == [] then v == VirtualParent(h, 0, 0, 0)
    else
      && IsBluest(s, ps, v.block) && v.block in s
      && v.height == s[v.block].header.chainHeight
      && v.score == (if v.block in scores then scores[v.block] else 0)
      && v.blueScore == BlueScore(s, v.block)
  }

  class FinalityEngine {
    const k: nat
    var tree: Tree
    var heights: Table
    var scores: Table
    var reachCache: map<BlockHash, map<BlockHash, bool>>
    var finalized: map<nat, set<BlockHash>>
    var blueScores: Table
    var virtualParents: map<BlockHash, VirtualParent>

    ghost predicate Valid()
      reads this`heights, this`scores, this`reachCache
    {
      CachesHold(heights, scores, reachCache)
    }

    /** The blue-score cache holds what a recomputation over `s` would give, and only stored blocks. */
    ghost predicate ScoresHold(s: Store)
      reads this`blueScores
    {
      CacheHolds(s, blueScores) && blueScores.Keys <= s.Keys
    }

    constructor (k: nat)
      ensures Valid() && this.k == k && tree == Empty && finalized == map[] && blueScores == map[]
      ensures forall s: Store :: ScoresHold(s)
    {
      this.k := k;
      virtualParents := map[];
      tree, heights, scores, reachCache, finalized, blueScores := Empty, map[], map[], map[], map[], map[];
    }

    ghost predicate Knows(h: BlockHash)
      reads this`heights, this`scores
    {
      h in heights && h in scores
    }

    /** The search finds the block with its height and score. */
    ghost predicate Found(h: BlockHash)
      reads this`tree, this`heights, this`scores
    {
      h in heights && h in scores && FindNode(tree, h) == Some(Entry(h, heights[h], scores[h]))
    }

    /** Heights and positions of an order, and the tree over them; all reachability caches start empty. */
    method BuildIntervalTree(ordering: seq<BlockHash>, dag: BlockDag)
      requires Valid() && dag.Valid() && Lists(ordering, dag.store.Keys)
      modifies this`tree, this`heights, this`scores, this`reachCache
      ensures Valid()
      ensures ordering == [] ==> tree == old(tree) && heights == old(heights) && scores == old(scores)
      ensures ordering != [] ==> TreeFits(tree, ordering, heights) && Measures(dag.store, ordering, heights, scores)
      ensures ordering != [] ==> forall h :: h in dag.store ==> Found(h)
    {
      hide *;
      if ordering == [] {
        return;
      }
      var nodes, hs, ss := MeasureOrder(ordering, dag);
      tree, heights, scores, reachCache := BuildBalancedTree(nodes), hs, ss, map[];
      EmptyCachesHold(hs, ss);
      assert Valid() by { EngineIsValid(this); }
      assert TreeFits(tree, ordering, heights) by { TreeOf(nodes, ordering, hs); }
      forall h | h in dag.store ensures Found(h) {
        EntryIsFound(dag.store, tree, ordering, hs, ss, h);
        IsFound(this, h);
      }
    }

    /** The loop over the order: one height, one position and one tree entry per block. */
    method MeasureOrder(ordering: seq<BlockHash>, dag: BlockDag) returns (nodes: seq<Entry>, hs: Table, ss: Table)
      requires dag.Valid() && Lists(ordering, dag.store.Keys)
      ensures Measures(dag.store, ordering, hs, ss) && Holds(nodes, ordering, hs)
    {
      hide *;
      nodes, hs, ss := [], map[], map[];
      NothingMeasured(dag.store);
      for i := 0 to |ordering|
        invariant Measured(dag.store, ordering[..i], nodes, hs, ss)
      {
        ListedIsStored(dag.store, ordering, i);
        var height := dag.GetBlockHeight(ordering[i]);
        MeasureStep(dag.store, ordering, i, nodes, hs, ss);
        hs := hs[ordering[i] := height.value];
        ss := ss[ordering[i] := i];
        nodes := nodes + [Entry(ordering[i], height.value, i)];
      }
      AllMeasured(dag.store, ordering, nodes, hs, ss);
    }

    /** Cached or not, evicted or not, the answer is that of the test on heights and scores. */
    method CanReach(from: BlockHash, to: BlockHash, ghost d: Dag) returns (r: Option<bool>)
      requires Valid()
      modifies this`reachCache
      ensures Valid()
      ensures r == if tree == Empty then None
                   else if FindNode(tree, from).Some? && from in old(reachCache) && to in old(reachCache)[from]
                   then Some(old(reachCache)[from][to])
                   else ReachTest(heights, scores, from, to)
      ensures tree != Empty ==> r == ReachTest(heights, scores, from, to)
      ensures tree != Empty && Synced(d, heights, scores) && from in d.store && to in d.store ==>
                r == Some(StoredHeight(d, from) <= StoredHeight(d, to) && (from == to || StandsBefore(d, from, to)))
      ensures tree != Empty && Synced(d, heights, scores) && (from !in d.store || to !in d.store) ==> r == None
    {
      if Synced(d, heights, scores) {
        ReachMeans(d, heights, scores, from, to);
      }
      hide Synced, StandsBefore;
      if tree == Empty {
        return None;
      }
      var node := FindNode(tree, from);
      if node.Some? && from in reachCache && to in reachCache[from] {
        return Some(reachCache[from][to]);
      }
      r := ReachTest(heights, scores, from, to);
      if r.Some? && node.Some? {
        var entries: map<BlockHash, bool> := (if from in reachCache then reachCache[from] else map[])[to := r.value];
        if |entries| > MAX_CACHE_SIZE / 100 {
          entries := map[];
        }
        reachCache := reachCache[from := entries];
      }
    }

    /** The loop: the blocks not lower than `block` that do not pass the reachability test from it. */
    method CollectUnreached(block: BlockHash, hashes: seq<BlockHash>, ghost d: Dag) returns (r: Option<set<BlockHash>>)
      requires Valid()
      modifies this`reachCache
      ensures Valid()
      ensures r.Some? ==> block in heights && forall x ::
                x in r.value <==> x in hashes && x != block && InAnticone(heights, scores, block, x)
      ensures tree != Empty && Knows(block) && (forall x :: x in hashes ==> Knows(x)) ==> r.Some?
    {
      hide Synced, StandsBefore, StoredHeight;
      if block !in heights {
        return None;
      }
      var anticone := {};
      for i := 0 to |hashes|
        invariant Valid()
        invariant forall x :: x in anticone <==> x in hashes[..i] && x != block && InAnticone(heights, scores, block, x)
      {
        assert hashes[..i + 1] == hashes[..i] + [hashes[i]];
        var other := hashes[i];
        assert other in hashes;
        if other != block && (if other in heights then heights[other] else 0) >= heights[block] {
          var reach := CanReach(block, other, d);
          if reach.None? {
            return None;
          }
          if !reach.value {
            anticone := anticone + {other};
          }
        }
      }
      assert hashes[..|hashes|] == hashes;
      r := Some(anticone);
    }

    /**
      The anticone of a block, over up-to-date tables: the blocks that are not lower and stand before it in the
      exported order.
     */
    method ComputeAnticone(block: BlockHash, hashes: seq<BlockHash>, ghost d: Dag) returns (r: Option<set<BlockHash>>)
      requires Valid()
      modifies this`reachCache
      ensures Valid()
      ensures r.Some? ==> block in heights && forall x ::
                x in r.value <==> x in hashes && x != block && InAnticone(heights, scores, block, x)
      ensures tree != Empty && Knows(block) && (forall x :: x in hashes ==> Knows(x)) ==> r.Some?
      ensures tree != Empty && Synced(d, heights, scores) && Lists(hashes, d.store.Keys) && block in d.store ==>
                r.Some? && forall x :: x in r.value <==>
                  x in d.store && StoredHeight(d, x) >= StoredHeight(d, block) && StandsBefore(d, x, block)
    {
      hide Synced, StandsBefore, StoredHeight, InAnticone, NoRepeats;
      if Synced(d, heights, scores) && block in d.store {
        AnticoneMeans(d, heights, scores, block);
      }
      r := CollectUnreached(block, hashes, d);
    }

    /** The size of the past plus one, from the cache or not; None for a block that is not stored. */
    method GetBlueScore(hash: BlockHash, dag: BlockDag) returns (r: Option<nat>)
      requires dag.Valid() && ScoresHold(dag.store)
      modifies this`blueScores
      ensures ScoresHold(dag.store)
      ensures blueScores.Keys == old(blueScores.Keys) + (if hash in dag.store then {hash} else {})
      ensures r == if hash in dag.store then Some(BlueScore(dag.store, hash)) else None
    {
      hide Dags.Valid;
      if hash in blueScores {
        return Some(blueScores[hash]);
      }
      var blue := dag.GetBlueSet(hash);
      if blue.None? {
        return None;
      }
      assert Layered(dag.store) by { StoreIsLayered(dag.rules, dag.View()); }
      BlueSetSize(dag.store, hash, blue.value);
      blueScores := blueScores[hash := |blue.value|];
      r := Some(|blue.value|);
    }

    /** The loop over the parents: the first one with the greatest blue score; all of them are cached. */
    method SelectBluest(ps: seq<BlockHash>, dag: BlockDag) returns (best: Option<BlockHash>, blueScore: nat)
      requires dag.Valid() && ScoresHold(dag.store) && forall p :: p in ps ==> p in dag.store
      modifies this`blueScores
      ensures ScoresHold(dag.store) && old(blueScores.Keys) <= blueScores.Keys
      ensures forall p :: p in ps ==> p in blueScores
      ensures ps != [] ==> best.Some? && IsBluest(dag.store, ps, best.value)
      ensures ps != [] ==> blueScore == BlueScore(dag.store, best.value)
    {
      hide Dags.Valid, BlueScore, CacheHolds;
      best, blueScore := None, 0;
      ghost var at := 0;
      for i := 0 to |ps|
        invariant ScoresHold(dag.store) && old(blueScores.Keys) <= blueScores.Keys
        invariant forall j :: 0 <= j < i ==> ps[j] in blueScores
        invariant i == 0 ==> best == None && blueScore == 0
        invariant i > 0 ==> at < i && best == Some(ps[at]) && blueScore == BlueScore(dag.store, ps[at])
        invariant i > 0 ==> forall j :: 0 <= j < at ==> BlueScore(dag.store, ps[j]) < blueScore
        invariant i > 0 ==> forall j :: at < j < i ==> BlueScore(dag.store, ps[j]) <= blueScore
      {
        var score := GetBlueScore(ps[i], dag);
        ScoreIsPositive(dag.store, ps[i]);
        if score.value > blueScore {
          best, blueScore, at := Some(ps[i]), score.value, i;
        }
      }
    }

    /** None for a block that is not stored. */
    method ComputeSingleVsp(block: BlockHash, dag: BlockDag) returns (r: Option<VirtualParent>)
      requires dag.Valid() && ScoresHold(dag.store)
      modifies this`blueScores
      ensures ScoresHold(dag.store) && old(blueScores.Keys) <= blueScores.Keys
      ensures r.Some? <==> block in dag.store
      ensures r.Some? ==> IsVirtualParent(dag.store, scores, block, r.value)
      ensures block in dag.store ==> forall p :: p in dag.store[block].header.parentHashes ==> p in blueScores
    {
      hide Dags.Valid, BlueScore, CacheHolds;
      if block !in dag.store {
        return None;
      }
      var ps := dag.store[block].header.parentHashes;
      if ps == [] {
        return Some(VirtualParent(block, 0, 0, 0));
      }
      assert Layered(dag.store) by { StoreIsLayered(dag.rules, dag.View()); }
      var best, blueScore := SelectBluest(ps, dag);
      var selected := best.value;
      var height := dag.GetBlockHeight(selected);
      r := Some(VirtualParent(selected, height.value, if selected in scores then scores[selected] else 0, blueScore));
    }

    /** One virtual parent per stored block; every parent's blue score is cached afterwards. */
    method ComputeVirtualSelectedParents(dag: BlockDag, hashes: seq<BlockHash>)
      requires dag.Valid() && ScoresHold(dag.store) && Lists(hashes, dag.store.Keys)
      modifies this`blueScores, this`virtualParents
      ensures ScoresHold(dag.store) && old(blueScores.Keys) <= blueScores.Keys
      ensures virtualParents.Keys == dag.store.Keys
      ensures forall h :: h in dag.store ==> IsVirtualParent(dag.store, scores, h, virtualParents[h])
      ensures forall h, p :: h in dag.store && p in dag.store[h].header.parentHashes ==> p in blueScores
    {
      hide Dags.Valid, CacheHolds, IsVirtualParent;
      var found: map<BlockHash, VirtualParent> := map[];
      for i := 0 to |hashes|
        invariant ScoresHold(dag.store) && old(blueScores.Keys) <= blueScores.Keys
        invariant forall h :: h in found <==> h in hashes[..i]
        invariant forall h :: h in found ==> h in dag.store && IsVirtualParent(dag.store, scores, h, found[h])
        invariant forall h, p :: h in found && p in dag.store[h].header.parentHashes ==> p in blueScores
      {
        assert hashes[i] in hashes;
        assert hashes[..i + 1] == hashes[..i] + [hashes[i]];
        var v := ComputeSingleVsp(hashes[i], dag);
        found := found[hashes[i] := v.value];
      }
      assert hashes[..|hashes|] == hashes;
      virtualParents := found;
    }

    method MaxScore() returns (head: nat)
      ensures forall h :: h in scores ==> scores[h] <= head
      ensures scores != map[] ==> exists h :: h in scores && scores[h] == head
      ensures scores == map[] ==> head == 0
    {
      head := 0;
      var rest := scores.Keys;
      while rest != {}
        invariant rest <= scores.Keys
        invariant forall h :: h in scores && h !in rest ==> scores[h] <= head
        invariant rest != scores.Keys ==> exists h :: h in scores && scores[h] == head
        invariant rest == scores.Keys ==> head == 0
        decreases rest
      {
        var h :| h in rest;
        rest := rest - {h};
        assert h !in rest;
        if scores[h] >= head {
          head := scores[h];
        }
      }
    }

    /** Marks every block up to the threshold, grouped by height. */
    method CalculateScoreBasedFinality()
      modifies this`finalized
      ensures forall h :: IsFinalized(h) <==>
                h in scores && exists head :: IsMaxScore(scores, head) && scores[h] <= Threshold(k, head)
      ensures GroupedByHeight(finalized, heights)
    {
      hide Threshold;
      var head := MaxScore();
      assert IsMaxScore(scores, head);
      var threshold := Threshold(k, head);
      var marked: map<nat, set<BlockHash>> := map[];
      var rest := scores.Keys;
      while rest != {}
        invariant rest <= scores.Keys
        invariant forall h :: Marked(marked, h) <==> h in scores && h !in rest && scores[h] <= threshold
        invariant GroupedByHeight(marked, heights)
        decreases rest
      {
        var h :| h in rest;
        ghost var before := marked;
        rest := rest - {h};
        if scores[h] <= threshold {
          var height := if h in heights then heights[h] else 0;
          marked := marked[height := (if height in marked then marked[height] else {}) + {h}];
          MarkedGrows(before, height, h);
        }
      }
      finalized := marked;
      forall h ensures IsFinalized(h) <==> h in scores && scores[h] <= threshold {
        assert Marked(marked, h) == IsFinalized(h);
      }
      MaxScoreIsUnique(scores, head);
    }

    ghost predicate IsFinalized(h: BlockHash)
      reads this`finalized
    {
      Marked(finalized, h)
    }

    /**
      A recomputation makes exactly the blocks of `FinalBlocks` final and finds every block's virtual parent;
      the blue-score cache it fills stays right.  An empty DAG is an error and changes nothing.
     */
    method ComputeFinality(dag: BlockDag, hashes: seq<BlockHash>) returns (ok: bool)
      requires Valid() && dag.Valid() && ScoresHold(dag.store) && Lists(hashes, dag.store.Keys)
      modifies this
      ensures Valid() && ScoresHold(dag.store) && ok == (dag.store != map[])
      ensures ok ==> Synced(dag.View(), heights, scores)
      ensures ok ==> forall h :: IsFinalized(h) <==> h in FinalBlocks(k, dag.View())
      ensures ok ==> GroupedByHeight(finalized, heights)
      ensures ok ==> forall h :: h in dag.store ==> Found(h)
      ensures ok ==> virtualParents.Keys == dag.store.Keys
      ensures ok ==> forall h :: h in dag.store ==> IsVirtualParent(dag.store, scores, h, virtualParents[h])
      ensures ok ==> forall h, p :: h in dag.store && p in dag.store[h].header.parentHashes ==> p in blueScores
      ensures !ok ==> finalized == old(finalized)
      ensures !ok ==> blueScores == old(blueScores) && virtualParents == old(virtualParents)
    {
      hide *;
      var ordering := dag.GetTopologicalOrder(hashes);
      OrderOfDag(dag, hashes);
      EmptyOrder(dag.store, ordering);
      if ordering == [] {
        return false;
      }
      BuildIntervalTree(ordering, dag);
      ComputeVirtualSelectedParents(dag, hashes);
      CalculateScoreBasedFinality();
      assert Synced(dag.View(), heights, scores) by { MakeSynced(dag, ordering, heights, scores); }
      assert scores.Keys == dag.store.Keys by { MeasuresKeys(dag.store, ordering, heights, scores); }
      ScoresMarkFinal(k, dag.store, ordering, heights, scores);
      FinalBlocksOf(k, dag);
      ok := true;
    }
  }

  /** The blue-score cache survives every insertion: unlike the GHOSTDAG engine's, it holds stored blocks only. */
  lemma ScoresHoldAsDagGrows(e: FinalityEngine, s: Store, s': Store)
    requires e.ScoresHold(s) && Layered(s) && Layered(s') && Grows(s, s')
    ensures e.ScoresHold(s')
  {
    hide Layered, CacheHolds;
    CacheKeptExactly(s, s', e.blueScores);
  }

  /** No parent has a larger past than the virtual one, and the block's own past is larger still. */
  lemma VirtualParentIsBluer(s: Store, scores: Table, h: BlockHash, v: VirtualParent, p: BlockHash)
    requires Layered(s) && h in s && IsVirtualParent(s, scores, h, v) && p in s[h].header.parentHashes
    ensures BlueScore(s, p) <= v.blueScore < BlueScore(s, h)
  {
    hide BlueScore;
    var ps := s[h].header.parentHashes;
    var i :| 0 <= i < |ps| && ps[i] == v.block && BluestAt(s, ps, i);
    var j :| 0 <= j < |ps| && ps[j] == p;
    ParentScoresLess(s, h, v.block);
  }

  lemma ParentScoresLess(s: Store, h: BlockHash, p: BlockHash)
    requires Layered(s) && h in s && p in s[h].header.parentHashes
    ensures BlueScore(s, p) < BlueScore(s, h)
  {
    ReachesByEdge(ParentGraph(s), h, p);
    PastExactly(s, h, p);
    PastIsTransitive(s, h, p);
    NotInOwnPast(s, p);
    SubsetIsSmaller(Past(s, p) + {p}, Past(s, h));
  }

  lemma OrderOfDag(dag: BlockDag, hashes: seq<BlockHash>)
    requires dag.Valid() && Lists(hashes, dag.store.Keys)
    ensures Order(ParentGraph(dag.store), dag.index.parentToChildren, hashes) == DagOrder(dag.View())
  {
    OrderIgnoresEnumeration(dag.rules, dag.View(), hashes);
  }

  lemma EmptyOrder(s: Store, order: seq<BlockHash>)
    requires Lists(order, s.Keys)
    ensures order == [] <==> s == map[]
  {
    if order != [] {
      assert order[0] in order;
    } else {
      assert forall h :: h !in s;
    }
  }

  lemma MakeSynced(dag: BlockDag, order: seq<BlockHash>, heights: Table, scores: Table)
    requires order == DagOrder(dag.View()) && Measures(dag.store, order, heights, scores)
    ensures Synced(dag.View(), heights, scores)
  {
    hide DagOrder;
  }

  lemma MeasuresKeys(s: Store, order: seq<BlockHash>, heights: Table, scores: Table)
    requires Measures(s, order, heights, scores)
    ensures scores.Keys == s.Keys
  {
  }

  lemma FinalBlocksOf(k: nat, dag: BlockDag)
    ensures FinalBlocks(k, dag.View()) == FinalIn(k, DagOrder(dag.View()))
  {
  }

  /** The tables and entries for the blocks of `order`. */
  ghost predicate Measured(s: Store, order: seq<BlockHash>, nodes: seq<Entry>, hs: Table, ss: Table) {
    && |nodes| == |order|
    && (forall h :: h in hs <==> h in order)
    && (forall h :: h in ss <==> h in order)
    && (forall h :: h in order ==> h in s && hs[h] == s[h].header.chainHeight)
    && (forall j :: 0 <= j < |order| ==> order[j] in hs && order[j] in ss && ss[order[j]] == j
                                         && nodes[j] == Entry(order[j], hs[order[j]], j))
  }

  lemma NothingMeasured(s: Store)
    ensures Measured(s, [], [], map[], map[])
  {
  }

  lemma ListedIsStored(s: Store, order: seq<BlockHash>, i: nat)
    requires Lists(order, s.Keys) && i < |order|
    ensures order[i] in s && order[i] !in order[..i]
  {
    assert order[i] in order;
  }

  lemma MeasureStep(s: Store, order: seq<BlockHash>, i: nat, nodes: seq<Entry>, hs: Table, ss: Table)
    requires i < |order| && order[i] in s && order[i] !in order[..i] && Measured(s, order[..i], nodes, hs, ss)
    ensures var height := s[order[i]].header.chainHeight;
            Measured(s, order[..i + 1], nodes + [Entry(order[i], height, i)], hs[order[i] := height], ss[order[i] := i])
  {
    assert order[..i + 1] == order[..i] + [order[i]];
    assert forall j :: 0 <= j < i ==> order[..i][j] == order[j];
  }

  lemma AllMeasured(s: Store, order: seq<BlockHash>, nodes: seq<Entry>, hs: Table, ss: Table)
    requires Lists(order, s.Keys) && Measured(s, order[..|order|], nodes, hs, ss)
    ensures Measures(s, order, hs, ss) && Holds(nodes, order, hs)
  {
    assert order[..|order|] == order;
    assert s.Keys == Elements(order);
    assert hs.Keys == Elements(order) && ss.Keys == Elements(order);
  }

  ghost predicate Marked(marked: map<nat, set<BlockHash>>, h: BlockHash) {
    exists height :: height in marked && h in marked[height]
  }

  /** Every marked block is marked under its own height. */
  ghost predicate GroupedByHeight(marked: map<nat, set<BlockHash>>, heights: Table) {
    forall n, h :: n in marked && h in marked[n] ==> n == if h in heights then heights[h] else 0
  }

  ghost predicate IsMaxScore(scores: Table, head: nat) {
    && (forall h :: h in scores ==> scores[h] <= head)
    && (scores != map[] ==> exists h :: h in scores && scores[h] == head)
    && (scores == map[] ==> head == 0)
  }

  /** The height that is stored with a block. */
  ghost function StoredHeight(d: Dag, h: BlockHash): nat {
    if h in d.store then d.store[h].header.chainHeight else 0
  }

  /** `a` stands before `b` in the exported order. */
  ghost predicate StandsBefore(d: Dag, a: BlockHash, b: BlockHash) {
    exists i, j :: 0 <= i < j < |DagOrder(d)| && DagOrder(d)[i] == a && DagOrder(d)[j] == b
  }

  /** Scores are places, so comparing scores is comparing places. */
  lemma ScoreOrder(d: Dag, heights: Table, scores: Table, a: BlockHash, b: BlockHash)
    requires Synced(d, heights, scores) && a in d.store && b in d.store
    ensures a in scores && b in scores && (scores[a] < scores[b] <==> StandsBefore(d, a, b))
    ensures scores[a] == scores[b] <==> a == b
  {
    hide DagOrder;
    var order := DagOrder(d);
    assert a in Elements(order) && b in Elements(order);
    var i :| 0 <= i < |order| && order[i] == a;
    var j :| 0 <= j < |order| && order[j] == b;
  }

  lemma ReachMeans(d: Dag, heights: Table, scores: Table, from: BlockHash, to: BlockHash)
    requires Synced(d, heights, scores)
    ensures from in d.store && to in d.store ==>
              ReachTest(heights, scores, from, to) ==
                Some(StoredHeight(d, from) <= StoredHeight(d, to) && (from == to || StandsBefore(d, from, to)))
    ensures from !in d.store || to !in d.store ==> ReachTest(heights, scores, from, to) == None
  {
    hide DagOrder, StandsBefore;
    if from in d.store && to in d.store {
      ScoreOrder(d, heights, scores, from, to);
    }
  }

  lemma AnticoneMeans(d: Dag, heights: Table, scores: Table, block: BlockHash)
    requires Synced(d, heights, scores) && block in d.store
    ensures block in heights && block in scores
    ensures forall x :: x in d.store ==> x in heights && x in scores
    ensures forall x :: x in d.store ==>
              (x != block && InAnticone(heights, scores, block, x) <==>
                 StoredHeight(d, x) >= StoredHeight(d, block) && StandsBefore(d, x, block))
  {
    hide DagOrder, StandsBefore;
    forall x | x in d.store
      ensures x != block && InAnticone(heights, scores, block, x) <==>
                StoredHeight(d, x) >= StoredHeight(d, block) && StandsBefore(d, x, block)
    {
      ScoreOrder(d, heights, scores, x, block);
      ReachMeans(d, heights, scores, block, x);
      ScoreOrder(d, heights, scores, block, x);
    }
  }

  ghost predicate InAnticone(heights: Table, scores: Table, block: BlockHash, x: BlockHash)
    requires block in heights
  {
    && (if x in heights then heights[x] else 0) >= heights[block]
    && ReachTest(heights, scores, block, x) == Some(false)
  }

  lemma MaxScoreIsUnique(scores: Table, head: nat)
    requires IsMaxScore(scores, head)
    ensures forall x :: IsMaxScore(scores, x) ==> x == head
  {
  }

  lemma MarkedGrows(marked: map<nat, set<BlockHash>>, height: nat, h: BlockHash)
    ensures var marked' := marked[height := (if height in marked then marked[height] else {}) + {h}];
            forall x :: Marked(marked', x) <==> Marked(marked, x) || x == h
  {
    var marked' := marked[height := (if height in marked then marked[height] else {}) + {h}];
    forall x
      ensures Marked(marked', x) <==> Marked(marked, x) || x == h
    {
      if x == h {
        assert x in marked'[height];
      } else if Marked(marked, x) {
        var n :| n in marked && x in marked[n];
        assert n in marked' && x in marked'[n];
      }
    }
  }

  lemma BlueSetSize(s: Store, h: BlockHash, blue: set<BlockHash>)
    requires Layered(s) && forall a :: a in blue <==> a == h || Reaches(ParentGraph(s), h, a)
    ensures |blue| == BlueScore(s, h)
  {
    NotInOwnPast(s, h);
    forall a ensures a in blue <==> a in Past(s, h) + {h} { PastExactly(s, h, a); }
    assert blue == Past(s, h) + {h};
  }

  lemma EmptyCachesHold(heights: Table, scores: Table)
    ensures CachesHold(heights, scores, map[])
  {
  }

  lemma EngineIsValid(e: FinalityEngine)
    requires CachesHold(e.heights, e.scores, e.reachCache)
    ensures e.Valid()
  {
  }

  lemma IsFound(e: FinalityEngine, h: BlockHash)
    requires h in e.heights && h in e.scores
    requires FindNode(e.tree, h) == Some(Entry(h, e.heights[h], e.scores[h]))
    ensures e.Found(h)
  {
  }

  lemma EntryIsFound(s: Store, t: Tree, order: seq<BlockHash>, heights: Table, scores: Table, h: BlockHash)
    requires TreeFits(t, order, heights) && Measures(s, order, heights, scores) && h in s
    ensures h in heights && h in scores && FindNode(t, h) == Some(Entry(h, heights[h], scores[h]))
  {
    hide Entries, FindNode, HeightsAscend;
    var nodes := EntriesFor(order, heights);
    FindNodeFinds(t, h);
    var i :| 0 <= i < |order| && order[i] == h;
    assert nodes[i] in multiset(nodes);
    assert nodes[i] in Entries(t);
    var e := FindNode(t, h).value;
    assert e in multiset(Entries(t));
    assert e in nodes;
  }

  /** With positions as scores, "score at most the threshold" means "in the final prefix". */
  lemma ScoresMarkFinal(k: nat, s: Store, order: seq<BlockHash>, heights: Table, scores: Table)
    requires order != [] && Lists(order, scores.Keys) && Measures(s, order, heights, scores)
    ensures forall h :: (h in scores && exists head :: IsMaxScore(scores, head) && scores[h] <= Threshold(k, head))
                   <==> h in FinalIn(k, order)
  {
    hide Threshold;
    assert order[|order| - 1] in order;
    assert IsMaxScore(scores, |order| - 1) by {
      forall h | h in scores
        ensures scores[h] <= |order| - 1
      {
        var i :| 0 <= i < |order| && order[i] == h;
      }
      assert order[|order| - 1] in scores && scores[order[|order| - 1]] == |order| - 1;
    }
    MaxScoreIsUnique(scores, |order| - 1);
    forall h
      ensures (h in scores && exists head :: IsMaxScore(scores, head) && scores[h] <= Threshold(k, head))
         <==> h in FinalIn(k, order)
    {
      if h in scores {
        var i :| 0 <= i < |order| && order[i] == h;
        NotFinalBeyond(k, order, i);
      }
    }
  }

  /** After a recomputation, an ancestor always passes the reachability test. */
  lemma {:induction false} AncestorCanReach(rules: Rules, d: Dag, heights: Table, scores: Table, a: BlockHash,
                                            b: BlockHash)
    requires Valid(rules, d) && Synced(d, heights, scores) && Reaches(ParentGraph(d.store), b, a)
    ensures ReachTest(heights, scores, a, b) == Some(true)
    ensures heights[a] < heights[b] && scores[a] < scores[b]
  {
    hide Valid, Topological, DagOrder, Lists, ParentGraph;
    var n: nat :| n > 0 && Walk(ParentGraph(d.store), b, a, n);
    DagOrderIsTopological(rules, d);
    ValidHasValidStore(rules, d);
    WalkStaysStored(d.store, b, a, n);
    hide ValidStore;
    WalkLowersHeight(rules, d.store, b, a, n);
    ScoresAscend(d.store, DagOrder(d), scores, a, b, n);
  }

  lemma WalkStaysStored(s: Store, b: BlockHash, a: BlockHash, n: nat)
    requires Layered(s) && n > 0 && Walk(ParentGraph(s), b, a, n)
    ensures b in s && a in s
  {
    StoreIsRanked(s);
    WalkDescends(ParentGraph(s), TopoRank(s), b, a, n);
  }

  lemma ScoresAscend(s: Store, order: seq<BlockHash>, scores: Table, a: BlockHash, b: BlockHash, n: nat)
    requires Lists(order, s.Keys) && Topological(ParentGraph(s), order) && b in s
    requires forall i :: 0 <= i < |order| ==> order[i] in scores && scores[order[i]] == i
    requires n > 0 && Walk(ParentGraph(s), b, a, n)
    ensures a in scores && b in scores && scores[a] < scores[b]
  {
    hide Topological;
    var i :| 0 <= i < |order| && order[i] == b;
    AncestorsComeFirst(ParentGraph(s), order, i, a, n);
    var j :| 0 <= j < i && order[..i][j] == a;
    assert order[j] == a;
  }

  /** No member of a block's anticone is its ancestor or its descendant. */
  lemma {:induction false} AnticoneIsUnrelated(rules: Rules, d: Dag, heights: Table, scores: Table, b: BlockHash,
                                               x: BlockHash)
    requires Valid(rules, d) && Synced(d, heights, scores) && b in heights && InAnticone(heights, scores, b, x)
    ensures !Reaches(ParentGraph(d.store), b, x)
    ensures !Reaches(ParentGraph(d.store), x, b)
  {
    hide Valid;
    if Reaches(ParentGraph(d.store), b, x) {
      AncestorCanReach(rules, d, heights, scores, x, b);
    }
    if Reaches(ParentGraph(d.store), x, b) {
      AncestorCanReach(rules, d, heights, scores, b, x);
    }
  }

  /** Finality after a recomputation is closed under ancestors, in every state of the DAG. */
  lemma {:induction false} FinalBlocksAreAncestorClosed(rules: Rules, d: Dag, k: nat, h: BlockHash, a: BlockHash)
    requires Valid(rules, d) && h in FinalBlocks(k, d) && Reaches(ParentGraph(d.store), h, a)
    ensures a in FinalBlocks(k, d)
  {
    DagOrderIsTopological(rules, d);
    FinalIsAncestorClosed(k, ParentGraph(d.store), DagOrder(d), h, a);
  }
}
