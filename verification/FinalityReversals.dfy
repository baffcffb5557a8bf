/**
  Finality can be taken back.  Whatever the hash function, the reward schedule and k, there is a
  run of blocks, each on all tips, after which one block on genesis alone is accepted and makes
  a final block lose its finality.
 */
module FinalityReversals {
  import opened Collections
  import opened Graphs
  import opened Blocks
  import opened Dags
  import opened Heights
  import opened Kahn
  import opened KahnGrowth
  import opened DagOrders
  import opened Finality
  import opened SampleRuns

  /** The order begins with genesis. */
  lemma GenesisIsFirst(rules: Rules, d: Dag)
    requires Valid(rules, d) && d.store != map[]
    ensures DagOrder(d) != [] && IsGenesis(d.store, DagOrder(d)[0])
  {
    hide Valid, DagOrder;
    DagOrderIsTopological(rules, d);
    var order := DagOrder(d);
    assert order != [];
    assert order[0] in d.store;
    FirstHasNoParents(ParentGraph(d.store), order);
  }

  lemma FirstHasNoParents(g: Graph, order: seq<BlockHash>)
    requires Topological(g, order) && order != []
    ensures Adj(g, order[0]) == []
  {
    var none, ps := order[..0], Adj(g, order[0]);
    assert forall p :: p in ps ==> p in none;
    SomeMember(ps);
  }

  lemma CoverOfFirst(order: seq<BlockHash>)
    requires order != [] && NoRepeats(order)
    ensures Elements(order[..Cover(order, [order[0]])]) == {order[0]}
  {
    hide Cover;
    assert order[..1] == [order[0]];
    CoverIsLastNeeded(order, [order[0]], 1);
  }

  /** The place of a block over genesis alone: behind what genesis enables. */
  lemma ForkPlace(rules: Rules, d: Dag, b: Block)
    requires Valid(rules, d) && DagOrder(d) != [] && b.header.parentHashes == [DagOrder(d)[0]]
    ensures Place(d, b) == |Enabled(ParentGraph(d.store), {DagOrder(d)[0]})|
  {
    hide Valid, DagOrder, Cover, Elements;
    DagOrderIsTopological(rules, d);
    CoverOfFirst(DagOrder(d));
  }

  /** A new block is enabled by genesis only if genesis is its only parent. */
  lemma EnabledGrows(s: Store, s': Store, x: BlockHash, ps: seq<BlockHash>, g: BlockHash)
    requires x in s' && s'.Keys == s.Keys + {x} && s'[x].header.parentHashes == ps
    requires forall h :: h in s ==> s'[h] == s[h]
    ensures Enabled(ParentGraph(s'), {g}) <=
              Enabled(ParentGraph(s), {g}) + (if forall p :: p in ps ==> p == g then {x} else {})
  {
  }

  /** On a run of blocks each on all tips, genesis enables itself and its one child. */
  lemma {:induction false} GenesisEnablesTwo(rules: Rules, n: nat, g: BlockHash)
    requires CollisionFree(rules) && n > 0 && IsGenesis(TipsDag(rules, n).store, g)
    ensures |Enabled(ParentGraph(TipsDag(rules, n).store), {g})| <= if n == 1 then 1 else 2
  {
    hide Valid, Insert, PlainBlock, Listing, TipsDag, ParentGraph, Enabled;
    var d, d' := TipsDag(rules, n - 1), TipsDag(rules, n);
    var x, ps, tip := TipsDagGrows(rules, n);
    EnabledGrows(d.store, d'.store, x, ps, g);
    var early, early' := Enabled(ParentGraph(d.store), {g}), Enabled(ParentGraph(d'.store), {g});
    if n == 1 {
      NoBlocksYet(rules);
      NothingEnabled(g);
      SubsetIsSmaller(early', {x});
    } else {
      GenesisEnablesTwo(rules, n - 1, g);
      if n == 2 {
        SubsetIsSmaller(early', early + {x});
      } else {
        assert tip in ps && tip != g;
        SubsetIsSmaller(early', early);
      }
    }
  }

  lemma NothingEnabled(g: BlockHash)
    ensures Enabled(ParentGraph(EMPTY_DAG.store), {g}) == {}
  {
  }

  /** With 10(k + 1) blocks the threshold stands at 8k + 9, and one more block does not move it. */
  lemma ThresholdStands(k: nat, n: nat)
    requires n == 10 * (k + 1)
    ensures Threshold(k, n - 1) == Threshold(k, n) == 8 * k + 9
  {
  }

  /** `b` is accepted, and `h`, final before, is not final afterwards. */
  ghost predicate TakesBack(rules: Rules, d: Dag, k: nat, b: Block, h: BlockHash) {
    && Insert(rules, 0, d, b).Ok?
    && h in FinalBlocks(k, d)
    && h !in FinalBlocks(k, Insert(rules, 0, d, b).dag)
  }

  /**
    For every k: after 10(k + 1) blocks that were each built on all tips, a block on genesis alone takes
    finality back.
   */
  lemma FinalityCanBeTakenBack(rules: Rules, k: nat, n: nat)
    requires CollisionFree(rules) && n == 10 * (k + 1)
    ensures exists b: Block, h: BlockHash :: TakesBack(rules, Run(rules, TipsLog(rules, n)), k, b, h)
  {
    hide Valid, Insert, PlainBlock, FinalBlocks, Place, Threshold, DagOrder, TipsLog, Run, Enabled, IsGenesis;
    hide ParentGraph;
    var d := TipsDag(rules, n);
    var tip := TipsDagHasSingleTip(rules, n);
    GenesisIsFirst(rules, d);
    var g := DagOrder(d)[0];
    GenesisIsStored(d.store, g);
    var b := PlainBlock(rules, d, [g], 0);
    PlainBlockIsAccepted(rules, d, [g], 0);
    PlainParents(rules, d, [g], 0);
    ForkPlace(rules, d, b);
    GenesisEnablesTwo(rules, n, g);
    ThresholdStands(k, n);
    FinalityKeptExactly(rules, 0, d, b, k);
    var h :| h in FinalBlocks(k, d) && h !in FinalBlocks(k, Insert(rules, 0, d, b).dag);
    assert TakesBack(rules, d, k, b, h);
  }

  lemma GenesisIsStored(s: Store, g: BlockHash)
    requires IsGenesis(s, g)
    ensures g in s
  {
  }
}
