/**
  Which blocks are final (src/finality/finality_engine.rs): those whose place in the
  exported order is at or below a threshold that trails the head.
 */
module Finality {
  import opened Collections
  import opened Graphs
  import opened Blocks
  import opened Dags
  import opened Kahn
  import opened KahnGrowth
  import opened DagOrders

  /** The 10% safety margin. */
  function SafetyMargin(head: nat): nat {
    head / 10
  }

  function Threshold(k: nat, head: nat): nat {
    var reached := if head < k then 0 else head - k;
    if reached < SafetyMargin(head) then 0 else reached - SafetyMargin(head)
  }

  /** The blocks of `order` at places 0, ..., Threshold. */
  ghost function FinalIn(k: nat, order: seq<BlockHash>): set<BlockHash> {
    set i | 0 <= i < |order| && i <= Threshold(k, |order| - 1) :: order[i]
  }

  ghost function FinalBlocks(k: nat, d: Dag): set<BlockHash> {
    FinalIn(k, DagOrder(d))
  }

  /** One more block moves the threshold up by one or not at all. */
  lemma ThresholdStep(k: nat, head: nat)
    ensures Threshold(k, head) <= Threshold(k, head + 1) <= Threshold(k, head) + 1
    ensures Threshold(k, head) <= head
    ensures Threshold(k, head + 1) == Threshold(k, head) + 1
       <==> k <= head && head + 1 > k + (head + 1) / 10 && (head + 1) % 10 != 0
  {
  }

  /** Final blocks are closed under ancestors, in every DAG. */
  lemma {:induction false} FinalIsAncestorClosed(k: nat, g: Graph, order: seq<BlockHash>, h: BlockHash, a: BlockHash)
    requires Topological(g, order) && h in FinalIn(k, order) && Reaches(g, h, a)
    ensures a in FinalIn(k, order)
  {
    var i :| 0 <= i < |order| && i <= Threshold(k, |order| - 1) && order[i] == h;
    var n: nat :| n > 0 && Walk(g, h, a, n);
    AncestorsComeFirst(g, order, i, a, n);
    var j :| 0 <= j < i && order[..i][j] == a;
    assert order[j] == a;
  }

  lemma NotFinalBeyond(k: nat, order: seq<BlockHash>, i: nat)
    requires NoRepeats(order) && i < |order|
    ensures order[i] in FinalIn(k, order) <==> i <= Threshold(k, |order| - 1)
  {
  }

  lemma InsertAtIndex(order: seq<BlockHash>, p: nat, x: BlockHash, i: nat)
    requires p <= |order| && i < |order|
    ensures InsertAt(order, p, x)[if i < p then i else i + 1] == order[i]
  {
  }

  /**
    Putting a block in at place `p` keeps every final block final exactly when it lands
    above the threshold or the threshold moves up with it.
   */
  lemma {:induction false} InsertKeepsFinalExactly(k: nat, order: seq<BlockHash>, p: nat, x: BlockHash)
    requires order != [] && p <= |order| && NoRepeats(InsertAt(order, p, x))
    ensures FinalIn(k, order) <= FinalIn(k, InsertAt(order, p, x))
       <==> p > Threshold(k, |order| - 1) || Threshold(k, |order|) > Threshold(k, |order| - 1)
  {
    hide Threshold;
    var order', t, t' := InsertAt(order, p, x), Threshold(k, |order| - 1), Threshold(k, |order|);
    ThresholdStep(k, |order| - 1);
    if p > t || t' > t {
      forall h | h in FinalIn(k, order)
        ensures h in FinalIn(k, order')
      {
        var i :| 0 <= i < |order| && i <= t && order[i] == h;
        InsertAtIndex(order, p, x, i);
        NotFinalBeyond(k, order', if i < p then i else i + 1);
      }
    } else {
      assert order[t] in FinalIn(k, order);
      InsertAtIndex(order, p, x, t);
      NotFinalBeyond(k, order', t + 1);
    }
  }

  /**
    Whether an insertion can take finality back is decided before it is made: every final
    block stays final if and only if the new block's place is above the threshold or the
    threshold moves.
   */
  lemma {:induction false} FinalityKeptExactly(rules: Rules, now: nat, d: Dag, b: Block, k: nat)
    requires CollisionFree(rules) && Valid(rules, d) && d.store != map[] && Insert(rules, now, d, b).Ok?
    ensures FinalBlocks(k, d) <= FinalBlocks(k, Insert(rules, now, d, b).dag)
       <==> Place(d, b) > Threshold(k, |d.store| - 1) || Threshold(k, |d.store|) > Threshold(k, |d.store| - 1)
  {
    hide Valid, Insert, Annotate, DagOrder, Place, Threshold, FinalIn, InsertAt, Topological;
    var d' := Insert(rules, now, d, b).dag;
    DagOrderIsTopological(rules, d);
    InsertKeepsValid(rules, now, d, b);
    DagOrderIsTopological(rules, d');
    InsertGrowsOrder(rules, now, d, b);
    InsertKeepsFinalExactly(k, DagOrder(d), Place(d, b), Annotate(rules, d.store, b).hash);
  }

  // ---- runs of blocks built on all tips ---------------------------------------------

  /** Every accepted block of `log` takes all tips of its moment as parents, as the block producer does. */
  ghost predicate BuildsOnTips(rules: Rules, d: Dag, log: seq<Submission>) {
    forall i :: 0 <= i < |log| ==>
      var before := RunFrom(rules, d, log[..i]);
      Insert(rules, log[i].now, before, log[i].block).Ok? ==>
        forall t :: t in before.tips ==> t in log[i].block.header.parentHashes
  }

  lemma BuildsOnTipsPrefix(rules: Rules, d: Dag, log: seq<Submission>)
    requires BuildsOnTips(rules, d, log) && log != []
    ensures BuildsOnTips(rules, d, log[..|log| - 1])
  {
    var init := log[..|log| - 1];
    forall i | 0 <= i < |init| && Insert(rules, init[i].now, RunFrom(rules, d, init[..i]), init[i].block).Ok?
      ensures forall t :: t in RunFrom(rules, d, init[..i]).tips ==> t in init[i].block.header.parentHashes
    {
      assert init[..i] == log[..i] && init[i] == log[i];
    }
  }

  /** Such a block leaves order, threshold and final blocks as they were, or extends them. */
  lemma {:induction false} TipStepExtends(rules: Rules, d: Dag, x: Submission, k: nat)
    requires CollisionFree(rules) && Valid(rules, d) && d.store != map[]
    requires Insert(rules, x.now, d, x.block).Ok? ==> forall t :: t in d.tips ==> t in x.block.header.parentHashes
    ensures DagOrder(d) <= DagOrder(Submit(rules, d, x))
    ensures |d.store| <= |Submit(rules, d, x).store|
    ensures Threshold(k, |d.store| - 1) <= Threshold(k, |Submit(rules, d, x).store| - 1)
    ensures FinalBlocks(k, d) <= FinalBlocks(k, Submit(rules, d, x))
  {
    hide Valid, Insert, Annotate, DagOrder, Place, Threshold, FinalIn;
    if Insert(rules, x.now, d, x.block).Ok? {
      InsertOnAllTipsAppends(rules, x.now, d, x.block);
      InsertKeepsValid(rules, x.now, d, x.block);
      ThresholdStep(k, |d.store| - 1);
      DagOrderIsTopological(rules, d);
      FinalityKeptExactly(rules, x.now, d, x.block, k);
    }
  }

  /**
    On every run of blocks built on all tips, from any non-empty DAG: the order only grows
    at its end, the threshold never falls, and no final block is ever taken back.
   */
  lemma {:induction false} FinalityIsPermanent(rules: Rules, d: Dag, log: seq<Submission>, k: nat)
    requires CollisionFree(rules) && Valid(rules, d) && d.store != map[] && BuildsOnTips(rules, d, log)
    ensures DagOrder(d) <= DagOrder(RunFrom(rules, d, log))
    ensures |d.store| <= |RunFrom(rules, d, log).store|
    ensures Threshold(k, |d.store| - 1) <= Threshold(k, |RunFrom(rules, d, log).store| - 1)
    ensures FinalBlocks(k, d) <= FinalBlocks(k, RunFrom(rules, d, log))
  {
    hide Valid, Insert, Submit, DagOrder, Threshold, FinalIn;
    if log != [] {
      var init, last := log[..|log| - 1], log[|log| - 1];
      BuildsOnTipsPrefix(rules, d, log);
      FinalityIsPermanent(rules, d, init, k);
      RunFromKeepsValid(rules, d, init);
      TipStepExtends(rules, RunFrom(rules, d, init), last, k);
    }
  }
}
