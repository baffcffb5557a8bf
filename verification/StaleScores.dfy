/**
  A cached blue score can go stale: a run on which it does.
 */
module StaleScores {
  import opened Collections
  import opened Graphs
  import opened Blocks
  import opened Dags
  import opened DagOrders
  import opened Pasts
  import opened BlockDags
  import opened GhostdagEngines
  import opened SampleRuns
  import opened Snapshots

  /** `b` is accepted, and scoring `x` before that leaves a stale score. */
  ghost predicate GoesStale(rules: Rules, d: Dag, b: Block, x: BlockHash) {
    Insert(rules, 0, d, b).Ok? && StaleAfter(d.store, Insert(rules, 0, d, b).dag.store, x)
  }

  /** After any number of blocks, each on all tips, the next one on all tips can be scored too early. */
  lemma EarlyScoreGoesStale(rules: Rules, n: nat)
    requires CollisionFree(rules) && n > 0
    ensures exists b: Block, x: BlockHash :: GoesStale(rules, Run(rules, TipsLog(rules, n)), b, x)
  {
    hide Valid, Insert, PlainBlock, Annotate, StaleAfter, Listing, TipsLog, Run;
    var d := TipsDag(rules, n);
    var tip := TipsDagHasSingleTip(rules, n);
    var b := PlainBlock(rules, d, [tip], 0);
    PlainBlockIsAccepted(rules, d, [tip], 0);
    PlainParents(rules, d, [tip], 0);
    ScoredTooEarly(rules, 0, d, b);
    assert GoesStale(rules, d, b, Annotate(rules, d.store, b).hash);
  }

  /**
    A client of the engine: it scores the hash of the next block, inserts the block, and scores again.  The
    second answer is the cached 1, although the block's past has a parent in it by then.
   */
  method ScoreInsertScore(engine: GhostdagEngine, dag: BlockDag, b: Block, now: nat)
    returns (x: BlockHash, before: Option<nat>, after: Option<nat>)
    requires engine.Valid() && engine.live == dag
    requires Insert(dag.rules, now, dag.View(), b).Ok? && b.header.parentHashes != []
    modifies engine`cache, dag, dag.index
    ensures engine.Valid() && dag.View() == Insert(dag.rules, now, old(dag.View()), b).dag
    ensures x in dag.store && before == after == Some(1) && BlueScore(dag.store, x) > 1
  {
    hide Dags.Valid, Insert, Annotate, BlueScore, Grows, CacheHolds, ScoredBetween;
    ghost var d := dag.View();
    x := Annotate(dag.rules, dag.store, b).hash;
    ScoredTooEarly(dag.rules, now, d, b);
    StaleScores(d.store, Insert(dag.rules, now, d, b).dag.store, x);
    before := engine.CalculateBlueScore(x);
    label Scored:
    var r := dag.InsertBlock(b, now);
    InsertGrows(dag.rules, now, d, b);
    EngineSurvivesGrowth@Scored(engine);
    after := engine.CalculateBlueScore(x);
  }

  lemma StaleScores(s: Store, s': Store, x: BlockHash)
    requires StaleAfter(s, s', x)
    ensures x !in s && x in s' && BlueScore(s, x) == 1 < BlueScore(s', x)
  {
    assert x in map[x := 1];
  }
}
