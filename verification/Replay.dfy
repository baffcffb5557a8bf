/**
  Replaying a DAG: submitting its stored blocks, in order of `topoIndex`, to an empty
  DAG.  Stored blocks carry metadata already and lie under a re-computed hash, so this
  is a round trip through the annotation.
 */
module Replay {
  import opened Blocks
  import opened Dags

  /** The blocks that a run stores, in the order in which it stores them. */
  function StoredBlocks(rules: Rules, log: seq<Submission>): seq<Block> {
    if log == [] then []
    else
      var init, last := log[..|log| - 1], log[|log| - 1];
      var d := Run(rules, init);
      StoredBlocks(rules, init) +
      (if Insert(rules, last.now, d, last.block).Ok? then [Annotate(rules, d.store, last.block)] else [])
  }

  function ReplayLog(blocks: seq<Block>, now: nat): seq<Submission> {
    seq(|blocks|, i requires 0 <= i < |blocks| => Submission(blocks[i], now))
  }

  /** `blocks` is the store listed by increasing `topoIndex`. */
  ghost predicate ByTopoIndex(s: Store, blocks: seq<Block>) {
    && |blocks| == |s|
    && forall i :: 0 <= i < |blocks| ==>
         blocks[i].header.topoIndex == i && blocks[i].hash in s && s[blocks[i].hash] == blocks[i]
  }

  lemma {:induction false} StoredBlocksAreTheStore(rules: Rules, log: seq<Submission>)
    requires CollisionFree(rules)
    ensures ByTopoIndex(Run(rules, log).store, StoredBlocks(rules, log))
  {
    hide Valid, Annotate, Admit, AddChild;
    if log != [] {
      var init, last := log[..|log| - 1], log[|log| - 1];
      StoredBlocksAreTheStore(rules, init);
      var d := Run(rules, init);
      RunIsValid(rules, init);
      if Insert(rules, last.now, d, last.block).Ok? {
        InsertKeepsValid(rules, last.now, d, last.block);
        AnnotateKeepsParents(rules, d.store, last.block);
      }
    }
  }

  /** There is only one way to list a store by `topoIndex`. */
  lemma ByTopoIndexIsUnique(s: Store, a: seq<Block>, b: seq<Block>)
    requires Numbered(s) && ByTopoIndex(s, a) && ByTopoIndex(s, b)
    ensures a == b
  {
    forall i | 0 <= i < |a|
      ensures a[i] == b[i]
    {
      assert s[a[i].hash].header.topoIndex == s[b[i].hash].header.topoIndex;
    }
  }

  /** Annotating an annotated block against the same store changes nothing. */
  lemma AnnotateTwice(rules: Rules, s: Store, b: Block)
    ensures Annotate(rules, s, Annotate(rules, s, b)) == Annotate(rules, s, b)
  {
    hide BestParent, MaxBlueScore;
  }

  /**
    Re-submitting a stored block to the DAG it was added to has the original effect, if it still passes the
    basic checks.
   */
  lemma ResubmitHasSameEffect(rules: Rules, now: nat, now': nat, d: Dag, b: Block)
    requires CollisionFree(rules) && Valid(rules, d) && Insert(rules, now, d, b).Ok?
    ensures var b' := Annotate(rules, d.store, b);
            Insert(rules, now', d, b') ==
              match ValidateBasic(rules, now', b')
              case Pass => Insert(rules, now, d, b)
              case Fail(e) => Err(e)
  {
    hide Valid, Annotate, ValidateBasic, IndexInsert;
    var b' := Annotate(rules, d.store, b);
    AnnotateTwice(rules, d.store, b);
    AnnotateKeepsParents(rules, d.store, b);
    InsertKeepsValid(rules, now, d, b);
  }

  lemma {:induction false} RunGrowsByAtMostOne(rules: Rules, d: Dag, log: seq<Submission>)
    ensures |RunFrom(rules, d, log).store| <= |d.store| + |log|
  {
    if log != [] {
      RunGrowsByAtMostOne(rules, d, log[..|log| - 1]);
    }
  }

  ghost predicate AllPass(rules: Rules, now: nat, blocks: seq<Block>) {
    forall i :: 0 <= i < |blocks| ==> ValidateBasic(rules, now, blocks[i]).Pass?
  }

  lemma ReplayLogSnoc(blocks: seq<Block>, b: Block, now: nat)
    ensures ReplayLog(blocks + [b], now) == ReplayLog(blocks, now) + [Submission(b, now)]
  {
  }

  lemma RunSnoc(rules: Rules, log: seq<Submission>, x: Submission)
    ensures Run(rules, log + [x]) == Submit(rules, Run(rules, log), x)
  {
    assert (log + [x])[..|log|] == log;
  }

  lemma {:induction false} ReplayWhenAllPass(rules: Rules, log: seq<Submission>, now: nat)
    requires CollisionFree(rules) && AllPass(rules, now, StoredBlocks(rules, log))
    ensures Run(rules, ReplayLog(StoredBlocks(rules, log), now)) == Run(rules, log)
  {
    hide Valid, Insert, Annotate, ValidateBasic;
    if log == [] {
      assert ReplayLog(StoredBlocks(rules, log), now) == [];
    } else {
      var init, last := log[..|log| - 1], log[|log| - 1];
      var d, blocks := Run(rules, init), StoredBlocks(rules, init);
      if Insert(rules, last.now, d, last.block).Ok? {
        var b' := Annotate(rules, d.store, last.block);
        assert StoredBlocks(rules, log) == blocks + [b'];
        assert StoredBlocks(rules, log)[|blocks|] == b';
        assert forall i :: 0 <= i < |blocks| ==> StoredBlocks(rules, log)[i] == blocks[i];
        ReplayWhenAllPass(rules, init, now);
        RunIsValid(rules, init);
        ResubmitHasSameEffect(rules, last.now, now, d, last.block);
        ReplayLogSnoc(blocks, b', now);
        RunSnoc(rules, ReplayLog(blocks, now), Submission(b', now));
      } else {
        assert StoredBlocks(rules, log) == blocks;
        ReplayWhenAllPass(rules, init, now);
      }
    }
  }

  /** A rejected block is missing for good: the replayed store stays smaller. */
  lemma {:induction false} RejectionShrinks(rules: Rules, log: seq<Submission>, i: nat)
    requires i < |log| && ValidateBasic(rules, log[i].now, log[i].block).Fail?
    ensures |Run(rules, log).store| < |log|
  {
    hide ValidateBasic, Annotate;
    var init := log[..|log| - 1];
    if i == |log| - 1 {
      RunGrowsByAtMostOne(rules, EMPTY_DAG, init);
    } else {
      RejectionShrinks(rules, init, i);
    }
  }

  /**
    Replay reproduces the whole DAG - hashes, metadata, tips and child lists - exactly when
    every stored block still passes the basic checks.
   */
  lemma {:induction false} ReplayRoundTrip(rules: Rules, log: seq<Submission>, now: nat)
    requires CollisionFree(rules)
    ensures Run(rules, ReplayLog(StoredBlocks(rules, log), now)) == Run(rules, log)
       <==> AllPass(rules, now, StoredBlocks(rules, log))
  {
    var blocks := StoredBlocks(rules, log);
    if AllPass(rules, now, blocks) {
      ReplayWhenAllPass(rules, log, now);
    } else {
      var i :| 0 <= i < |blocks| && ValidateBasic(rules, now, blocks[i]).Fail?;
      StoredBlocksAreTheStore(rules, log);
      RejectionShrinks(rules, ReplayLog(blocks, now), i);
    }
  }
}
