/**
  The GHOSTDAG order as a function of the block set: rounds of blocks whose parents are
  all placed, each round by descending blue score and then ascending hash.
 */
module GhostOrders {
  import opened Collections
  import opened Graphs
  import opened Dags
  import opened Pasts
  import opened Kahn

  type Scores = map<BlockHash, nat>

  ghost function ScoreMap(s: Store): Scores {
    map h | h in s :: BlueScore(s, h)
  }

  function ScoreOf(score: Scores, h: BlockHash): nat {
    if h in score then score[h] else 0
  }

  /** Higher score first; equal scores by hash. */
  predicate Before(score: Scores, a: BlockHash, b: BlockHash) {
    ScoreOf(score, a) > ScoreOf(score, b) || (ScoreOf(score, a) == ScoreOf(score, b) && a < b)
  }

  ghost predicate Ascending(score: Scores, xs: seq<BlockHash>) {
    forall i, j :: 0 <= i < j < |xs| ==> Before(score, xs[i], xs[j])
  }

  ghost predicate IsFirst(score: Scores, S: set<BlockHash>, m: BlockHash) {
    m in S && forall x :: x in S && x != m ==> Before(score, m, x)
  }

  lemma {:induction false} FirstExists(score: Scores, S: set<BlockHash>)
    requires S != {}
    ensures exists m :: IsFirst(score, S, m)
    decreases S
  {
    var x :| x in S;
    if S == {x} {
      assert IsFirst(score, S, x);
    } else {
      FirstExists(score, S - {x});
      var m :| IsFirst(score, S - {x}, m);
      if Before(score, m, x) {
        assert IsFirst(score, S, m);
      } else {
        forall y | y in S && y != x
          ensures Before(score, x, y)
        {
          assert y == m || Before(score, m, y);
        }
        assert IsFirst(score, S, x);
      }
    }
  }

  /** The members of `S` in order. */
  ghost function Arranged(score: Scores, S: set<BlockHash>): seq<BlockHash>
    decreases S
  {
    if S == {} then []
    else
      FirstExists(score, S);
      var m :| IsFirst(score, S, m);
      [m] + Arranged(score, S - {m})
  }

  /** An ascending list is the arrangement of its members; in particular there is only one. */
  lemma {:induction false} AscendingIsArranged(score: Scores, xs: seq<BlockHash>)
    requires Ascending(score, xs)
    ensures xs == Arranged(score, Elements(xs))
  {
    if xs != [] {
      var S := Elements(xs);
      assert IsFirst(score, S, xs[0]);
      FirstExists(score, S);
      assert xs[0] in S;
      assert xs == [xs[0]] + xs[1..];
      assert Elements(xs[1..]) == S - {xs[0]};
      AscendingIsArranged(score, xs[1..]);
      assert forall m :: IsFirst(score, S, m) ==> m == xs[0];
    }
  }

  lemma {:induction false} ArrangedLists(score: Scores, S: set<BlockHash>)
    ensures Lists(Arranged(score, S), S)
    decreases S
  {
    if S != {} {
      FirstExists(score, S);
      var m := Arranged(score, S)[0];
      assert IsFirst(score, S, m);
      ArrangedLists(score, S - {m});
      assert Arranged(score, S) == [m] + Arranged(score, S - {m});
    }
  }

  lemma {:induction false} ArrangedAscends(score: Scores, S: set<BlockHash>)
    ensures Ascending(score, Arranged(score, S))
    decreases S
  {
    if S != {} {
      FirstExists(score, S);
      var m := Arranged(score, S)[0];
      assert IsFirst(score, S, m);
      ArrangedAscends(score, S - {m});
      ArrangedLists(score, S - {m});
      assert Arranged(score, S) == [m] + Arranged(score, S - {m});
    }
  }

  /** Unplaced blocks whose parents are all placed. */
  ghost function Ready(s: Store, done: set<BlockHash>): set<BlockHash> {
    set h | h in s && h !in done && forall p :: p in s[h].header.parentHashes ==> p in done
  }

  ghost function Rounds(s: Store, done: set<BlockHash>): seq<BlockHash>
    decreases s.Keys - done
  {
    if Ready(s, done) == {} then []
    else
      ReadyShrinks(s, done);
      Arranged(ScoreMap(s), Ready(s, done)) + Rounds(s, done + Ready(s, done))
  }

  ghost function GhostOrder(s: Store): seq<BlockHash> {
    Rounds(s, {})
  }

  lemma ReadyShrinks(s: Store, done: set<BlockHash>)
    requires Ready(s, done) != {}
    ensures s.Keys - (done + Ready(s, done)) < s.Keys - done
  {
    var h :| h in Ready(s, done);
    assert h in s.Keys - done && h !in s.Keys - (done + Ready(s, done));
  }

  /** The "should not happen" exit is never taken: an unplaced block of least `topoIndex` is ready. */
  lemma {:induction false} SomethingIsReady(s: Store, done: set<BlockHash>, h: BlockHash)
    requires Layered(s) && h in s && h !in done
    ensures Ready(s, done) != {}
    decreases s[h].header.topoIndex
  {
    if h !in Ready(s, done) {
      var p :| p in s[h].header.parentHashes && p !in done;
      SomethingIsReady(s, done, p);
    }
  }

  ghost predicate PlacedSoFar(s: Store, placed: seq<BlockHash>) {
    && NoRepeats(placed)
    && (forall h :: h in placed ==> h in s)
    && Topological(ParentGraph(s), placed)
  }

  lemma {:induction false} RoundKeepsTopological(s: Store, placed: seq<BlockHash>, round: seq<BlockHash>)
    requires PlacedSoFar(s, placed)
    requires NoRepeats(round) && forall h :: h in round ==> h in Ready(s, Elements(placed))
    ensures PlacedSoFar(s, placed + round)
  {
    if round == [] {
      assert placed + round == placed;
    } else {
      var init, x := round[..|round| - 1], round[|round| - 1];
      RoundKeepsTopological(s, placed, init);
      assert x in round;
      assert forall p :: p in Adj(ParentGraph(s), x) ==> p in placed + init;
      TopologicalSnoc(ParentGraph(s), placed + init, x);
      assert placed + round == (placed + init) + [x];
      assert x !in init && x !in placed;
      NoRepeatsConcat(placed + init, [x]);
    }
  }

  lemma AllPlaced(s: Store, placed: seq<BlockHash>)
    requires Layered(s) && PlacedSoFar(s, placed) && Ready(s, Elements(placed)) == {}
    ensures Elements(placed) == s.Keys
  {
    hide Ready;
    forall h | h in s
      ensures h in placed
    {
      if h !in placed {
        SomethingIsReady(s, Elements(placed), h);
      }
    }
  }

  lemma PlaceRound(s: Store, placed: seq<BlockHash>, round: seq<BlockHash>)
    requires PlacedSoFar(s, placed) && Lists(round, Ready(s, Elements(placed)))
    ensures PlacedSoFar(s, placed + round)
    ensures Elements(placed + round) == Elements(placed) + Ready(s, Elements(placed))
  {
    ListsHasNoRepeats(round, Ready(s, Elements(placed)));
    RoundKeepsTopological(s, placed, round);
  }

  lemma {:induction false} RoundsComplete(s: Store, placed: seq<BlockHash>)
    requires Layered(s) && PlacedSoFar(s, placed)
    ensures PlacedSoFar(s, placed + Rounds(s, Elements(placed)))
    ensures Elements(placed + Rounds(s, Elements(placed))) == s.Keys
    decreases s.Keys - Elements(placed)
  {
    hide PlacedSoFar, Ready, Layered, Elements, Arranged, ScoreMap;
    var ready := Ready(s, Elements(placed));
    if ready == {} {
      AllPlaced(s, placed);
      assert placed + [] == placed;
    } else {
      var round := Arranged(ScoreMap(s), ready);
      ArrangedLists(ScoreMap(s), ready);
      PlaceRound(s, placed, round);
      ReadyShrinks(s, Elements(placed));
      RoundsComplete(s, placed + round);
      assert placed + Rounds(s, Elements(placed)) == (placed + round) + Rounds(s, Elements(placed + round));
    }
  }

  /** The order lists every stored block once, parents before children. */
  lemma {:induction false} GhostOrderIsTopological(s: Store)
    requires Layered(s)
    ensures Lists(GhostOrder(s), s.Keys)
    ensures Topological(ParentGraph(s), GhostOrder(s))
  {
    hide Rounds, Ready;
    assert PlacedSoFar(s, []);
    assert Elements<BlockHash>([]) == {};
    RoundsComplete(s, []);
    assert [] + GhostOrder(s) == GhostOrder(s);
    assert forall h :: h in Elements(GhostOrder(s)) <==> h in s;
  }
}
