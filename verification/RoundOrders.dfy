/**
  What the GHOSTDAG order is, without its rounds: by height, then by descending blue score, then by hash.
 */
module RoundOrders {
  import opened Collections
  import opened Graphs
  import opened Blocks
  import opened Dags
  import opened Heights
  import opened Pasts
  import opened Kahn
  import opened GhostOrders

  /** Lower first; at equal height the larger past first; at equal score the smaller hash. */
  ghost predicate Precedes(s: Store, a: BlockHash, b: BlockHash)
    requires a in s && b in s
  {
    var ha, hb := s[a].header.chainHeight, s[b].header.chainHeight;
    var pa, pb := |Past(s, a)| + 1, |Past(s, b)| + 1;
    ha < hb || (ha == hb && (pa > pb || (pa == pb && a < b)))
  }

  ghost predicate InOrder(s: Store, xs: seq<BlockHash>)
    requires forall x :: x in xs ==> x in s
  {
    forall i, j :: 0 <= i < j < |xs| ==> Precedes(s, xs[i], xs[j])
  }

  /** The blocks below height `n`. */
  ghost function Below(s: Store, n: nat): set<BlockHash> {
    set h | h in s && s[h].header.chainHeight < n
  }

  /** When everything below height `n` is placed, the blocks of height `n` are ready, and no others. */
  lemma ReadyIsNextHeight(rules: Rules, s: Store, n: nat)
    requires ValidStore(rules, s)
    ensures forall h :: h in Ready(s, Below(s, n)) <==> h in s && s[h].header.chainHeight == n
    ensures Below(s, n) + Ready(s, Below(s, n)) == Below(s, n + 1)
  {
    hide ValidStore;
    forall h | h in s
      ensures h in Ready(s, Below(s, n)) <==> s[h].header.chainHeight == n
    {
      SelectedParentIsNext(rules, s, h);
      forall p | p in s[h].header.parentHashes ensures p in s && s[p].header.chainHeight < s[h].header.chainHeight {
        ParentIsLower(rules, s, h, p);
      }
    }
  }

  lemma ArrangedInOrder(s: Store, S: set<BlockHash>, n: nat)
    requires forall h :: h in S ==> h in s && s[h].header.chainHeight == n
    ensures forall h :: h in Arranged(ScoreMap(s), S) <==> h in S
    ensures InOrder(s, Arranged(ScoreMap(s), S))
  {
    hide Arranged;
    ArrangedLists(ScoreMap(s), S);
    ArrangedAscends(ScoreMap(s), S);
    var xs := Arranged(ScoreMap(s), S);
    forall i, j | 0 <= i < j < |xs| ensures Precedes(s, xs[i], xs[j]) {
      assert xs[i] in xs && xs[j] in xs;
      assert Before(ScoreMap(s), xs[i], xs[j]);
    }
  }

  lemma JoinInOrder(s: Store, xs: seq<BlockHash>, ys: seq<BlockHash>, n: nat)
    requires forall x :: x in xs ==> x in s && s[x].header.chainHeight == n
    requires forall y :: y in ys ==> y in s && s[y].header.chainHeight > n
    requires InOrder(s, xs) && InOrder(s, ys)
    ensures forall x :: x in xs + ys ==> x in s
    ensures InOrder(s, xs + ys)
  {
    var zs := xs + ys;
    forall i, j | 0 <= i < j < |zs| ensures Precedes(s, zs[i], zs[j]) {
      assert i < |xs| ==> zs[i] in xs;
      assert i >= |xs| ==> zs[i] == ys[i - |xs|] && zs[j] == ys[j - |xs|];
      assert j >= |xs| ==> zs[j] in ys;
      assert j < |xs| ==> Precedes(s, xs[i], xs[j]);
    }
  }

  lemma {:induction false} RoundsInOrder(rules: Rules, s: Store, n: nat)
    requires ValidStore(rules, s)
    ensures forall h :: h in Rounds(s, Below(s, n)) ==> h in s && s[h].header.chainHeight >= n
    ensures InOrder(s, Rounds(s, Below(s, n)))
    decreases s.Keys - Below(s, n)
  {
    hide ValidStore, Arranged, InOrder, Precedes, ScoreMap;
    var done, ready := Below(s, n), Ready(s, Below(s, n));
    if ready == {} {
      NothingInOrder(s);
    } else {
      ReadyShrinks(s, done);
      ReadyIsNextHeight(rules, s, n);
      ArrangedInOrder(s, ready, n);
      RoundsInOrder(rules, s, n + 1);
      JoinInOrder(s, Arranged(ScoreMap(s), ready), Rounds(s, Below(s, n + 1)), n);
    }
  }

  lemma NothingInOrder(s: Store)
    ensures InOrder(s, [])
  {
  }

  lemma HeadsAgree(s: Store, xs: seq<BlockHash>, ys: seq<BlockHash>)
    requires xs != [] && ys != [] && (forall x :: x in xs <==> x in ys) && (forall x :: x in xs ==> x in s)
    requires InOrder(s, xs) && InOrder(s, ys)
    ensures xs[0] == ys[0]
  {
    assert xs[0] in xs && ys[0] in ys;
    var i :| 0 <= i < |ys| && ys[i] == xs[0];
    var j :| 0 <= j < |xs| && xs[j] == ys[0];
  }

  /** The head stands nowhere else, and the rest is in order. */
  lemma TailInOrder(s: Store, xs: seq<BlockHash>)
    requires xs != [] && (forall x :: x in xs ==> x in s) && InOrder(s, xs)
    ensures forall x :: x in xs[1..] <==> x in xs && x != xs[0]
    ensures InOrder(s, xs[1..])
  {
    assert xs == [xs[0]] + xs[1..];
    forall i | 0 < i < |xs| ensures xs[i] != xs[0] {
      assert Precedes(s, xs[0], xs[i]);
    }
  }

  /** Two lists of the same blocks in this order are equal. */
  lemma {:induction false} InOrderIsUnique(s: Store, xs: seq<BlockHash>, ys: seq<BlockHash>)
    requires (forall x :: x in xs <==> x in ys) && (forall x :: x in xs ==> x in s)
    requires InOrder(s, xs) && InOrder(s, ys)
    ensures xs == ys
    decreases |xs|
  {
    hide InOrder;
    SomeMember(xs);
    SomeMember(ys);
    if xs != [] {
      HeadsAgree(s, xs, ys);
      TailInOrder(s, xs);
      TailInOrder(s, ys);
      InOrderIsUnique(s, xs[1..], ys[1..]);
      assert xs == [xs[0]] + xs[1..] && ys == [ys[0]] + ys[1..];
    }
  }

  /** In every valid store the generated order is the one list of all blocks in this order. */
  lemma GhostOrderExactly(rules: Rules, s: Store, xs: seq<BlockHash>)
    requires ValidStore(rules, s)
    ensures (forall x :: x in xs <==> x in s) && InOrder(s, xs) <==> xs == GhostOrder(s)
  {
    hide ValidStore, Rounds, InOrder, Topological;
    var ys := GhostOrder(s);
    ValidIsLayered(rules, s);
    GhostOrderIsTopological(s);
    assert Below(s, 0) == {};
    RoundsInOrder(rules, s, 0);
    if (forall x :: x in xs <==> x in s) && InOrder(s, xs) {
      InOrderIsUnique(s, xs, ys);
    }
  }
}
