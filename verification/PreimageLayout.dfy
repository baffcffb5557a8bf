/**
  The byte string that is hashed for a block (src/core/block.rs), and why it may be replaced
  by the record `Blocks.Preimage`: parents and transactions are 32-byte words, everything
  behind them has a fixed width, so the bytes determine every field - `topoIndex` in
  particular - and the sequence of words.
 */
module PreimageLayout {
  import opened Collections
  import opened Graphs
  import opened Blocks

  type Bytes = seq<nat>

  function Pow256(w: nat): nat {
    if w == 0 then 1 else 256 * Pow256(w - 1)
  }

  /** `w` bytes, most significant first. */
  function BigEndian(n: nat, w: nat): (r: Bytes)
    ensures |r| == w
  {
    if w == 0 then [] else BigEndian(n / 256, w - 1) + [n % 256]
  }

  /** `w` bytes, least significant first. */
  function LittleEndian(n: nat, w: nat): (r: Bytes)
    ensures |r| == w
  {
    if w == 0 then [] else [n % 256] + LittleEndian(n / 256, w - 1)
  }

  function Words(hs: seq<BlockHash>): (r: Bytes)
    ensures |r| == 32 * |hs|
  {
    if hs == [] then [] else Words(hs[..|hs| - 1]) + BigEndian(hs[|hs| - 1], 32)
  }

  /** Numeric fields, in hashing order. */
  function Numbers(p: Preimage): Bytes {
    LittleEndian(p.timestamp, 8) + LittleEndian(p.nonce, 8) + LittleEndian(p.difficulty, 4) + LittleEndian(p.baseFee, 8)
  }

  function Consensus(p: Preimage): Bytes {
    LittleEndian(p.version, 4) + LittleEndian(p.blueScore, 8) +
    LittleEndian(p.chainHeight, 8) + LittleEndian(p.topoIndex, 8)
  }

  function Layout(p: Preimage): Bytes {
    Words(p.words) + Numbers(p) + BigEndian(p.stateRoot, 32) + Consensus(p) +
    BigEndian(p.selected, 32) + BigEndian(p.producer, 20)
  }

  ghost predicate WordsFit(hs: seq<BlockHash>) {
    forall i :: 0 <= i < |hs| ==> hs[i] < Pow256(32)
  }

  /** Every field has the width that the layout gives it. */
  ghost predicate Fits(p: Preimage) {
    && WordsFit(p.words)
    && p.timestamp < Pow256(8) && p.nonce < Pow256(8) && p.difficulty < Pow256(4) && p.baseFee < Pow256(8)
    && p.stateRoot < Pow256(32) && p.version < Pow256(4) && p.blueScore < Pow256(8)
    && p.chainHeight < Pow256(8) && p.topoIndex < Pow256(8)
    && p.selected < Pow256(32) && p.producer < Pow256(20)
  }

  lemma {:induction false} BigEndianInjective(a: nat, b: nat, w: nat)
    requires a < Pow256(w) && b < Pow256(w) && BigEndian(a, w) == BigEndian(b, w)
    ensures a == b
    decreases w
  {
    if w > 0 {
      var x, y := BigEndian(a / 256, w - 1), BigEndian(b / 256, w - 1);
      CutEnd(x, [a % 256], y, [b % 256]);
      assert [a % 256][0] == [b % 256][0];
      BigEndianInjective(a / 256, b / 256, w - 1);
    }
  }

  lemma {:induction false} LittleEndianInjective(a: nat, b: nat, w: nat)
    requires a < Pow256(w) && b < Pow256(w) && LittleEndian(a, w) == LittleEndian(b, w)
    ensures a == b
    decreases w
  {
    if w > 0 {
      assert LittleEndian(a, w)[0] == a % 256 && LittleEndian(b, w)[0] == b % 256;
      assert LittleEndian(a, w)[1..] == LittleEndian(a / 256, w - 1);
      assert LittleEndian(b, w)[1..] == LittleEndian(b / 256, w - 1);
      LittleEndianInjective(a / 256, b / 256, w - 1);
    }
  }

  lemma CutEnd(a: Bytes, x: Bytes, b: Bytes, y: Bytes)
    requires a + x == b + y && |x| == |y|
    ensures a == b && x == y
  {
    assert |a| == |b|;
    assert a == (a + x)[..|a|] && b == (b + y)[..|b|];
    assert x == (a + x)[|a|..] && y == (b + y)[|b|..];
  }

  lemma {:induction false} WordsInjective(a: seq<BlockHash>, b: seq<BlockHash>)
    requires WordsFit(a) && WordsFit(b) && Words(a) == Words(b)
    ensures a == b
    decreases |a|
  {
    hide BigEndian, Pow256;
    assert |a| == |b|;
    if a != [] {
      var n := |a| - 1;
      CutEnd(Words(a[..n]), BigEndian(a[n], 32), Words(b[..n]), BigEndian(b[n], 32));
      BigEndianInjective(a[n], b[n], 32);
      WordsInjective(a[..n], b[..n]);
      assert a == a[..n] + [a[n]] && b == b[..n] + [b[n]];
    }
  }

  lemma NumbersInjective(p: Preimage, q: Preimage)
    requires Fits(p) && Fits(q) && Numbers(p) == Numbers(q)
    ensures p.timestamp == q.timestamp && p.nonce == q.nonce && p.difficulty == q.difficulty && p.baseFee == q.baseFee
  {
    hide LittleEndian, Pow256;
    var p1, q1 := LittleEndian(p.timestamp, 8), LittleEndian(q.timestamp, 8);
    var p2, q2 := p1 + LittleEndian(p.nonce, 8), q1 + LittleEndian(q.nonce, 8);
    var p3, q3 := p2 + LittleEndian(p.difficulty, 4), q2 + LittleEndian(q.difficulty, 4);
    CutEnd(p3, LittleEndian(p.baseFee, 8), q3, LittleEndian(q.baseFee, 8));
    CutEnd(p2, LittleEndian(p.difficulty, 4), q2, LittleEndian(q.difficulty, 4));
    CutEnd(p1, LittleEndian(p.nonce, 8), q1, LittleEndian(q.nonce, 8));
    LittleEndianInjective(p.baseFee, q.baseFee, 8);
    LittleEndianInjective(p.difficulty, q.difficulty, 4);
    LittleEndianInjective(p.nonce, q.nonce, 8);
    LittleEndianInjective(p.timestamp, q.timestamp, 8);
  }

  lemma ConsensusInjective(p: Preimage, q: Preimage)
    requires Fits(p) && Fits(q) && Consensus(p) == Consensus(q)
    ensures p.version == q.version && p.blueScore == q.blueScore
    ensures p.chainHeight == q.chainHeight && p.topoIndex == q.topoIndex
  {
    hide LittleEndian, Pow256;
    var p1, q1 := LittleEndian(p.version, 4), LittleEndian(q.version, 4);
    var p2, q2 := p1 + LittleEndian(p.blueScore, 8), q1 + LittleEndian(q.blueScore, 8);
    var p3, q3 := p2 + LittleEndian(p.chainHeight, 8), q2 + LittleEndian(q.chainHeight, 8);
    CutEnd(p3, LittleEndian(p.topoIndex, 8), q3, LittleEndian(q.topoIndex, 8));
    CutEnd(p2, LittleEndian(p.chainHeight, 8), q2, LittleEndian(q.chainHeight, 8));
    CutEnd(p1, LittleEndian(p.blueScore, 8), q1, LittleEndian(q.blueScore, 8));
    LittleEndianInjective(p.topoIndex, q.topoIndex, 8);
    LittleEndianInjective(p.chainHeight, q.chainHeight, 8);
    LittleEndianInjective(p.blueScore, q.blueScore, 8);
    LittleEndianInjective(p.version, q.version, 4);
  }

  /** The hashed bytes determine the whole preimage record. */
  lemma {:induction false} LayoutInjective(p: Preimage, q: Preimage)
    requires Fits(p) && Fits(q) && Layout(p) == Layout(q)
    ensures p == q
  {
    hide BigEndian, Pow256, Words;
    assert |Numbers(p)| == |Numbers(q)| == 28 && |Consensus(p)| == |Consensus(q)| == 28;
    hide Numbers, Consensus;
    var p1, q1 := Words(p.words) + Numbers(p), Words(q.words) + Numbers(q);
    var p2, q2 := p1 + BigEndian(p.stateRoot, 32), q1 + BigEndian(q.stateRoot, 32);
    var p3, q3 := p2 + Consensus(p), q2 + Consensus(q);
    var p4, q4 := p3 + BigEndian(p.selected, 32), q3 + BigEndian(q.selected, 32);
    CutEnd(p4, BigEndian(p.producer, 20), q4, BigEndian(q.producer, 20));
    CutEnd(p3, BigEndian(p.selected, 32), q3, BigEndian(q.selected, 32));
    CutEnd(p2, Consensus(p), q2, Consensus(q));
    CutEnd(p1, BigEndian(p.stateRoot, 32), q1, BigEndian(q.stateRoot, 32));
    CutEnd(Words(p.words), Numbers(p), Words(q.words), Numbers(q));
    WordsInjective(p.words, q.words);
    NumbersInjective(p, q);
    ConsensusInjective(p, q);
    BigEndianInjective(p.producer, q.producer, 20);
    BigEndianInjective(p.selected, q.selected, 32);
    BigEndianInjective(p.stateRoot, q.stateRoot, 32);
  }

  // ---- where each field lies ------------------------------------------------------------------------

  /** The `width` bytes that end `back` bytes before the end. */
  function FromEnd(xs: Bytes, back: nat, width: nat): Bytes
    requires back + width <= |xs|
  {
    xs[|xs| - back - width..|xs| - back]
  }

  /** The words come first; every other field has a fixed place counted from the end. */
  lemma FieldsFromEnd(p: Preimage)
    ensures |Layout(p)| == 32 * |p.words| + 140 && Layout(p)[..32 * |p.words|] == Words(p.words)
    ensures FromEnd(Layout(p), 0, 20) == BigEndian(p.producer, 20)
    ensures FromEnd(Layout(p), 20, 32) == BigEndian(p.selected, 32)
    ensures FromEnd(Layout(p), 52, 28) == Consensus(p)
    ensures FromEnd(Layout(p), 80, 32) == BigEndian(p.stateRoot, 32)
    ensures FromEnd(Layout(p), 112, 28) == Numbers(p)
  {
    hide Words, BigEndian, LittleEndian;
    var numbers, consensus := Numbers(p), Consensus(p);
    assert |numbers| == 28 && |consensus| == 28;
    hide Numbers, Consensus;
  }

  /** Version, blue score, chain height and `topoIndex`, in this order. */
  lemma ConsensusFromEnd(p: Preimage)
    ensures |Consensus(p)| == 28
    ensures FromEnd(Consensus(p), 0, 8) == LittleEndian(p.topoIndex, 8)
    ensures FromEnd(Consensus(p), 8, 8) == LittleEndian(p.chainHeight, 8)
    ensures FromEnd(Consensus(p), 16, 8) == LittleEndian(p.blueScore, 8)
    ensures FromEnd(Consensus(p), 24, 4) == LittleEndian(p.version, 4)
  {
    hide LittleEndian;
  }

  /** Timestamp, nonce, difficulty and base fee, in this order. */
  lemma NumbersFromEnd(p: Preimage)
    ensures |Numbers(p)| == 28
    ensures FromEnd(Numbers(p), 0, 8) == LittleEndian(p.baseFee, 8)
    ensures FromEnd(Numbers(p), 8, 4) == LittleEndian(p.difficulty, 4)
    ensures FromEnd(Numbers(p), 12, 8) == LittleEndian(p.nonce, 8)
    ensures FromEnd(Numbers(p), 20, 8) == LittleEndian(p.timestamp, 8)
  {
    hide LittleEndian;
  }

  /** Byte `i` of a little-endian number is its digit of weight 256^i. */
  lemma {:induction false} LittleEndianDigit(n: nat, w: nat, i: nat)
    requires i < w
    ensures LittleEndian(n, w)[i] == Digit(n, i)
    decreases w
  {
    if i > 0 {
      LittleEndianDigit(n / 256, w - 1, i - 1);
    }
  }

  /** And of a big-endian number of `w` bytes the digit of weight 256^(w - 1 - i). */
  lemma {:induction false} BigEndianDigit(n: nat, w: nat, i: nat)
    requires i < w
    ensures BigEndian(n, w)[i] == Digit(n, w - 1 - i)
    decreases w
  {
    if i < w - 1 {
      BigEndianDigit(n / 256, w - 1, i);
    }
  }

  /** The digit of weight 256^i. */
  function Digit(n: nat, i: nat): nat {
    if i == 0 then n % 256 else Digit(n / 256, i - 1)
  }

  // ---- hashing the bytes is a collision-free rule ----------------------------------------------

  /** A mark for records that do not fit: their fields as they are, and a last entry that no byte equals. */
  function Unfit(p: Preimage): Bytes {
    p.words + [p.timestamp, p.nonce, p.difficulty, p.baseFee, p.stateRoot, p.version, p.blueScore,
               p.chainHeight, p.topoIndex, p.selected, p.producer, 256]
  }

  /** `rules` with a hash of the laid-out bytes on every record that fits the layout. */
  ghost function OverBytes(rules: Rules, digest: Bytes -> BlockHash): (r: Rules)
    ensures forall p :: Fits(p) ==> r.sha(p) == digest(Layout(p))
  {
    rules.(sha := (p: Preimage) => digest(if Fits(p) then Layout(p) else Unfit(p)))
  }

  lemma LayoutEndsInByte(p: Preimage)
    ensures |Layout(p)| > 0 && Layout(p)[|Layout(p)| - 1] < 256
    ensures |Unfit(p)| > 0 && Unfit(p)[|Unfit(p)| - 1] == 256
  {
    hide Words, Numbers, Consensus;
    var last := BigEndian(p.producer, 20);
    assert last[19] == p.producer % 256;
    assert Layout(p)[|Layout(p)| - 1] == last[19];
  }

  lemma UnfitInjective(p: Preimage, q: Preimage)
    requires Unfit(p) == Unfit(q)
    ensures p == q
  {
    var x, y := Unfit(p)[|p.words|..], Unfit(q)[|q.words|..];
    assert Unfit(p) == p.words + x && Unfit(q) == q.words + y;
    CutEnd(p.words, x, q.words, y);
    assert x == [p.timestamp, p.nonce, p.difficulty, p.baseFee, p.stateRoot, p.version, p.blueScore,
                 p.chainHeight, p.topoIndex, p.selected, p.producer, 256];
    assert y == [q.timestamp, q.nonce, q.difficulty, q.baseFee, q.stateRoot, q.version, q.blueScore,
                 q.chainHeight, q.topoIndex, q.selected, q.producer, 256];
    assert x[0] == y[0] && x[1] == y[1] && x[2] == y[2] && x[3] == y[3] && x[4] == y[4] && x[5] == y[5];
    assert x[6] == y[6] && x[7] == y[7] && x[8] == y[8] && x[9] == y[9] && x[10] == y[10];
  }

  /**
    If no two byte strings collide, the rules that hash laid-out bytes are collision-free in the sense of
    the model.
   */
  lemma LaidOutHashIsCollisionFree(rules: Rules, digest: Bytes -> BlockHash)
    requires forall x, y :: digest(x) == digest(y) ==> x == y
    ensures CollisionFree(OverBytes(rules, digest))
  {
    hide Layout, Fits, Unfit;
    var r := OverBytes(rules, digest);
    forall p, q | r.sha(p) == r.sha(q)
      ensures p == q
    {
      LayoutEndsInByte(p);
      LayoutEndsInByte(q);
      if Fits(p) && Fits(q) {
        LayoutInjective(p, q);
      } else if !Fits(p) && !Fits(q) {
        UnfitInjective(p, q);
      }
    }
  }

  /** Collision-free rules exist, so the theorems about them are not empty. */
  lemma CollisionFreeRulesExist(rules: Rules)
    ensures CollisionFree(OverBytes(rules, ListCode))
  {
    hide OverBytes, CollisionFree;
    forall x, y | ListCode(x) == ListCode(y) ensures x == y { ListCodeInjective(x, y); }
    LaidOutHashIsCollisionFree(rules, ListCode);
  }
}
