/**
  Proof of work as leading zero bits, and the reward clamp (src/consensus/mining.rs).
 */
module Difficulty {
  import opened Transactions
  import opened Ledgers

  const HASH_BYTES := 32

  function Pow2(n: nat): nat {
    if n == 0 then 1 else 2 * Pow2(n - 1)
  }

  /** The big-endian value. */
  function ValueOf(bytes: seq<bv8>): nat {
    if bytes == [] then 0 else 256 * ValueOf(bytes[..|bytes| - 1]) + bytes[|bytes| - 1] as nat
  }

  /** Whole zero bytes first, then the leading bits of the next byte. */
  predicate MeetsDifficulty(hash: seq<bv8>, difficulty: nat) {
    if difficulty == 0 then true
    else
      var zeroBytes, remBits := difficulty / 8, difficulty % 8;
      if exists i :: 0 <= i < |hash| && i < zeroBytes && hash[i] != 0 then false
      else remBits == 0 || (zeroBytes < |hash| && hash[zeroBytes] & Mask(remBits) == 0)
  }

  /** 0xFF shifted left, cut to eight bits. */
  function Mask(bits: nat): bv8
    requires 0 < bits < 8
  {
    (0xFF as bv8) << (8 - bits)
  }

  lemma MaskTestsLeadingBits(b: bv8, bits: nat)
    requires 0 < bits < 8
    ensures b & Mask(bits) == 0 <==> b as nat < Pow2(8 - bits)
  {
    assert Pow2(1) == 2 && Pow2(2) == 4 && Pow2(3) == 8 && Pow2(4) == 16;
    assert Pow2(5) == 32 && Pow2(6) == 64 && Pow2(7) == 128;
    if bits == 1 { assert b & 0x80 == 0 <==> b < 0x80; }
    else if bits == 2 { assert b & 0xC0 == 0 <==> b < 0x40; }
    else if bits == 3 { assert b & 0xE0 == 0 <==> b < 0x20; }
    else if bits == 4 { assert b & 0xF0 == 0 <==> b < 0x10; }
    else if bits == 5 { assert b & 0xF8 == 0 <==> b < 0x08; }
    else if bits == 6 { assert b & 0xFC == 0 <==> b < 0x04; }
    else { assert b & 0xFE == 0 <==> b < 0x02; }
  }

  lemma {:induction false} Pow2Adds(a: nat, b: nat)
    ensures Pow2(a + b) == Pow2(a) * Pow2(b)
  {
    if a > 0 {
      Pow2Adds(a - 1, b);
    }
  }

  lemma {:induction false} Pow2Grows(a: nat, b: nat)
    requires a <= b
    ensures 0 < Pow2(a) <= Pow2(b)
    decreases b
  {
    if a < b {
      Pow2Grows(a, b - 1);
    } else if a > 0 {
      Pow2Grows(a - 1, a - 1);
    }
  }

  lemma Pow2Eight(n: nat)
    ensures Pow2(n + 8) == 256 * Pow2(n)
  {
    Pow2Adds(n, 8);
    assert Pow2(8) == 256;
  }

  lemma {:induction false} ValueBound(bytes: seq<bv8>)
    ensures ValueOf(bytes) < Pow2(8 * |bytes|)
  {
    if bytes != [] {
      ValueBound(bytes[..|bytes| - 1]);
      Pow2Eight(8 * (|bytes| - 1));
    }
  }

  lemma ValueSnoc(bytes: seq<bv8>, b: bv8)
    ensures ValueOf(bytes + [b]) == 256 * ValueOf(bytes) + b as nat
  {
    assert (bytes + [b])[..|bytes|] == bytes;
  }

  lemma Distribute(x: nat, p: nat, v: nat, c: nat)
    ensures 256 * (x * p + v) + c == x * (256 * p) + (256 * v + c)
  {
  }

  /** Splitting off the first byte. */
  lemma {:induction false} ValueHead(b: bv8, rest: seq<bv8>)
    ensures ValueOf([b] + rest) == b as nat * Pow2(8 * |rest|) + ValueOf(rest)
  {
    if rest == [] {
      ValueSnoc([], b);
      assert [b] + rest == [] + [b];
    } else {
      hide ValueOf, Pow2;
      var n := |rest| - 1;
      var init, last := rest[..n], rest[n];
      ValueHead(b, init);
      assert [b] + rest == ([b] + init) + [last];
      ValueSnoc([b] + init, last);
      assert rest == init + [last];
      ValueSnoc(init, last);
      Pow2Eight(8 * n);
      assert 8 * n + 8 == 8 * |rest|;
      Distribute(b as nat, Pow2(8 * n), ValueOf(init), last as nat);
    }
  }

  lemma QuotientBelow(x: nat, q: nat, r: nat, p: nat, k: nat)
    requires x == q * p + r && r < p
    ensures x < k * p <==> q < k
  {
    if q < k {
      assert (q + 1) * p <= k * p;
    } else {
      assert q * p >= k * p;
    }
  }

  /** Dropping a leading zero byte lowers the difficulty by eight. */
  lemma DropZeroByte(hash: seq<bv8>, difficulty: nat)
    requires hash != [] && hash[0] == 0 && difficulty >= 8
    ensures MeetsDifficulty(hash, difficulty) <==> MeetsDifficulty(hash[1..], difficulty - 8)
  {
    var rest, z := hash[1..], difficulty / 8;
    assert (difficulty - 8) / 8 == z - 1 && (difficulty - 8) % 8 == difficulty % 8;
    assert forall i :: 1 <= i < |hash| ==> hash[i] == rest[i - 1];
    if i :| 0 <= i < |hash| && i < z && hash[i] != 0 {
      assert rest[i - 1] != 0;
    }
    if i :| 0 <= i < |rest| && i < z - 1 && rest[i] != 0 {
      assert hash[i + 1] != 0;
    }
  }

  lemma OnlyBits(hash: seq<bv8>, difficulty: nat)
    requires hash != [] && 0 < difficulty < 8
    ensures MeetsDifficulty(hash, difficulty) <==> hash[0] & Mask(difficulty) == 0
  {
    assert difficulty / 8 == 0 && difficulty % 8 == difficulty;
  }

  lemma NoDifficulty(hash: seq<bv8>)
    ensures MeetsDifficulty(hash, 0)
  {
  }

  lemma FewBits(first: bv8, rest: seq<bv8>, difficulty: nat)
    requires 0 < difficulty < 8
    ensures MeetsDifficulty([first] + rest, difficulty) <==>
              ValueOf([first] + rest) < Pow2(8 * |rest| + 8 - difficulty)
  {
    hide ValueOf, Pow2, Mask, MeetsDifficulty;
    var hash := [first] + rest;
    ValueHead(first, rest);
    ValueBound(rest);
    OnlyBits(hash, difficulty);
    MaskTestsLeadingBits(first, difficulty);
    Pow2Adds(8 - difficulty, 8 * |rest|);
    assert 8 * |rest| + 8 - difficulty == 8 - difficulty + 8 * |rest|;
    QuotientBelow(ValueOf(hash), first as nat, ValueOf(rest), Pow2(8 * |rest|), Pow2(8 - difficulty));
  }

  lemma NonZeroByte(first: bv8, rest: seq<bv8>, difficulty: nat)
    requires 8 <= difficulty <= 8 * |rest| + 8 && first != 0
    ensures !MeetsDifficulty([first] + rest, difficulty)
    ensures ValueOf([first] + rest) >= Pow2(8 * |rest| + 8 - difficulty)
  {
    var hash := [first] + rest;
    assert hash[0] != 0 && 0 < difficulty / 8;
    hide ValueOf, Pow2;
    ValueHead(first, rest);
    ValueBound(rest);
    QuotientBelow(ValueOf(hash), first as nat, ValueOf(rest), Pow2(8 * |rest|), 1);
    Pow2Grows(8 * |rest| + 8 - difficulty, 8 * |rest|);
  }

  /**
    A hash meets difficulty d exactly when its value is below 2^(bits - d), for every d up to the number of bits.
   */
  lemma {:induction false} MeetsDifficultyExactly(hash: seq<bv8>, difficulty: nat)
    requires difficulty <= 8 * |hash|
    ensures MeetsDifficulty(hash, difficulty) <==> ValueOf(hash) < Pow2(8 * |hash| - difficulty)
  {
    hide ValueOf, Pow2, MeetsDifficulty;
    if difficulty == 0 {
      NoDifficulty(hash);
      ValueBound(hash);
    } else {
      var first, rest := hash[0], hash[1..];
      assert hash == [first] + rest;
      if difficulty < 8 {
        FewBits(first, rest, difficulty);
      } else if first != 0 {
        NonZeroByte(first, rest, difficulty);
      } else {
        DropZeroByte(hash, difficulty);
        MeetsDifficultyExactly(rest, difficulty - 8);
        ValueHead(first, rest);
      }
    }
  }

  /** Up to the number of bits, meeting a difficulty is meeting every lower one. */
  lemma DifficultyIsMonotone(hash: seq<bv8>, d: nat, d': nat)
    requires d <= d' <= 8 * |hash| && MeetsDifficulty(hash, d')
    ensures MeetsDifficulty(hash, d)
  {
    MeetsDifficultyExactly(hash, d);
    MeetsDifficultyExactly(hash, d');
    Pow2Grows(8 * |hash| - d', 8 * |hash| - d);
  }

  /** Beyond that, only the zero hash can pass, and only at multiples of eight. */
  lemma BeyondAllBits(hash: seq<bv8>, d: nat)
    requires d > 8 * |hash|
    ensures MeetsDifficulty(hash, d) <==> d % 8 == 0 && forall i :: 0 <= i < |hash| ==> hash[i] == 0
  {
  }

  /** Hence the test is not monotone there: the zero hash meets 264 and fails 257. */
  lemma NotMonotoneBeyondAllBits()
    ensures var zero := seq(HASH_BYTES, _ => 0 as bv8); MeetsDifficulty(zero, 264) && !MeetsDifficulty(zero, 257)
  {
  }

  /** The last step of the reward calculation; `wanted` is what the floating-point schedule came to. */
  function ClampReward(emitted: u64, wanted: u64): u64 {
    var reward := if wanted < 1 then 1 else wanted;
    var remaining := SaturatingSub(MINING_SUPPLY, emitted);
    if remaining == 0 then 0 else if reward > remaining then remaining else reward
  }

  /** The reward is the smaller of what the schedule wants, at least one, and what may still be emitted. */
  lemma ClampExactly(emitted: u64, wanted: u64)
    ensures var atLeastOne := if wanted == 0 then 1 else wanted;
            var left := if emitted >= 500_000_000 then 0 else 500_000_000 - emitted;
            ClampReward(emitted, wanted) == if atLeastOne < left then atLeastOne else left
  {
  }

  /** A reward is never more than what may still be emitted, so counting it in full never exceeds the mining supply. */
  lemma RewardIsCountedInFull(m: Accounts, wanted: u64)
    requires Emitted(m) <= MINING_SUPPLY
    ensures var reward := ClampReward(Emitted(m), wanted);
            && Emitted(AddEmittedSupply(m, reward)) == Emitted(m) + reward <= MINING_SUPPLY
            && (reward == 0 <==> Emitted(m) == MINING_SUPPLY)
  {
    EmissionIsClamped(m, ClampReward(Emitted(m), wanted));
  }
}
