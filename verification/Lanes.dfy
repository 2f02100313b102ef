/**
 * Lane masks of the cooperative_groups header. A mask is a row of bits, lane 0 first; its length is the warp width.
 * Tile sizes, ranks and lane numbers are unsigned integers, their bitwise operators written out.
 */
module Lanes {
  import opened Bits
  import opened Words

  const WARP := 32

  type Mask = seq<bool>

  // ---- unsigned bit operators ----------------------------------------------

  function And(x: nat, y: nat): nat {
    if x == 0 || y == 0 then 0
    else 2 * And(x / 2, y / 2) + if x % 2 == 1 && y % 2 == 1 then 1 else 0
  }

  // x & ~y
  function AndNot(x: nat, y: nat): nat {
    if x == 0 then 0
    else 2 * AndNot(x / 2, y / 2) + if x % 2 == 1 && y % 2 == 0 then 1 else 0
  }

  predicate IsPowerOfTwo(t: nat) { t == 1 || (t > 0 && t % 2 == 0 && IsPowerOfTwo(t / 2)) }

  lemma {:induction false} AndSelf(x: nat)
    ensures And(x, x) == x
  {
    if x > 0 {
      AndSelf(x / 2);
    }
  }

  /** `(t & (t - 1)) == 0` is the power-of-two test it is meant to be. */
  lemma {:induction false} PowerTest(t: nat)
    requires t > 0
    ensures And(t, t - 1) == 0 <==> IsPowerOfTwo(t)
  {
    if t == 1 {
    } else if t % 2 == 0 {
      PowerTest(t / 2);
      assert (t - 1) / 2 == t / 2 - 1;
    } else {
      AndSelf(t / 2);
      assert (t - 1) / 2 == t / 2;
    }
  }

  predicate TileSize(t: nat) { t == 1 || t == 2 || t == 4 || t == 8 || t == 16 || t == 32 }

  lemma {:induction false} TileSizes(t: nat)
    ensures TileSize(t) <==> 0 < t <= 32 && IsPowerOfTwo(t)
  {
    if 0 < t <= 32 && IsPowerOfTwo(t) && t > 1 {
      if t > 2 {
        assert IsPowerOfTwo(t / 2) && t / 2 <= 16;
        if t > 4 {
          assert IsPowerOfTwo(t / 4);
          assert t / 2 / 2 == t / 4;
          if t > 8 {
            assert IsPowerOfTwo(t / 8) && t / 4 / 2 == t / 8;
          }
        }
      }
    }
  }

  lemma {:induction false} AndNotZero(x: nat)
    ensures AndNot(x, 0) == x
  {
    if x > 0 {
      AndNotZero(x / 2);
    }
  }

  /** x rounded down to a multiple of t. */
  function Floor(x: nat, t: nat): (b: nat)
    requires t > 0
    ensures b <= x < b + t
  {
    if x < t then 0 else Floor(x - t, t) + t
  }

  predicate IsMultiple(x: nat, t: nat)
    requires t > 0
  {
    Floor(x, t) == x
  }

  lemma {:induction false} MultipleIff(x: nat, t: nat)
    requires t > 0
    ensures IsMultiple(x, t) <==> x % t == 0
  {
    FloorIsMultiple(x, t);
  }

  lemma {:induction false} FloorIsMultiple(x: nat, t: nat)
    requires t > 0
    ensures Floor(x, t) == x / t * t
    ensures x % t == x - Floor(x, t)
  {
    if x < t {
      DivisionIsUnique(x, 0, x, t);
    } else {
      FloorIsMultiple(x - t, t);
      DivisionIsUnique(x, (x - t) / t + 1, (x - t) % t, t);
    }
  }

  lemma {:induction false} FloorIsUnique(x: nat, q: nat, t: nat)
    requires t > 0 && q * t <= x < q * t + t
    ensures Floor(x, t) == q * t && x / t == q
  {
    DivisionIsUnique(x, q, x - q * t, t);
    FloorIsMultiple(x, t);
  }

  lemma {:induction false} FloorOfHalf(x: nat, t: nat)
    requires t > 0 && t % 2 == 0
    ensures Floor(x, t) == 2 * Floor(x / 2, t / 2)
  {
    var q := x / 2 / (t / 2);
    FloorIsMultiple(x / 2, t / 2);
    assert q * t == 2 * (q * (t / 2));
    FloorIsUnique(x, q, t);
  }

  /** `x & ~(t - 1)` rounds down to a multiple of t. */
  lemma {:induction false} RoundsDown(x: nat, t: nat)
    requires TileSize(t)
    ensures AndNot(x, t - 1) == Floor(x, t)
    decreases t
  {
    if t == 1 {
      AndNotZero(x);
    } else if x > 0 {
      RoundsDown(x / 2, t / 2);
      assert (t - 1) / 2 == t / 2 - 1 && (t - 1) % 2 == 1;
      FloorOfHalf(x, t);
    }
  }

  lemma {:induction false} SameFloor(a: nat, b: nat, t: nat)
    requires t > 0
    ensures Floor(a, t) == Floor(b, t) <==> Floor(b, t) <= a < Floor(b, t) + t
    ensures Floor(a, t) == Floor(b, t) <==> a / t == b / t
  {
    FloorIsMultiple(a, t);
    FloorIsMultiple(b, t);
    if Floor(b, t) <= a < Floor(b, t) + t {
      FloorIsUnique(a, b / t, t);
    }
    if Floor(a, t) == Floor(b, t) {
      FloorIsUnique(a, b / t, t);
    }
  }

  // ---- ranks -----------------------------------------------------------------

  // popc(mask & lanemask_lt): the number of members below the lane
  function Rank(mask: Mask, lane: nat): (r: nat)
    requires lane <= |mask|
    ensures r <= lane
  {
    Ones(mask[..lane])
  }

  lemma {:induction false} RankStep(mask: Mask, lane: nat)
    requires lane < |mask|
    ensures Rank(mask, lane + 1) == Rank(mask, lane) + if mask[lane] then 1 else 0
  {
    assert mask[..lane + 1][..lane] == mask[..lane];
  }

  lemma {:induction false} RankGrows(mask: Mask, i: nat, j: nat)
    requires i <= j <= |mask|
    ensures Rank(mask, i) <= Rank(mask, j)
    ensures i < j && mask[i] ==> Rank(mask, i) < Rank(mask, j)
    decreases j
  {
    if i < j {
      RankGrows(mask, i, j - 1);
      RankStep(mask, j - 1);
    }
  }

  lemma {:induction false} RankOfAll(mask: Mask)
    ensures Rank(mask, |mask|) == Ones(mask)
  {
    assert mask[..|mask|] == mask;
  }

  /** Ranks number the members 0, 1, ..., size - 1: each number belongs to a member, and to one only. */
  lemma {:induction false} MemberOfRank(mask: Mask, n: nat, r: nat) returns (lane: nat)
    requires n <= |mask| && r < Rank(mask, n)
    ensures lane < n && mask[lane] && Rank(mask, lane) == r
    decreases n
  {
    RankStep(mask, n - 1);
    if r < Rank(mask, n - 1) {
      lane := MemberOfRank(mask, n - 1, r);
    } else {
      lane := n - 1;
    }
  }

  lemma {:induction false} RanksAreDistinct(mask: Mask, i: nat, j: nat)
    requires i < |mask| && j < |mask| && mask[i] && mask[j]
    ensures Rank(mask, i) == Rank(mask, j) <==> i == j
    ensures Rank(mask, i) < Ones(mask)
  {
    if i < j {
      RankGrows(mask, i, j);
    } else if j < i {
      RankGrows(mask, j, i);
    }
    RankGrows(mask, i, |mask|);
    RankOfAll(mask);
  }

  // ---- packing -----------------------------------------------------------------

  /** The bits of `m` at the members of `mask`, in lane order. */
  function Compress(mask: Mask, m: Mask): (c: Mask)
    requires |m| == |mask|
    ensures |c| == Ones(mask)
  {
    if mask == [] then []
    else
      var n := |mask| - 1;
      Compress(mask[..n], m[..n]) + if mask[n] then [m[n]] else []
  }

  function Zeros(n: nat): Mask { seq(n, _ => false) }

  lemma {:induction false} CompressAt(mask: Mask, m: Mask, lane: nat)
    requires |m| == |mask| && lane < |mask| && mask[lane]
    ensures Rank(mask, lane) < Ones(mask) && Compress(mask, m)[Rank(mask, lane)] == m[lane]
  {
    var n := |mask| - 1;
    RanksAreDistinct(mask, lane, lane);
    if lane < n {
      CompressAt(mask[..n], m[..n], lane);
      assert mask[..n][..lane] == mask[..lane];
    }
  }

  /** The packed word determines, and is determined by, what the members' bits are. */
  lemma {:induction false} PackIsDetermined(mask: Mask, m: Mask, pack: Mask)
    requires |m| == |mask| == |pack|
    ensures pack == Compress(mask, m) + Zeros(|mask| - Ones(mask)) <==>
            && (forall i :: 0 <= i < |mask| && mask[i] ==> Rank(mask, i) < |pack| && pack[Rank(mask, i)] == m[i])
            && (forall r :: Ones(mask) <= r < |pack| ==> !pack[r])
  {
    var c := Compress(mask, m);
    forall i | 0 <= i < |mask| && mask[i] ensures Rank(mask, i) < |c| && c[Rank(mask, i)] == m[i] {
      CompressAt(mask, m, i);
    }
    if (forall i :: 0 <= i < |mask| && mask[i] ==> Rank(mask, i) < |pack| && pack[Rank(mask, i)] == m[i])
       && (forall r :: Ones(mask) <= r < |pack| ==> !pack[r])
    {
      RankOfAll(mask);
      forall r | 0 <= r < |c| ensures pack[r] == c[r] {
        var lane := MemberOfRank(mask, |mask|, r);
      }
      assert pack == c + Zeros(|mask| - Ones(mask));
    }
  }

  function Both(a: Mask, b: Mask): Mask
    requires |a| == |b|
  {
    seq(|a|, i requires 0 <= i < |a| => a[i] && b[i])
  }

  lemma {:induction false} OnesOfCompress(mask: Mask, m: Mask)
    requires |m| == |mask|
    ensures Ones(Compress(mask, m)) == Ones(Both(mask, m))
  {
    if mask != [] {
      var n := |mask| - 1;
      OnesOfCompress(mask[..n], m[..n]);
      assert Both(mask, m)[..n] == Both(mask[..n], m[..n]) && Both(mask, m)[n] == (mask[n] && m[n]);
      if mask[n] {
        assert Compress(mask, m)[..|Compress(mask, m)| - 1] == Compress(mask[..n], m[..n]);
      } else {
        assert Compress(mask, m) == Compress(mask[..n], m[..n]);
      }
    }
  }

  lemma {:induction false} OnesThenZeros(a: Mask, k: nat)
    ensures Ones(a + Zeros(k)) == Ones(a)
  {
    if k == 0 {
      assert a + Zeros(0) == a;
    } else {
      OnesThenZeros(a, k - 1);
      assert (a + Zeros(k))[..|a| + k - 1] == a + Zeros(k - 1);
    }
  }

  /** Packing keeps the number of marked members. */
  lemma {:induction false} PackKeepsCount(mask: Mask, m: Mask)
    requires |m| == |mask|
    ensures Ones(Compress(mask, m) + Zeros(|mask| - Ones(mask))) == Ones(Both(mask, m))
  {
    OnesOfCompress(mask, m);
    OnesThenZeros(Compress(mask, m), |mask| - Ones(mask));
  }

  lemma {:induction false} CompressGrows(mask: Mask, m: Mask, i: nat)
    requires |m| == |mask| && i < |mask|
    ensures Compress(mask[..i + 1], m[..i + 1]) == Compress(mask[..i], m[..i]) + if mask[i] then [m[i]] else []
  {
    assert mask[..i + 1][..i] == mask[..i] && m[..i + 1][..i] == m[..i];
  }

  method PackLanes(mask: Mask, laneMask: Mask) returns (pack: Mask)
    requires |laneMask| == |mask|
    ensures pack == Compress(mask, laneMask) + Zeros(|mask| - Ones(mask))
  {
    pack := Zeros(|mask|);
    var rank := 0;
    var i := 0;
    while i < |mask|
      invariant 0 <= i <= |mask| && rank == Rank(mask, i)
      invariant pack == Compress(mask[..i], laneMask[..i]) + Zeros(|mask| - rank)
    {
      RankStep(mask, i);
      CompressGrows(mask, laneMask, i);
      if mask[i] {
        if laneMask[i] {
          pack := pack[rank := true];
        }
        rank := rank + 1;
      }
      i := i + 1;
    }
    assert mask[..i] == mask && laneMask[..i] == laneMask;
  }

  lemma {:induction false} CompressFull(mask: Mask, m: Mask)
    requires |m| == |mask| && Ones(mask) == |mask|
    ensures Compress(mask, m) == m
  {
    AllOnes(mask);
    if mask != [] {
      var n := |mask| - 1;
      AllOnes(mask[..n]);
      CompressFull(mask[..n], m[..n]);
    }
  }

  /** `laneBallot` is what the hardware vote returns; a full warp takes it as it is, with the same result as packing. */
  method Ballot(mask: Mask, laneBallot: Mask) returns (vote: Mask)
    requires |laneBallot| == |mask|
    ensures vote == Compress(mask, laneBallot) + Zeros(|mask| - Ones(mask))
  {
    if Ones(mask) == |mask| {
      CompressFull(mask, laneBallot);
      return laneBallot;
    }
    vote := PackLanes(mask, laneBallot);
  }
}
