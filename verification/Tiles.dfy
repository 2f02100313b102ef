/** Splitting a group of lanes into tiles: the lane-scanning loop, the shift-and-mask form, and what both select. */
module Tiles {
  import opened Words
  import opened Wire
  import opened Bits
  import opened Lanes

  datatype Group = Group(mask: Mask, size: nat, metaGroupSize: nat, metaGroupRank: nat, isTiled: bool)

  // The constructor `coalesced_group(mask)`.
  function FromMask(mask: Mask): Group { Group(mask, Ones(mask), 1, 0, false) }

  /** The tile of `lane`: the members whose rank lies between the same two multiples of t. */
  function TileMask(mask: Mask, lane: nat, t: nat): (tile: Mask)
    requires lane < |mask| && t > 0
    ensures |tile| == |mask|
  {
    seq(|mask|, i requires 0 <= i < |mask| => mask[i] && Floor(Rank(mask, i), t) == Floor(Rank(mask, lane), t))
  }

  function TileCount(size: nat, t: nat): nat
    requires t > 0
  {
    (size + t - 1) / t
  }

  // ---- what the tiles are ------------------------------------------------------

  /** Two lanes share a tile exactly when their ranks have the same quotient; otherwise their tiles are disjoint. */
  lemma {:induction false} TilesAreEqualOrDisjoint(mask: Mask, a: nat, b: nat, t: nat)
    requires a < |mask| && b < |mask| && mask[a] && mask[b] && t > 0
    ensures TileMask(mask, a, t)[a]
    ensures TileMask(mask, a, t)[b] <==> Rank(mask, a) / t == Rank(mask, b) / t
    ensures TileMask(mask, a, t) == TileMask(mask, b, t) <==> Rank(mask, a) / t == Rank(mask, b) / t
    ensures Rank(mask, a) / t != Rank(mask, b) / t ==>
              forall i :: 0 <= i < |mask| ==> !(TileMask(mask, a, t)[i] && TileMask(mask, b, t)[i])
  {
    SameFloor(Rank(mask, a), Rank(mask, b), t);
    if TileMask(mask, a, t) == TileMask(mask, b, t) {
      assert TileMask(mask, b, t)[a];
    }
  }

  function Clamp(x: int, limit: nat): nat { if x <= 0 then 0 else if x <= limit then x else limit }

  lemma {:induction false} TilePrefixCount(mask: Mask, lane: nat, t: nat, n: nat)
    requires lane < |mask| && TileSize(t) && n <= |mask|
    ensures Ones(TileMask(mask, lane, t)[..n]) == Clamp(Rank(mask, n) - Floor(Rank(mask, lane), t), t)
  {
    if n > 0 {
      TilePrefixCount(mask, lane, t, n - 1);
      RankStep(mask, n - 1);
      SameFloor(Rank(mask, n - 1), Rank(mask, lane), t);
      var tile := TileMask(mask, lane, t);
      assert tile[..n][..n - 1] == tile[..n - 1];
    }
  }

  lemma {:induction false} WholeCount(mask: Mask, n: nat)
    requires n == |mask|
    ensures Ones(mask[..n]) == Ones(mask)
  {
    assert mask[..n] == mask;
  }

  lemma {:induction false} TileCountIs(mask: Mask, lane: nat, t: nat)
    requires lane < |mask| && TileSize(t)
    ensures Ones(TileMask(mask, lane, t)) == Clamp(Ones(mask) - Floor(Rank(mask, lane), t), t)
  {
    TilePrefixCount(mask, lane, t, |mask|);
    RankOfAll(mask);
    WholeCount(TileMask(mask, lane, t), |mask|);
  }

  /** A tile has t members, or what is left of the group if that is less. */
  lemma {:induction false} TileHasSize(mask: Mask, lane: nat, t: nat)
    requires lane < |mask| && mask[lane] && TileSize(t)
    ensures Ones(TileMask(mask, lane, t)) == Min(t, Ones(mask) - Floor(Rank(mask, lane), t))
  {
    TileCountIs(mask, lane, t);
    RanksAreDistinct(mask, lane, lane);
  }

  /** Inside its tile a lane has the remainder of its rank. */
  lemma {:induction false} RankInTile(mask: Mask, lane: nat, t: nat)
    requires lane < |mask| && mask[lane] && TileSize(t)
    ensures Rank(TileMask(mask, lane, t), lane) == Rank(mask, lane) % t
  {
    TilePrefixCount(mask, lane, t, lane);
    FloorIsMultiple(Rank(mask, lane), t);
  }

  lemma {:induction false} QuotientsBelowCount(size: nat, r: nat, t: nat)
    requires TileSize(t) && r < size
    ensures r / t < TileCount(size, t)
  {
  }

  lemma {:induction false} LeastRankOfTile(size: nat, q: nat, t: nat)
    requires TileSize(t) && q < TileCount(size, t)
    ensures q * t < size && q * t / t == q
  {
  }

  /** The tiles are numbered 0 .. ceil(size / t) - 1, none of them empty. */
  lemma {:induction false} TileNumbers(mask: Mask, t: nat, q: nat)
    requires TileSize(t)
    ensures q < TileCount(Ones(mask), t) <==>
              exists lane :: 0 <= lane < |mask| && mask[lane] && Rank(mask, lane) / t == q
  {
    RankOfAll(mask);
    if q < TileCount(Ones(mask), t) {
      LeastRankOfTile(Ones(mask), q, t);
      var lane := MemberOfRank(mask, |mask|, q * t);
    }
    if lane :| 0 <= lane < |mask| && mask[lane] && Rank(mask, lane) / t == q {
      RanksAreDistinct(mask, lane, lane);
      QuotientsBelowCount(Ones(mask), Rank(mask, lane), t);
    }
  }

  // ---- the lane-scanning loop ----------------------------------------------------

  /** What the scan has selected after the first i lanes. */
  function TilePrefix(mask: Mask, lane: nat, t: nat, i: nat): (tile: Mask)
    requires lane < |mask| && t > 0
    ensures |tile| == |mask|
  {
    seq(|mask|, j requires 0 <= j < |mask| => j < i && TileMask(mask, lane, t)[j])
  }

  lemma {:induction false} TilePrefixGrows(mask: Mask, lane: nat, t: nat, i: nat)
    requires lane < |mask| && TileSize(t) && i < |mask|
    ensures var fits := mask[i] && 0 <= Rank(mask, i) - Floor(Rank(mask, lane), t) < t;
            TilePrefix(mask, lane, t, i + 1) ==
            if fits then TilePrefix(mask, lane, t, i)[i := true] else TilePrefix(mask, lane, t, i)
  {
    SameFloor(Rank(mask, i), Rank(mask, lane), t);
    var before, after := TilePrefix(mask, lane, t, i), TilePrefix(mask, lane, t, i + 1);
    assert after[i] == TileMask(mask, lane, t)[i];
    assert forall j :: 0 <= j < |mask| && j != i ==> after[j] == before[j];
  }

  method ScanTile(mask: Mask, rank: nat, t: nat, ghost lane: nat) returns (tile: Mask)
    requires TileSize(t) && lane < |mask| && rank == Rank(mask, lane)
    ensures tile == TileMask(mask, lane, t)
  {
    tile := Zeros(|mask|);
    FloorIsMultiple(rank, t);
    var memberRank := 0;
    var seenLanes: int := rank / t * t;
    ghost var base := Floor(rank, t);
    var i := 0;
    while i < |mask|
      invariant 0 <= i <= |mask|
      invariant seenLanes == base - Rank(mask, i)
      invariant memberRank == Clamp(Rank(mask, i) - base, t)
      invariant tile == TilePrefix(mask, lane, t, i)
    {
      RankStep(mask, i);
      TilePrefixGrows(mask, lane, t, i);
      if mask[i] {
        if seenLanes <= 0 && memberRank < t {
          tile := tile[i := true];
          memberRank := memberRank + 1;
        }
        seenLanes := seenLanes - 1;
      }
      i := i + 1;
    }
    assert TilePrefix(mask, lane, t, |mask|) == TileMask(mask, lane, t);
  }

  // ---- shift and mask ------------------------------------------------------------

  // (unsigned)(-1) >> (width - n)
  function LowOnes(width: nat, n: nat): Mask { seq(width, i => i < n) }

  // w << k: bits pushed past the width are lost
  function ShiftLeft(w: Mask, k: nat): Mask {
    seq(|w|, i requires 0 <= i < |w| => i >= k && w[i - k])
  }

  /** The fast branch's mask, as computed from the caller's rank and lane number and the group's size. */
  function FastMask(width: nat, size: nat, rank: nat, lane: nat, t: nat): Mask
    requires rank < size && t > 0 && AndNot(rank, t - 1) <= rank
  {
    ShiftLeft(LowOnes(width, Min(size - AndNot(rank, t - 1), t)), AndNot(lane, t - 1))
  }

  /** The members are the n consecutive lanes from `base` on. */
  ghost predicate Run(mask: Mask, base: nat, n: nat) {
    base + n <= |mask| && forall i :: 0 <= i < |mask| ==> (mask[i] <==> base <= i < base + n)
  }

  lemma {:induction false} RankInRun(mask: Mask, base: nat, n: nat, lane: nat)
    requires Run(mask, base, n) && lane <= |mask|
    ensures Rank(mask, lane) == Clamp(lane - base, n)
  {
    if lane > 0 {
      RankInRun(mask, base, n, lane - 1);
      RankStep(mask, lane - 1);
    }
  }

  lemma {:induction false} SizeOfRun(mask: Mask, base: nat, n: nat)
    requires Run(mask, base, n)
    ensures Ones(mask) == n
  {
    RankInRun(mask, base, n, |mask|);
    RankOfAll(mask);
  }

  lemma {:induction false} FastMaskIs(width: nat, size: nat, rank: nat, lane: nat, t: nat, start: nat, len: nat)
    requires rank < size && TileSize(t) && start == Floor(lane, t) && len == Min(size - Floor(rank, t), t)
    ensures AndNot(rank, t - 1) == Floor(rank, t)
    ensures |FastMask(width, size, rank, lane, t)| == width
    ensures forall i :: 0 <= i < width ==> (FastMask(width, size, rank, lane, t)[i] <==> start <= i < start + len)
  {
    RoundsDown(rank, t);
    RoundsDown(lane, t);
  }

  lemma {:induction false} FloorShifts(base: nat, d: nat, t: nat)
    requires t > 0 && IsMultiple(base, t)
    ensures Floor(base + d, t) == base + Floor(d, t)
    decreases base
  {
    if base > 0 {
      FloorShifts(base - t, d, t);
    }
  }

  /**
   * On a run of consecutive lanes the shift-and-mask form selects, for every member, exactly the lanes that the scan
   * selects, if and only if the run starts at a multiple of the tile size.
   */
  lemma {:induction false} FastFormRefinesScanIff(mask: Mask, base: nat, n: nat, t: nat)
    requires Run(mask, base, n) && TileSize(t) && t < n
    ensures (forall lane :: base <= lane < base + n ==>
               FastMaskAt(mask, n, lane - base, lane, t) == TileMask(mask, lane, t))
            <==> base % t == 0
  {
    MultipleIff(base, t);
    if base % t == 0 {
      forall lane | base <= lane < base + n
        ensures FastMaskAt(mask, n, lane - base, lane, t) == TileMask(mask, lane, t)
      {
        FastMemberMatches(mask, base, n, t, lane);
      }
    } else {
      FastMaskIs(|mask|, n, 0, base, t, Floor(base, t), t);
      assert FastMaskAt(mask, n, base - base, base, t)[Floor(base, t)];
      assert !TileMask(mask, base, t)[Floor(base, t)];
    }
  }

  function FastMaskAt(mask: Mask, size: nat, rank: nat, lane: nat, t: nat): (fast: Mask)
    requires rank < size && TileSize(t)
    ensures |fast| == |mask|
  {
    RoundsDown(rank, t);
    FastMask(|mask|, size, rank, lane, t)
  }

  /** On a run, a tile is again a run. */
  lemma {:induction false} TileOfRunIs(mask: Mask, base: nat, n: nat, t: nat, lane: nat, from: nat)
    requires Run(mask, base, n) && t > 0 && base <= lane < base + n && from == Floor(lane - base, t)
    ensures Run(TileMask(mask, lane, t), base + from, Min(n - from, t))
  {
    var tile := TileMask(mask, lane, t);
    RankInRun(mask, base, n, lane);
    forall i | 0 <= i < |mask| ensures tile[i] <==> base + from <= i < base + from + Min(n - from, t) {
      RankInRun(mask, base, n, i);
      if mask[i] {
        SameFloor(i - base, lane - base, t);
      }
    }
  }

  /** On a run that starts at a multiple of the tile size, so is what the shift-and-mask form selects. */
  lemma {:induction false} FastIsRun(mask: Mask, base: nat, n: nat, t: nat, lane: nat, from: nat)
    requires base + n <= |mask| && TileSize(t) && IsMultiple(base, t) && base <= lane < base + n
    requires from == Floor(lane - base, t)
    ensures Run(FastMaskAt(mask, n, lane - base, lane, t), base + from, Min(n - from, t))
  {
    FloorShifts(base, lane - base, t);
    FastMaskIs(|mask|, n, lane - base, lane, t, base + from, Min(n - from, t));
  }

  lemma {:induction false} RunsAreEqual(a: Mask, b: Mask, base: nat, n: nat)
    requires |a| == |b| && Run(a, base, n) && Run(b, base, n)
    ensures a == b
  {
  }

  lemma {:induction false} FastMemberMatches(mask: Mask, base: nat, n: nat, t: nat, lane: nat)
    requires Run(mask, base, n) && TileSize(t) && IsMultiple(base, t) && base <= lane < base + n
    ensures FastMaskAt(mask, n, lane - base, lane, t) == TileMask(mask, lane, t)
  {
    var from := Floor(lane - base, t);
    FastIsRun(mask, base, n, t, lane, from);
    TileOfRunIs(mask, base, n, t, lane, from);
    RunsAreEqual(FastMaskAt(mask, n, lane - base, lane, t), TileMask(mask, lane, t), base + from, Min(n - from, t));
  }

  // ---- coalesced_group::_get_tiled_threads -----------------------------------------

  ghost predicate IsGroup(g: Group) { g.size == Ones(g.mask) && |g.mask| == WARP }

  /** Consecutive lanes from a multiple of `align` on, at most `align` of them: what every tiled group's members are. */
  ghost predicate AlignedRun(mask: Mask, base: nat, align: nat) {
    TileSize(align) && IsMultiple(base, align) && Ones(mask) <= align && Run(mask, base, Ones(mask))
  }

  lemma {:induction false} HalfDivides(a: nat, t: nat)
    requires t > 0 && t % 2 == 0 && IsMultiple(a, t)
    ensures IsMultiple(a, t / 2)
    decreases a
  {
    if a > 0 {
      HalfDivides(a - t, t);
      assert Floor(a, t / 2) == Floor(a - t / 2, t / 2) + t / 2;
      assert Floor(a - t / 2, t / 2) == Floor(a - t, t / 2) + t / 2;
    }
  }

  lemma {:induction false} Divides(a: nat, t: nat, align: nat)
    requires TileSize(t) && TileSize(align) && t <= align && IsMultiple(a, align)
    ensures IsMultiple(a, t)
    decreases align
  {
    if t < align {
      HalfDivides(a, align);
      Divides(a, t, align / 2);
    }
  }

  /** On every tiled group the header builds, the fast branch yields the scan's tile, and again an aligned run. */
  lemma {:induction false} FastBranchIsTheTile(mask: Mask, base: nat, align: nat, lane: nat, t: nat)
    requires AlignedRun(mask, base, align) && |mask| == WARP && lane < WARP && mask[lane]
    requires TileSize(t) && t < Ones(mask)
    ensures Rank(mask, lane) == lane - base
    ensures FastMaskAt(mask, Ones(mask), Rank(mask, lane), lane, t) == TileMask(mask, lane, t)
    ensures AlignedRun(TileMask(mask, lane, t), Floor(lane, t), t)
  {
    Divides(base, t, align);
    RankInRun(mask, base, Ones(mask), lane);
    FastMemberMatches(mask, base, Ones(mask), t, lane);
    TileStart(base, lane, t);
    TileOfRun(mask, base, Ones(mask), lane, t, Floor(lane - base, t), Floor(lane, t));
  }

  lemma {:induction false} TileStart(base: nat, lane: nat, t: nat)
    requires t > 0 && IsMultiple(base, t) && base <= lane
    ensures Floor(lane, t) == base + Floor(lane - base, t)
    ensures IsMultiple(Floor(lane, t), t)
  {
    FloorShifts(base, lane - base, t);
    RoundedIsMultiple(lane, t);
  }

  lemma {:induction false} TileOfRun(mask: Mask, base: nat, n: nat, lane: nat, t: nat, from: nat, start: nat)
    requires Run(mask, base, n) && TileSize(t) && base <= lane < base + n && from == Floor(lane - base, t)
    requires start == base + from && IsMultiple(start, t)
    ensures AlignedRun(TileMask(mask, lane, t), start, t)
  {
    TileOfRunIs(mask, base, n, t, lane, from);
    RunIsAligned(TileMask(mask, lane, t), start, Min(n - from, t), t);
  }

  lemma {:induction false} RunIsAligned(tile: Mask, from: nat, len: nat, t: nat)
    requires Run(tile, from, len) && len <= t && TileSize(t) && IsMultiple(from, t)
    ensures AlignedRun(tile, from, t) && Ones(tile) == len
  {
    SizeOfRun(tile, from, len);
  }

  lemma {:induction false} RoundedIsMultiple(x: nat, t: nat)
    requires t > 0
    ensures IsMultiple(Floor(x, t), t)
    decreases x
  {
    if x >= t {
      RoundedIsMultiple(x - t, t);
    }
  }

  /**
   * The fast branch divides the size without rounding up, so its tile count is the number of tiles, and every member's
   * tile number lies below it, exactly when the tile size divides the group's size.
   */
  lemma {:induction false} FastCountIsRightIff(mask: Mask, t: nat)
    requires TileSize(t) && t < Ones(mask)
    ensures Ones(mask) / t == TileCount(Ones(mask), t) <==> Ones(mask) % t == 0
    ensures (forall lane :: 0 <= lane < |mask| && mask[lane] ==> Rank(mask, lane) / t < Ones(mask) / t)
            <==> Ones(mask) % t == 0
  {
    var size := Ones(mask);
    RankOfAll(mask);
    LastQuotient(size, t);
    if size % t == 0 {
      forall lane | 0 <= lane < |mask| && mask[lane] ensures Rank(mask, lane) / t < size / t {
        RanksAreDistinct(mask, lane, lane);
        QuotientsBelowCount(size, Rank(mask, lane), t);
      }
    } else {
      var lane := MemberOfRank(mask, |mask|, size - 1);
    }
  }

  lemma {:induction false} LastQuotient(size: nat, t: nat)
    requires TileSize(t) && size > 0
    ensures size / t == TileCount(size, t) <==> size % t == 0
    ensures (size - 1) / t == size / t <==> size % t != 0
  {
    if t == 1 {
    } else if t == 2 {
    } else if t == 4 {
    } else if t == 8 {
    } else if t == 16 {
    }
  }

  /** A group no larger than the tile size is its members' one tile. */
  lemma {:induction false} SmallGroupIsOneTile(mask: Mask, lane: nat, t: nat)
    requires lane < |mask| && mask[lane] && t > 0 && Ones(mask) <= t
    ensures TileMask(mask, lane, t) == mask
  {
    RanksAreDistinct(mask, lane, lane);
    forall i | 0 <= i < |mask| ensures TileMask(mask, lane, t)[i] == mask[i] {
      if mask[i] { RanksAreDistinct(mask, i, i); }
    }
  }

  /** The branch for tiled groups: no loop over the lanes. */
  method ShiftTile(mask: Mask, rank: nat, lane: nat, t: nat, ghost base: nat, ghost align: nat) returns (tile: Mask)
    requires |mask| == WARP && lane < WARP && mask[lane] && rank == Rank(mask, lane) && TileSize(t) && t < Ones(mask)
    ensures |tile| == WARP
    ensures AlignedRun(mask, base, align) ==> tile == TileMask(mask, lane, t) && AlignedRun(tile, Floor(lane, t), t)
  {
    RanksAreDistinct(mask, lane, lane);
    tile := FastMaskAt(mask, Ones(mask), rank, lane, t);
    if AlignedRun(mask, base, align) {
      FastBranchIsTheTile(mask, base, align, lane, t);
    }
  }

  /** The size test both versions begin with. */
  method IsTileSize(t: nat) returns (valid: bool)
    ensures valid <==> TileSize(t)
  {
    TileSizes(t);
    if t > 0 { PowerTest(t); }
    valid := t > 0 && t <= 32 && And(t, t - 1) == 0;
  }

  /**
   * The group of the caller's tile; details::abort() stops the thread, which leaves no group. Whichever branch runs,
   * the members are the scan's tile, given that a tiled group is an aligned run; the result is then one again.
   */
  method GetTiledThreads(g: Group, lane: nat, t: nat, ghost base: nat, ghost align: nat) returns (r: Option<Group>)
    requires IsGroup(g) && lane < WARP && g.mask[lane]
    ensures r == None <==> !TileSize(t)
    ensures TileSize(t) ==> IsGroup(r.value) && r.value.isTiled == g.isTiled
    ensures TileSize(t) && (g.isTiled ==> AlignedRun(g.mask, base, align)) ==> r.value.mask == TileMask(g.mask, lane, t)
    ensures TileSize(t) && g.isTiled && AlignedRun(g.mask, base, align) ==>
              if g.size <= t then AlignedRun(r.value.mask, base, align) else AlignedRun(r.value.mask, Floor(lane, t), t)
    ensures TileSize(t) && g.size <= t ==> r.value == g
    ensures TileSize(t) && g.size > t ==>
              && r.value.metaGroupRank == Rank(g.mask, lane) / t
              && r.value.metaGroupSize == if g.isTiled then g.size / t else TileCount(g.size, t)
  {
    var valid := IsTileSize(t);
    if !valid {
      return None;
    }
    if g.size <= t {
      SmallGroupIsOneTile(g.mask, lane, t);
      return Some(g);
    }
    var rank := Rank(g.mask, lane);
    RanksAreDistinct(g.mask, lane, lane);
    if g.isTiled {
      var mask := ShiftTile(g.mask, rank, lane, t, base, align);
      r := Some(FromMask(mask).(metaGroupSize := g.size / t, metaGroupRank := rank / t, isTiled := true));
    } else {
      var mask := ScanTile(g.mask, rank, t, lane);
      r := Some(FromMask(mask).(metaGroupSize := (g.size + t - 1) / t, metaGroupRank := rank / t));
    }
  }

  // ---- thread_block::_get_tiled_threads --------------------------------------------

  /** The lanes of the caller's warp whose threads exist and have the caller's tile number in the block. */
  ghost predicate BlockTile(mask: Mask, blockSize: nat, rank: nat, t: nat)
    requires t > 0
  {
    |mask| == WARP && forall i :: 0 <= i < WARP ==>
      (mask[i] <==> rank - rank % WARP + i < blockSize && (rank - rank % WARP + i) / t == rank / t)
  }

  /** `rank` of `blockSize` threads; its lane is the remainder by the warp width. */
  method GetBlockTile(blockSize: nat, rank: nat, t: nat) returns (r: Option<Group>)
    requires rank < blockSize
    ensures r == None <==> !TileSize(t)
    ensures TileSize(t) ==>
              && r.Some? && IsGroup(r.value) && r.value.isTiled
              && BlockTile(r.value.mask, blockSize, rank, t)
              && AlignedRun(r.value.mask, Floor(rank % WARP, t), t)
              && r.value.metaGroupSize == TileCount(blockSize, t) && r.value.metaGroupRank == rank / t
  {
    var valid := IsTileSize(t);
    if !valid {
      return None;
    }
    var mask := BlockMask(blockSize, rank, t);
    r := Some(FromMask(mask).(metaGroupSize := (blockSize + t - 1) / t, metaGroupRank := rank / t, isTiled := true));
  }

  method BlockMask(blockSize: nat, rank: nat, t: nat) returns (mask: Mask)
    requires rank < blockSize && TileSize(t)
    ensures BlockTile(mask, blockSize, rank, t)
    ensures AlignedRun(mask, Floor(rank % WARP, t), t)
  {
    var lane := rank % WARP;
    RoundsDown(rank, t);
    RoundsDown(lane, t);
    LaneOfRank(rank, t);
    var baseOffset := AndNot(rank, t - 1);
    var maskLength := Min(blockSize - baseOffset, t);
    mask := ShiftLeft(LowOnes(WARP, maskLength), AndNot(lane, t - 1));
    BlockRunIsTile(blockSize, rank, t, mask);
    RoundedIsMultiple(lane, t);
    RunIsAligned(mask, Floor(lane, t), maskLength, t);
  }

  lemma {:induction false} RaggedTileIs(mask: Mask)
    requires BlockTile(mask, 44, 40, 32) && AlignedRun(mask, 0, 32)
    ensures Ones(mask) == 12 && mask[8] && Rank(mask, 8) == 8
  {
    assert forall i :: 0 <= i < WARP ==> (mask[i] <==> i < 12);
    assert mask[11] && !mask[12];
    RankInRun(mask, 0, Ones(mask), 8);
  }

  /**
   * A block of 44 threads, its ragged tile of 32, and tiles of 8 in that: thread 40 is told that it is in tile 1 of 1,
   * while thread 32 is in tile 0.
   */
  method RaggedBlock() returns (tile: Group, part: Group)
    ensures tile.size == 12 && part.metaGroupRank == 1 && part.metaGroupSize == 1
  {
    var whole := GetBlockTile(44, 40, 32);
    tile := whole.value;
    RaggedTileIs(tile.mask);
    var split := GetTiledThreads(tile, 8, 8, 0, 32);
    part := split.value;
  }

  lemma {:induction false} BlockRunIsTile(blockSize: nat, rank: nat, t: nat, mask: Mask)
    requires rank < blockSize && TileSize(t) && |mask| == WARP
    requires Run(mask, Floor(rank % WARP, t), Min(blockSize - Floor(rank, t), t))
    ensures BlockTile(mask, blockSize, rank, t)
  {
    LaneOfRank(rank, t);
    forall i | 0 <= i < WARP
      ensures mask[i] <==> rank - rank % WARP + i < blockSize && (rank - rank % WARP + i) / t == rank / t
    {
      SameFloor(rank - rank % WARP + i, rank, t);
    }
  }

  lemma {:induction false} LaneOfRank(rank: nat, t: nat)
    requires TileSize(t)
    ensures Floor(rank, t) == rank - rank % WARP + Floor(rank % WARP, t)
    ensures Floor(rank % WARP, t) + t <= WARP
  {
    FloorIsMultiple(rank, 32);
    RoundedIsMultiple(rank, 32);
    Divides(Floor(rank, 32), t, 32);
    FloorShifts(Floor(rank, 32), rank % WARP, t);
    RoundedFits(rank % WARP, t);
  }

  lemma {:induction false} RoundedFits(lane: nat, t: nat)
    requires TileSize(t) && lane < 32
    ensures Floor(lane, t) + t <= 32
  {
    FloorIsMultiple(lane, t);
    if t == 1 {
    } else if t == 2 {
    } else if t == 4 {
    } else if t == 8 {
    } else if t == 16 {
    }
  }
}
