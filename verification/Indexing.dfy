/** The reference-block choice of core.c (`index_alpha`) and the RFC 9106 window it draws from.

    A block of a lane is named by the moment it is written: `Time(seg, idx)` is block `idx` of
    global segment `seg == 4 * pass + slice`. Times order all writes of a lane, over all passes. */
module Indexing {
  import opened Words

  const SYNC_POINTS: nat := 4
  const VERSION_10: nat := 0x10
  const VERSION_13: nat := 0x13

  const ARGON2_D: int := 0
  const ARGON2_I: int := 1
  const ARGON2_ID: int := 2

  /** The derived sizes of `argon2_instance_t` (the memory pointer is passed separately). */
  datatype Instance = Instance(
    version: nat, passes: nat, memoryBlocks: nat, segmentLength: nat,
    laneLength: nat, lanes: nat, threads: nat, ty: int)
  {
    /** What `argon2_ctx` guarantees of the instances it builds. */
    predicate Valid() {
      && 1 <= passes < 0x1_0000_0000
      && 2 <= segmentLength
      && laneLength == SYNC_POINTS * segmentLength
      && 1 <= threads <= lanes
      && memoryBlocks == Times(lanes, laneLength) < 0x1_0000_0000
    }
  }

  datatype Position = Position(pass: nat, lane: nat, slice: nat, index: nat)

  datatype Time = Time(seg: nat, idx: nat)

  predicate Before(a: Time, b: Time) {
    a.seg < b.seg || (a.seg == b.seg && a.idx < b.idx)
  }

  predicate NotAfter(a: Time, b: Time) { a == b || Before(a, b) }

  // ---- index_alpha, in its own machine arithmetic ----

  function ReferenceAreaSize(inst: Instance, pos: Position, sameLane: bool): u32 {
    if pos.pass == 0 then
      if pos.slice == 0 then U32(pos.index - 1)
      else if sameLane then U32(U32(Times(pos.slice, inst.segmentLength)) + pos.index - 1)
      else U32(U32(Times(pos.slice, inst.segmentLength)) + (if pos.index == 0 then 0xFFFF_FFFF else 0))
    else if sameLane then U32(U32(U32(inst.laneLength - inst.segmentLength) + pos.index) - 1)
    else U32(U32(inst.laneLength - inst.segmentLength) + (if pos.index == 0 then 0xFFFF_FFFF else 0))
  }

  function StartPosition(inst: Instance, pos: Position): u32 {
    if pos.pass == 0 || pos.slice == SYNC_POINTS - 1 then 0
    else U32(Times(pos.slice + 1, inst.segmentLength))
  }

  /** The position relative to the start of the window. */
  function RelativePosition(area: u32, pseudoRand: u32): u64 {
    var squared := U64(Times(pseudoRand, pseudoRand)) / 0x1_0000_0000;
    U64(U32(area - 1) - U64(Times(area, squared)) / 0x1_0000_0000)
  }

  function IndexAlpha(inst: Instance, pos: Position, pseudoRand: u32, sameLane: bool): u32
    requires inst.laneLength > 0
  {
    var relative := RelativePosition(ReferenceAreaSize(inst, pos, sameLane), pseudoRand);
    U32(Rem(U64(StartPosition(inst, pos) + relative), inst.laneLength))
  }

  // ---- the window of section 3.4.2 of RFC 9106, in times ----

  /** The oldest segment still in memory and outside the running one. */
  function Oldest(seg: nat): nat { if seg < 3 then 0 else seg - 3 }

  function Pred(segLen: nat, t: Time): Time
    requires segLen >= 2 && (t.seg > 0 || t.idx > 0)
  {
    if t.idx > 0 then Time(t.seg, t.idx - 1) else Time(t.seg - 1, segLen - 1)
  }

  /** The set W for the block written at `t`: the blocks of the last three finished segments and, in
      the same lane, those of the running segment; without the previous block in the same lane, and
      without the last of W when the first block of a segment refers to another lane. */
  predicate InWindow(segLen: nat, t: Time, sameLane: bool, w: Time)
    requires segLen >= 2 && (t.seg > 0 || t.idx > 0)
  {
    && w.idx < segLen
    && Oldest(t.seg) <= w.seg
    && (w.seg < t.seg || (sameLane && Before(w, t)))
    && (sameLane || t.idx == 0 ==> w != Pred(segLen, t))
  }

  /** Positions at which a reference is drawn: the first two blocks of a lane are ready-made, and
      segment 0 only refers to its own lane. */
  predicate Draws(segLen: nat, t: Time, sameLane: bool) {
    && segLen >= 2 && t.idx < segLen
    && (t.seg == 0 ==> t.idx >= 2 && sameLane)
  }

  /** |W|, see `RankInWindow` and `WindowHasRank`. */
  function AreaSize(segLen: nat, t: Time, sameLane: bool): int {
    (if t.seg == 0 then 0 else if t.seg == 1 then segLen else if t.seg == 2 then 2 * segLen else 3 * segLen)
    + (if sameLane then t.idx - 1 else if t.idx == 0 then -1 else 0)
  }

  /** The block of rank `rank` (0 is the oldest) among those from segment `base` on. */
  function RankTime(segLen: nat, base: nat, rank: nat): Time
    requires rank < 4 * segLen
  {
    if rank < segLen then Time(base, rank)
    else if rank < 2 * segLen then Time(base + 1, rank - segLen)
    else if rank < 3 * segLen then Time(base + 2, rank - 2 * segLen)
    else Time(base + 3, rank - 3 * segLen)
  }

  /** Its inverse. */
  function TimeRank(segLen: nat, base: nat, w: Time): nat
    requires base <= w.seg <= base + 3
  {
    w.idx + (if w.seg == base then 0 else if w.seg == base + 1 then segLen
             else if w.seg == base + 2 then 2 * segLen else 3 * segLen)
  }

  lemma AreaBounds(segLen: nat, t: Time, sameLane: bool)
    requires Draws(segLen, t, sameLane)
    ensures 1 <= AreaSize(segLen, t, sameLane) <= 4 * segLen - 2
  {
  }

  /** Ranks below the area size name blocks of the window. */
  lemma RankInWindow(segLen: nat, t: Time, sameLane: bool, rank: nat)
    requires Draws(segLen, t, sameLane) && rank < AreaSize(segLen, t, sameLane)
    ensures AreaSize(segLen, t, sameLane) <= 4 * segLen - 2
    ensures InWindow(segLen, t, sameLane, RankTime(segLen, Oldest(t.seg), rank))
    ensures TimeRank(segLen, Oldest(t.seg), RankTime(segLen, Oldest(t.seg), rank)) == rank
  {
    AreaBounds(segLen, t, sameLane);
  }

  /** Every block of the window has a rank below the area size: W has exactly that many blocks. */
  lemma WindowHasRank(segLen: nat, t: Time, sameLane: bool, w: Time)
    requires Draws(segLen, t, sameLane) && InWindow(segLen, t, sameLane, w)
    ensures AreaSize(segLen, t, sameLane) <= 4 * segLen - 2
    ensures Oldest(t.seg) <= w.seg <= Oldest(t.seg) + 3
    ensures TimeRank(segLen, Oldest(t.seg), w) < AreaSize(segLen, t, sameLane)
    ensures RankTime(segLen, Oldest(t.seg), TimeRank(segLen, Oldest(t.seg), w)) == w
  {
    AreaBounds(segLen, t, sameLane);
  }

  // ---- the mapping from a 32-bit value to a rank ----

  /** floor(area * floor(j^2 / 2^32) / 2^32): how far below the newest block of the window. */
  function Depth(area: nat, j: u32): nat { Times(area, Times(j, j) / 0x1_0000_0000) / 0x1_0000_0000 }

  lemma SquareBounds(j: u32)
    ensures Times(j, j) < 0x1_0000_0000_0000_0000
    ensures Times(j, j) / 0x1_0000_0000 <= 0xFFFF_FFFE
  {
    TimesMono(j, 0xFFFF_FFFF, j);
    TimesMono(j, 0xFFFF_FFFF, 0xFFFF_FFFF);
    TimesIsProduct(0xFFFF_FFFF, 0xFFFF_FFFF);
  }

  lemma DepthBounds(area: nat, j: u32)
    requires 1 <= area < 0x1_0000_0000
    ensures 0 <= Depth(area, j) < area
    ensures Times(area, Times(j, j) / 0x1_0000_0000) < 0x1_0000_0000_0000_0000
  {
    SquareBounds(j);
    TimesMono(Times(j, j) / 0x1_0000_0000, 0xFFFF_FFFE, area);
    TimesIsProduct(area, 0xFFFF_FFFE);
  }

  /** The rank in the window of the block drawn by the 32-bit value `j`. */
  function RefRank(segLen: nat, t: Time, sameLane: bool, j: u32): (rank: nat)
    requires Draws(segLen, t, sameLane) && 4 * segLen < 0x1_0000_0000
    ensures rank < AreaSize(segLen, t, sameLane) <= 4 * segLen - 2
  {
    AreaBounds(segLen, t, sameLane);
    var area := AreaSize(segLen, t, sameLane);
    DepthBounds(area, j);
    area - 1 - Depth(area, j)
  }

  /** The block referred to from `t` when the 32-bit value is `j`. */
  function RefTime(segLen: nat, t: Time, sameLane: bool, j: u32): (w: Time)
    requires Draws(segLen, t, sameLane) && 4 * segLen < 0x1_0000_0000
    ensures InWindow(segLen, t, sameLane, w)
  {
    RankInWindow(segLen, t, sameLane, RefRank(segLen, t, sameLane, j));
    RankTime(segLen, Oldest(t.seg), RefRank(segLen, t, sameLane, j))
  }

  /** The column a time occupies in its lane. */
  function Column(segLen: nat, t: Time): nat { Times(t.seg % 4, segLen) + t.idx }

  function PositionAt(lane: nat, t: Time): Position {
    Position(t.seg / 4, lane, t.seg % 4, t.idx)
  }

  lemma NoWrap(x: nat)
    requires x < 0x1_0000_0000
    ensures U32(x) == x
    ensures x >= 1 ==> U32(x + (0xFFFF_FFFF)) == x - 1
  {
  }

  lemma LaneFits(inst: Instance)
    requires inst.Valid()
    ensures inst.laneLength < 0x1_0000_0000
  {
    TimesMono(1, inst.lanes, inst.laneLength);
    TimesSmall(1, inst.laneLength);
  }

  lemma AreaExact(inst: Instance, lane: nat, t: Time, sameLane: bool)
    requires inst.Valid() && Draws(inst.segmentLength, t, sameLane)
    ensures ReferenceAreaSize(inst, PositionAt(lane, t), sameLane) == AreaSize(inst.segmentLength, t, sameLane)
  {
    LaneFits(inst);
    if t.seg < 4 {
      TimesSmall(t.seg, inst.segmentLength);
      AreaExactFirstPass(inst, lane, t, sameLane, Times(t.seg, inst.segmentLength));
    } else {
      AreaExactLaterPass(inst, PositionAt(lane, t), sameLane);
    }
  }

  lemma AreaExactLaterPass(inst: Instance, pos: Position, sameLane: bool)
    requires inst.segmentLength >= 2 && inst.laneLength == 4 * inst.segmentLength < 0x1_0000_0000
    requires pos.pass > 0 && pos.index < inst.segmentLength
    ensures ReferenceAreaSize(inst, pos, sameLane)
         == 3 * inst.segmentLength + (if sameLane then pos.index - 1 else if pos.index == 0 then -1 else 0)
  {
    var base := inst.laneLength - inst.segmentLength;
    NoWrap(base);
    NoWrap(base + pos.index);
    NoWrap(base + pos.index - 1);
  }

  lemma AreaExactFirstPass(inst: Instance, lane: nat, t: Time, sameLane: bool, base: nat)
    requires inst.Valid() && Draws(inst.segmentLength, t, sameLane)
    requires t.seg < 4 && base == Times(t.seg, inst.segmentLength) && base + t.idx < 0x1_0000_0000
    ensures ReferenceAreaSize(inst, PositionAt(lane, t), sameLane)
         == base + (if sameLane then t.idx - 1 else if t.idx == 0 then -1 else 0)
  {
    var pos := PositionAt(lane, t);
    assert pos.pass == 0 && pos.slice == t.seg;
    NoWrap(base);
    if t.seg > 0 {
      TimesMono(1, t.seg, inst.segmentLength);
      TimesSmall(1, inst.segmentLength);
    }
  }

  function WrapOnce(x: nat, m: nat): int { if x < m then x else x - m }

  lemma StartExact(inst: Instance, lane: nat, t: Time)
    requires inst.Valid()
    ensures StartPosition(inst, PositionAt(lane, t)) == Times(Oldest(t.seg) % 4, inst.segmentLength) < inst.laneLength
  {
    LaneFits(inst);
    var k := Oldest(t.seg) % 4;
    TimesSmall(k, inst.segmentLength);
    if t.seg >= 4 {
      assert (t.seg - 3) % 4 == (t.seg % 4 + 1) % 4;
    }
    NoWrap(Times(k, inst.segmentLength));
  }

  lemma NoWrap64(x: nat)
    requires x < 0x1_0000_0000_0000_0000
    ensures U64(x) == x
  {
  }

  lemma RelativeExact(area: nat, j: u32)
    requires 1 <= area < 0x1_0000_0000
    ensures RelativePosition(area, j) == area - 1 - Depth(area, j)
  {
    SquareBounds(j);
    DepthBounds(area, j);
    var squared := Times(j, j) / 0x1_0000_0000;
    NoWrap64(Times(j, j));
    NoWrap64(Times(area, squared));
    NoWrap(area - 1);
    NoWrap64(area - 1 - Times(area, squared) / 0x1_0000_0000);
  }

  /** `index_alpha` never wraps around on the positions `fill_segment` reaches: it returns the column of
      the block that the window mapping of RFC 9106 names. */
  lemma IndexAlphaIsRefTime(inst: Instance, lane: nat, t: Time, sameLane: bool, j: u32)
    requires inst.Valid() && Draws(inst.segmentLength, t, sameLane)
    ensures inst.laneLength < 0x1_0000_0000
    ensures IndexAlpha(inst, PositionAt(lane, t), j, sameLane)
         == Column(inst.segmentLength, RefTime(inst.segmentLength, t, sameLane, j)) < inst.laneLength
  {
    hide IndexAlpha, RefRank, Column, Times, RankTime, WrapOnce;
    IndexAlphaExact(inst, lane, t, sameLane, j);
    RankColumn(inst.segmentLength, Oldest(t.seg), RefRank(inst.segmentLength, t, sameLane, j));
  }

  lemma IndexAlphaExact(inst: Instance, lane: nat, t: Time, sameLane: bool, j: u32)
    requires inst.Valid() && Draws(inst.segmentLength, t, sameLane)
    ensures inst.laneLength < 0x1_0000_0000
    ensures IndexAlpha(inst, PositionAt(lane, t), j, sameLane)
         == WrapOnce(Times(Oldest(t.seg) % 4, inst.segmentLength) + RefRank(inst.segmentLength, t, sameLane, j),
                     inst.laneLength)
  {
    LaneFits(inst);
    AreaExact(inst, lane, t, sameLane);
    var rank := RefRank(inst.segmentLength, t, sameLane, j);
    RelativeExact(AreaSize(inst.segmentLength, t, sameLane), j);
    StartExact(inst, lane, t);
    IndexAlphaFrom(inst, PositionAt(lane, t), j, sameLane, rank);
  }

  lemma IndexAlphaFrom(inst: Instance, pos: Position, j: u32, sameLane: bool, rank: nat)
    requires 0 < inst.laneLength < 0x1_0000_0000
    requires rank < inst.laneLength && StartPosition(inst, pos) < inst.laneLength
    requires RelativePosition(ReferenceAreaSize(inst, pos, sameLane), j) == rank
    ensures IndexAlpha(inst, pos, j, sameLane) == WrapOnce(StartPosition(inst, pos) + rank, inst.laneLength)
  {
    hide Times, Rem, RelativePosition, ReferenceAreaSize, StartPosition;
    NoWrap64(StartPosition(inst, pos) + rank);
    NoWrap(WrapOnce(StartPosition(inst, pos) + rank, inst.laneLength));
  }

  lemma RankColumn(segLen: nat, base: nat, rank: nat)
    requires segLen > 0 && rank < 4 * segLen
    ensures var start := Times(base % 4, segLen);
      Column(segLen, RankTime(segLen, base, rank)) == WrapOnce(start + rank, 4 * segLen) < 4 * segLen
  {
    hide RankTime, Times;
    var d := RankAt(segLen, base, rank);
    LaterSegment(base, d);
    SumSmall(base % 4, d, segLen);
  }

  lemma RankAt(segLen: nat, base: nat, rank: nat) returns (d: nat)
    requires segLen > 0 && rank < 4 * segLen
    ensures d < 4 && Times(d, segLen) <= rank < Times(d, segLen) + segLen
    ensures RankTime(segLen, base, rank) == Time(base + d, rank - Times(d, segLen))
  {
    hide Times;
    d := if rank < segLen then 0 else if rank < 2 * segLen then 1 else if rank < 3 * segLen then 2 else 3;
    TimesSmall(d, segLen);
  }

  lemma SumSmall(a: nat, b: nat, n: nat)
    requires a < 4 && b < 4
    ensures Times(a, n) + Times(b, n) == if a + b < 4 then Times(a + b, n) else Times(a + b - 4, n) + 4 * n
    ensures Times(if a + b < 4 then a + b else a + b - 4, n) <= 3 * n
  {
    TimesIsProduct(a, n);
    TimesIsProduct(b, n);
    TimesSmall(if a + b < 4 then a + b else a + b - 4, n);
    hide Times;
    if a + b < 4 {
      TimesIsProduct(a + b, n);
    } else {
      TimesIsProduct(a + b - 4, n);
    }
  }

  lemma LaterSegment(base: nat, d: nat)
    requires d < 4
    ensures (base + d) % 4 == if base % 4 + d < 4 then base % 4 + d else base % 4 + d - 4
  {
  }

  // ---- monotone, and onto exactly up to 2^31 ----

  lemma DepthMonotone(area: nat, i: u32, j: u32)
    requires i <= j
    ensures Depth(area, i) <= Depth(area, j)
  {
    TimesMono(i, j, i);
    TimesMono(i, j, j);
    TimesMono(Times(i, i) / 0x1_0000_0000, Times(j, j) / 0x1_0000_0000, area);
  }

  /** A larger pseudo-random value never picks a newer block. */
  lemma RefTimeMonotone(segLen: nat, t: Time, sameLane: bool, i: u32, j: u32)
    requires Draws(segLen, t, sameLane) && 4 * segLen < 0x1_0000_0000
    requires i <= j
    ensures NotAfter(RefTime(segLen, t, sameLane, j), RefTime(segLen, t, sameLane, i))
  {
    hide Depth, Times, AreaSize, InWindow;
    AreaBounds(segLen, t, sameLane);
    var area := AreaSize(segLen, t, sameLane);
    DepthBounds(area, i);
    DepthBounds(area, j);
    DepthMonotone(area, i, j);
  }

  /** Neighbouring values move the depth by at most one while the area is at most 2^31. */
  lemma DepthStep(area: nat, j: nat)
    requires area <= 0x8000_0000 && j + 1 < 0x1_0000_0000
    ensures Depth(area, j + 1) <= Depth(area, j) + 1
  {
    var x, y := Times(j, j) / 0x1_0000_0000, Times(j + 1, j + 1) / 0x1_0000_0000;
    TimesNext(j, j);
    TimesNext(j, j + 1);
    assert y <= x + 2;
    TimesMono(y, x + 2, area);
    TimesNext(area, x);
    TimesNext(area, x + 1);
  }

  lemma TimesNext(a: nat, b: nat)
    ensures Times(a, b + 1) == Times(a, b) + a
  {
    TimesIsProduct(a, b);
    TimesIsProduct(a, b + 1);
  }

  lemma DepthEnds(area: nat)
    requires 1 <= area < 0x1_0000_0000
    ensures Depth(area, 0) == 0
    ensures Depth(area, 0xFFFF_FFFF) == if area <= 0x8000_0000 then area - 1 else area - 2
  {
    TimesIsProduct(0xFFFF_FFFF, 0xFFFF_FFFF);
    TimesIsProduct(area, 0xFFFF_FFFE);
    TimesIsProduct(0, 0);
    TimesIsProduct(area, 0);
  }

  /** Discrete intermediate values: every depth up to that of `j` is hit at or below `j`. */
  lemma {:induction false} DepthHits(area: nat, j: u32, d: nat) returns (i: u32)
    requires area <= 0x8000_0000 && d <= Depth(area, j)
    ensures i <= j && Depth(area, i) == d
  {
    if Depth(area, j) == d {
      i := j;
    } else {
      if j == 0 {
        TimesIsProduct(area, 0);
      }
      DepthStep(area, j - 1);
      i := DepthHits(area, j - 1, d);
    }
  }

  ghost predicate Hit(segLen: nat, t: Time, sameLane: bool, w: Time)
    requires Draws(segLen, t, sameLane) && 4 * segLen < 0x1_0000_0000
  {
    exists j: u32 :: RefTime(segLen, t, sameLane, j) == w
  }

  /** Every block of the window is picked by some 32-bit value if and only if the window has at most
      2^31 blocks; above that the oldest block of the window is never picked. */
  lemma OntoIffAtMostHalf(segLen: nat, t: Time, sameLane: bool)
    requires Draws(segLen, t, sameLane) && 4 * segLen < 0x1_0000_0000
    ensures (forall w: Time :: InWindow(segLen, t, sameLane, w) ==> Hit(segLen, t, sameLane, w))
       <==> AreaSize(segLen, t, sameLane) <= 0x8000_0000
    ensures AreaSize(segLen, t, sameLane) > 0x8000_0000 ==>
      && InWindow(segLen, t, sameLane, Time(Oldest(t.seg), 0))
      && !Hit(segLen, t, sameLane, Time(Oldest(t.seg), 0))
  {
    hide Depth, Times, AreaSize, InWindow;
    AreaBounds(segLen, t, sameLane);
    var area := AreaSize(segLen, t, sameLane);
    DepthEnds(area);
    if area <= 0x8000_0000 {
      forall w: Time | InWindow(segLen, t, sameLane, w)
        ensures Hit(segLen, t, sameLane, w)
      {
        WindowHasRank(segLen, t, sameLane, w);
        var rank := TimeRank(segLen, Oldest(t.seg), w);
        var j := DepthHits(area, 0xFFFF_FFFF, area - 1 - rank);
        assert RefTime(segLen, t, sameLane, j) == w;
      }
    } else {
      RankInWindow(segLen, t, sameLane, 0);
      var oldest := RankTime(segLen, Oldest(t.seg), 0);
      forall j: u32
        ensures RefTime(segLen, t, sameLane, j) != oldest
      {
        DepthMonotone(area, j, 0xFFFF_FFFF);
        DepthBounds(area, j);
      }
    }
  }
}
