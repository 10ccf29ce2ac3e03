/** What the memory fill computes: the block recurrence of sections 3.2 and 3.4 of RFC 9106, over
    times, and the relation between it and a memory that is only partly filled. */
module Recurrence {
  import opened Words
  import opened Indexing

  /** The block operations of ref.c. Everything below holds for any choice of them. */
  datatype Kernel<!B> = Kernel(
    compress: (B, B) -> B,                                  // G(previous, reference)
    xor: (B, B) -> B,
    word: (B, nat) -> nat,                                  // 64-bit word of a block
    zero: B,
    input: (nat, nat, nat, nat, nat, int, nat) -> B)        // words 0..6 of the address input block

  /** Address block number `counter` of a segment. */
  function Addresses<B>(k: Kernel<B>, inst: Instance, pos: Position, counter: nat): B {
    var input := k.input(pos.pass, pos.lane, pos.slice, inst.memoryBlocks, inst.passes, inst.ty, counter);
    k.compress(k.zero, k.compress(k.zero, input))
  }

  predicate DataIndependent(inst: Instance, pass: nat, slice: nat) {
    inst.ty == ARGON2_I || (inst.ty == ARGON2_ID && pass == 0 && slice < SYNC_POINTS / 2)
  }

  /** The 64-bit value that picks the reference block of `t`. */
  function PseudoRand<B>(k: Kernel<B>, inst: Instance, lane: nat, t: Time, prev: B): nat {
    var pos := PositionAt(lane, t);
    if DataIndependent(inst, pos.pass, pos.slice) then
      k.word(Addresses(k, inst, pos, t.idx / 128 + 1), t.idx % 128)
    else k.word(prev, 0)
  }

  function RefLane(inst: Instance, lane: nat, t: Time, rand: nat): (r: nat)
    requires inst.Valid() && lane < inst.lanes
    ensures r < inst.lanes
    ensures t.seg == 0 ==> r == lane
  {
    if t.seg == 0 then lane else Rem(rand / 0x1_0000_0000, inst.lanes)
  }

  predicate WithXor(inst: Instance, t: Time) { inst.version != VERSION_10 && t.seg >= 4 }

  /** The first two blocks of every lane are made from the initial hash, not by the recurrence. */
  predicate ReadyMade(t: Time) { t.seg == 0 && t.idx < 2 }

  function Offset(inst: Instance, lane: nat, col: nat): nat { Times(lane, inst.laneLength) + col }

  lemma OffsetInRange(inst: Instance, lane: nat, t: Time)
    requires inst.Valid() && lane < inst.lanes && t.idx < inst.segmentLength
    ensures Column(inst.segmentLength, t) < inst.laneLength
    ensures Offset(inst, lane, Column(inst.segmentLength, t)) < inst.memoryBlocks
  {
    TimesSmall(t.seg % 4, inst.segmentLength);
    TimesMono(lane + 1, inst.lanes, inst.laneLength);
  }

  /** The content of the cell in which the block of time `t` lives. */
  function Cell<B>(inst: Instance, mem: seq<B>, lane: nat, t: Time): B
    requires inst.Valid() && lane < inst.lanes && t.idx < inst.segmentLength
    requires |mem| == inst.memoryBlocks
  {
    OffsetInRange(inst, lane, t);
    mem[Offset(inst, lane, Column(inst.segmentLength, t))]
  }

  /** The block written to `lane` at time `t`, given the memory `first` that holds the ready-made
      blocks. The predecessor is cyclic in the lane, the reference is drawn from the window, and from
      the second pass on (except in version 0x10) the overwritten block is xored in. */
  function Value<B>(k: Kernel<B>, inst: Instance, first: seq<B>, lane: nat, t: Time): B
    requires inst.Valid() && lane < inst.lanes && t.idx < inst.segmentLength
    requires |first| == inst.memoryBlocks
    decreases t.seg, t.idx
  {
    if ReadyMade(t) then Cell(inst, first, lane, t)
    else
      LaneFits(inst);
      var prev := Value(k, inst, first, lane, Pred(inst.segmentLength, t));
      var rand := PseudoRand(k, inst, lane, t, prev);
      var refLane := RefLane(inst, lane, t, rand);
      var w := RefTime(inst.segmentLength, t, refLane == lane, rand % 0x1_0000_0000);
      var filled := k.compress(prev, Value(k, inst, first, refLane, w));
      if WithXor(inst, t) then k.xor(filled, Value(k, inst, first, lane, Time(t.seg - 4, t.idx)))
      else filled
  }

  /** The value of the reference block of `t`, whichever random value the previous block gives. */
  function RefValue<B>(k: Kernel<B>, inst: Instance, first: seq<B>, lane: nat, t: Time): B
    requires inst.Valid() && lane < inst.lanes && t.idx < inst.segmentLength && !ReadyMade(t)
    requires |first| == inst.memoryBlocks
  {
    LaneFits(inst);
    var rand := RandValue(k, inst, first, lane, t);
    var refLane := RefLane(inst, lane, t, rand);
    Value(k, inst, first, refLane, RefTime(inst.segmentLength, t, refLane == lane, rand % 0x1_0000_0000))
  }

  function PredValue<B>(k: Kernel<B>, inst: Instance, first: seq<B>, lane: nat, t: Time): B
    requires inst.Valid() && lane < inst.lanes && t.idx < inst.segmentLength && !ReadyMade(t)
    requires |first| == inst.memoryBlocks
  {
    Value(k, inst, first, lane, Pred(inst.segmentLength, t))
  }

  function RandValue<B>(k: Kernel<B>, inst: Instance, first: seq<B>, lane: nat, t: Time): nat
    requires inst.Valid() && lane < inst.lanes && t.idx < inst.segmentLength && !ReadyMade(t)
    requires |first| == inst.memoryBlocks
  {
    PseudoRand(k, inst, lane, t, PredValue(k, inst, first, lane, t))
  }

  lemma ValueReady<B>(k: Kernel<B>, inst: Instance, first: seq<B>, lane: nat, t: Time)
    requires inst.Valid() && lane < inst.lanes && t.idx < inst.segmentLength && ReadyMade(t)
    requires |first| == inst.memoryBlocks
    ensures Value(k, inst, first, lane, t) == Cell(inst, first, lane, t)
  {
  }

  lemma ValueUnfolds<B>(k: Kernel<B>, inst: Instance, first: seq<B>, lane: nat, t: Time)
    requires inst.Valid() && lane < inst.lanes && t.idx < inst.segmentLength && !ReadyMade(t)
    requires |first| == inst.memoryBlocks
    ensures var filled := k.compress(PredValue(k, inst, first, lane, t), RefValue(k, inst, first, lane, t));
      Value(k, inst, first, lane, t)
      == if WithXor(inst, t) then k.xor(filled, Value(k, inst, first, lane, Time(t.seg - 4, t.idx))) else filled
  {
    hide Times, PseudoRand, RefTime, RefLane, Column, Pred, WithXor, Cell;
  }

  // ---- what the reference positions depend on ----

  /** Argon2i, and Argon2id in the first half of the first pass: neither the value drawn, nor the lane, nor
      the block referred to depends on the memory, and so on the password. */
  lemma ReferencesFixed<B>(k: Kernel<B>, inst: Instance, first: seq<B>, other: seq<B>, lane: nat, t: Time)
    requires inst.Valid() && lane < inst.lanes && t.idx < inst.segmentLength && !ReadyMade(t)
    requires |first| == |other| == inst.memoryBlocks
    requires inst.ty == 1 || (inst.ty == 2 && t.seg < 2)
    ensures RandValue(k, inst, first, lane, t) == RandValue(k, inst, other, lane, t)
    ensures forall p: B, q: B {:trigger PseudoRand(k, inst, lane, t, p), PseudoRand(k, inst, lane, t, q)} ::
      PseudoRand(k, inst, lane, t, p) == PseudoRand(k, inst, lane, t, q)
  {
    hide Value, Addresses;
  }

  /** Argon2d, and Argon2id from the third segment on: the value is the first word of the previous block. */
  lemma ReferencesFromPrevious<B>(k: Kernel<B>, inst: Instance, lane: nat, t: Time, prev: B)
    requires inst.ty == 0 || (inst.ty == 2 && t.seg >= 2)
    ensures PseudoRand(k, inst, lane, t, prev) == k.word(prev, 0)
  {
    hide Addresses;
  }

  // ---- partly filled memories ----

  /** How far a lane is: `at` is the next block to write; while `writing`, the cell of `at` is in flux. */
  datatype Progress = Progress(at: Time, writing: bool)

  /** The block of time `t` is in memory: written before `at`, not yet overwritten. */
  predicate Holds(p: Progress, t: Time) {
    && Before(t, p.at)
    && (if p.writing then Before(p.at, Time(t.seg + 4, t.idx)) else NotAfter(p.at, Time(t.seg + 4, t.idx)))
  }

  ghost predicate Consistent<B>(k: Kernel<B>, inst: Instance, first: seq<B>, mem: seq<B>, prog: seq<Progress>)
    requires inst.Valid() && |first| == inst.memoryBlocks
  {
    && |mem| == inst.memoryBlocks
    && |prog| == inst.lanes
    && forall lane: nat, t: Time {:trigger Value(k, inst, first, lane, t)} ::
         lane < inst.lanes && t.idx < inst.segmentLength && Holds(prog[lane], t) ==>
         Cell(inst, mem, lane, t) == Value(k, inst, first, lane, t)
  }

  function Start(seg: nat): Time { Time(seg, if seg == 0 then 2 else 0) }

  /** Every lane is somewhere between the start and the end of segment `seg`. */
  predicate InSegment(inst: Instance, prog: seq<Progress>, seg: nat) {
    forall lane :: 0 <= lane < |prog| ==>
      && prog[lane].at.seg == seg && prog[lane].at.idx <= inst.segmentLength
      && (prog[lane].writing ==> prog[lane].at.idx < inst.segmentLength)
      && NotAfter(Start(seg), prog[lane].at)
  }

  // ---- the reads of one iteration are all of blocks that hold still ----

  /** Whatever the other lanes are doing in segment `t.seg`, the block drawn at `t` is in memory and no
      lane is about to write it. */
  lemma RefHolds(inst: Instance, prog: seq<Progress>, lane: nat, t: Time, refLane: nat, j: u32)
    requires inst.Valid() && |prog| == inst.lanes && InSegment(inst, prog, t.seg)
    requires lane < inst.lanes && refLane < inst.lanes && (t.seg == 0 ==> refLane == lane)
    requires prog[lane].at == t && t.idx < inst.segmentLength
    ensures 4 * inst.segmentLength < 0x1_0000_0000
    ensures Holds(prog[refLane], RefTime(inst.segmentLength, t, refLane == lane, j))
  {
    LaneFits(inst);
  }

  lemma PredHolds(inst: Instance, p: Progress)
    requires inst.Valid() && p.at.idx < inst.segmentLength && NotAfter(Start(p.at.seg), p.at)
    ensures Holds(p, Pred(inst.segmentLength, p.at))
  {
  }

  lemma OldHolds(p: Progress)
    requires !p.writing && p.at.seg >= 4
    ensures Holds(p, Time(p.at.seg - 4, p.at.idx))
  {
  }

  // ---- writing ----

  /** Two blocks share a cell only if they are in the same lane and a multiple of four segments apart. */
  lemma CellsDiffer(inst: Instance, l1: nat, t1: Time, l2: nat, t2: Time)
    requires inst.Valid() && l1 < inst.lanes && l2 < inst.lanes
    requires t1.idx < inst.segmentLength && t2.idx < inst.segmentLength
    requires Offset(inst, l1, Column(inst.segmentLength, t1)) == Offset(inst, l2, Column(inst.segmentLength, t2))
    ensures l1 == l2 && t1.seg % 4 == t2.seg % 4 && t1.idx == t2.idx
  {
    OffsetInRange(inst, l1, t1);
    OffsetInRange(inst, l2, t2);
    TimesSplitUnique(inst.laneLength, l1, Column(inst.segmentLength, t1), l2, Column(inst.segmentLength, t2));
    TimesSplitUnique(inst.segmentLength, t1.seg % 4, t1.idx, t2.seg % 4, t2.idx);
  }

  /** No block that is in memory lives in a cell that is being written. */
  lemma HeldElsewhere(inst: Instance, prog: seq<Progress>, lane: nat, m: nat, t: Time)
    requires inst.Valid() && |prog| == inst.lanes
    requires lane < inst.lanes && prog[lane].writing && prog[lane].at.idx < inst.segmentLength
    requires m < inst.lanes && t.idx < inst.segmentLength && Holds(prog[m], t)
    ensures Offset(inst, m, Column(inst.segmentLength, t))
         != Offset(inst, lane, Column(inst.segmentLength, prog[lane].at))
  {
    if Offset(inst, m, Column(inst.segmentLength, t))
       == Offset(inst, lane, Column(inst.segmentLength, prog[lane].at)) {
      CellsDiffer(inst, m, t, lane, prog[lane].at);
    }
  }

  lemma CellElsewhere<B>(inst: Instance, mem: seq<B>, off: nat, x: B, lane: nat, t: Time)
    requires inst.Valid() && lane < inst.lanes && t.idx < inst.segmentLength
    requires |mem| == inst.memoryBlocks && off < |mem|
    requires Offset(inst, lane, Column(inst.segmentLength, t)) != off
    ensures Cell(inst, mem[off := x], lane, t) == Cell(inst, mem, lane, t)
  {
    OffsetInRange(inst, lane, t);
  }

  /** A lane may put anything at all in the cell it is about to fill. */
  lemma Overwrite<B>(k: Kernel<B>, inst: Instance, first: seq<B>, mem: seq<B>, prog: seq<Progress>, lane: nat, x: B)
    requires inst.Valid() && |first| == inst.memoryBlocks
    requires Consistent(k, inst, first, mem, prog)
    requires lane < inst.lanes && prog[lane].at.idx < inst.segmentLength
    ensures var off := Offset(inst, lane, Column(inst.segmentLength, prog[lane].at));
      && off < |mem|
      && Consistent(k, inst, first, mem[off := x], prog[lane := Progress(prog[lane].at, true)])
  {
    var at := prog[lane].at;
    OffsetInRange(inst, lane, at);
    var off := Offset(inst, lane, Column(inst.segmentLength, at));
    var prog' := prog[lane := Progress(at, true)];
    forall m: nat, t: Time | m < inst.lanes && t.idx < inst.segmentLength && Holds(prog'[m], t)
      ensures Cell(inst, mem[off := x], m, t) == Value(k, inst, first, m, t)
    {
      HeldElsewhere(inst, prog', lane, m, t);
      CellElsewhere(inst, mem, off, x, m, t);
      assert Holds(prog[m], t);
    }
  }

  function Advance(p: Progress): Progress { Progress(Time(p.at.seg, p.at.idx + 1), false) }

  /** Once the cell holds its value, the lane has moved on by one block. */
  lemma Complete<B>(k: Kernel<B>, inst: Instance, first: seq<B>, mem: seq<B>, prog: seq<Progress>, lane: nat)
    requires inst.Valid() && |first| == inst.memoryBlocks
    requires Consistent(k, inst, first, mem, prog)
    requires lane < inst.lanes && prog[lane].writing && prog[lane].at.idx < inst.segmentLength
    requires Cell(inst, mem, lane, prog[lane].at) == Value(k, inst, first, lane, prog[lane].at)
    ensures Consistent(k, inst, first, mem, prog[lane := Advance(prog[lane])])
  {
    var prog' := prog[lane := Advance(prog[lane])];
    forall m: nat, t: Time | m < inst.lanes && t.idx < inst.segmentLength && Holds(prog'[m], t)
      ensures Cell(inst, mem, m, t) == Value(k, inst, first, m, t)
    {
      if m != lane {
        assert Holds(prog[m], t);
      } else if t != prog[lane].at {
        assert Holds(prog[lane], t);
      }
    }
  }

  // ---- whole passes ----

  /** The end of one segment is the start of the next. */
  lemma NextSegment<B>(k: Kernel<B>, inst: Instance, first: seq<B>, mem: seq<B>, seg: nat)
    requires inst.Valid() && |first| == inst.memoryBlocks
    requires Consistent(k, inst, first, mem, AllAt(inst, Time(seg, inst.segmentLength)))
    ensures Consistent(k, inst, first, mem, AllAt(inst, Start(seg + 1)))
  {
    var prog, prog' := AllAt(inst, Time(seg, inst.segmentLength)), AllAt(inst, Start(seg + 1));
    forall lane: nat, t: Time | lane < inst.lanes && t.idx < inst.segmentLength && Holds(prog'[lane], t)
      ensures Cell(inst, mem, lane, t) == Value(k, inst, first, lane, t)
    {
      assert Holds(prog[lane], t);
    }
  }

  function AllAt(inst: Instance, t: Time): (prog: seq<Progress>)
    ensures |prog| == inst.lanes
  {
    seq(inst.lanes, lane => Progress(t, false))
  }

  lemma Initially<B>(k: Kernel<B>, inst: Instance, first: seq<B>)
    requires inst.Valid() && |first| == inst.memoryBlocks
    ensures Consistent(k, inst, first, first, AllAt(inst, Start(0)))
  {
    forall lane: nat, t: Time |
      lane < inst.lanes && t.idx < inst.segmentLength && Holds(AllAt(inst, Start(0))[lane], t)
      ensures Cell(inst, first, lane, t) == Value(k, inst, first, lane, t)
    {
      assert ReadyMade(t);
    }
  }

  /** The lane and the last time of the cell at offset `off`. */
  function FinalLane(inst: Instance, off: nat): (lane: nat)
    requires inst.Valid() && off < inst.memoryBlocks
    ensures lane < inst.lanes
  {
    QuotBelow(off, inst.laneLength, inst.lanes);
    Quot(off, inst.laneLength)
  }

  function FinalTime(inst: Instance, off: nat): (t: Time)
    requires inst.Valid() && off < inst.memoryBlocks
    ensures t.idx < inst.segmentLength
    ensures 4 * (inst.passes - 1) <= t.seg < 4 * inst.passes
  {
    var col := Rem(off, inst.laneLength);
    TimesSmall(4, inst.segmentLength);
    QuotBelow(col, inst.segmentLength, 4);
    Time(4 * (inst.passes - 1) + Quot(col, inst.segmentLength), Rem(col, inst.segmentLength))
  }

  lemma FinalCell(inst: Instance, off: nat)
    requires inst.Valid() && off < inst.memoryBlocks
    ensures Offset(inst, FinalLane(inst, off), Column(inst.segmentLength, FinalTime(inst, off))) == off
  {
    hide Times, Quot, Rem;
    QuotRemSplit(off, inst.laneLength);
    var col := Rem(off, inst.laneLength);
    QuotRemSplit(col, inst.segmentLength);
    TimesSmall(4, inst.segmentLength);
    QuotBelow(col, inst.segmentLength, 4);
    Split4(4 * (inst.passes - 1) + Quot(col, inst.segmentLength), inst.passes - 1, Quot(col, inst.segmentLength));
  }

  /** The memory after the last pass: every cell holds the last block written to it. */
  function FinalMemory<B>(k: Kernel<B>, inst: Instance, first: seq<B>): (mem: seq<B>)
    requires inst.Valid() && |first| == inst.memoryBlocks
    ensures |mem| == inst.memoryBlocks
  {
    seq(inst.memoryBlocks, off requires 0 <= off < inst.memoryBlocks =>
      Value(k, inst, first, FinalLane(inst, off), FinalTime(inst, off)))
  }

  lemma Finally<B>(k: Kernel<B>, inst: Instance, first: seq<B>, mem: seq<B>)
    requires inst.Valid() && |first| == inst.memoryBlocks
    requires Consistent(k, inst, first, mem, AllAt(inst, Start(4 * inst.passes)))
    ensures mem == FinalMemory(k, inst, first)
  {
    forall off: nat | off < inst.memoryBlocks
      ensures mem[off] == FinalMemory(k, inst, first)[off]
    {
      var t := FinalTime(inst, off);
      var lane := FinalLane(inst, off);
      FinalCell(inst, off);
      assert Holds(AllAt(inst, Start(4 * inst.passes))[lane], t);
      assert Cell(inst, mem, lane, t) == Value(k, inst, first, lane, t);
    }
  }

  /** In the last pass the final memory is the recurrence. */
  lemma FinalMemoryCell<B>(k: Kernel<B>, inst: Instance, first: seq<B>, lane: nat, t: Time)
    requires inst.Valid() && |first| == inst.memoryBlocks
    requires lane < inst.lanes && t.idx < inst.segmentLength
    requires 4 * (inst.passes - 1) <= t.seg < 4 * inst.passes
    ensures Cell(inst, FinalMemory(k, inst, first), lane, t) == Value(k, inst, first, lane, t)
  {
    hide Times, Quot, Rem, Value, Offset, Column, FinalTime, FinalLane;
    OffsetInRange(inst, lane, t);
    var off := Offset(inst, lane, Column(inst.segmentLength, t));
    FinalCell(inst, off);
    CellsDiffer(inst, lane, t, FinalLane(inst, off), FinalTime(inst, off));
    SameInPass(inst.passes, t.seg, FinalTime(inst, off).seg);
  }

  lemma SameInPass(passes: nat, s: nat, t: nat)
    requires 4 * (passes - 1) <= s < 4 * passes && 4 * (passes - 1) <= t < 4 * passes && s % 4 == t % 4
    ensures s == t
  {
  }

  /** The time of the last block of every lane. */
  function LastTime(inst: Instance): (t: Time)
    requires inst.Valid()
  {
    Time(4 * inst.passes - 1, inst.segmentLength - 1)
  }

  /** The xor of the last blocks of the first `n` lanes (step 7 of section 3.2 of RFC 9106). */
  function LastBlocks<B>(k: Kernel<B>, inst: Instance, first: seq<B>, n: nat): B
    requires inst.Valid() && |first| == inst.memoryBlocks && 1 <= n <= inst.lanes
  {
    var last := Value(k, inst, first, n - 1, LastTime(inst));
    if n == 1 then last else k.xor(LastBlocks(k, inst, first, n - 1), last)
  }
}
