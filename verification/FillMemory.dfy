/** The sequential fill of core.c and ref.c, in place over the flat array of blocks. */
module FillMemory {
  import opened Words
  import opened Indexing
  import opened Recurrence

  /** `next_addresses`: count up, then compress the input block twice against the zero block. */
  method NextAddresses<B>(k: Kernel<B>, inst: Instance, pos: Position, counter: nat)
    returns (addressBlock: B, counter': nat)
    ensures counter' == counter + 1 && addressBlock == Addresses(k, inst, pos, counter')
  {
    counter' := counter + 1;
    addressBlock := k.compress(k.zero,
      k.input(pos.pass, pos.lane, pos.slice, inst.memoryBlocks, inst.passes, inst.ty, counter'));
    addressBlock := k.compress(k.zero, addressBlock);
  }

  lemma AddressesIgnoreIndex<B>(k: Kernel<B>, inst: Instance, p: Position, q: Position, counter: nat)
    requires p.pass == q.pass && p.lane == q.lane && p.slice == q.slice
    ensures Addresses(k, inst, p, counter) == Addresses(k, inst, q, counter)
  {
  }

  /** Offset of the block written at `t`, and of its cyclic predecessor in the lane. */
  function CurrOffset(inst: Instance, lane: nat, t: Time): nat {
    Offset(inst, lane, Column(inst.segmentLength, t))
  }

  function PrevOffset(inst: Instance, lane: nat, t: Time): nat
    requires inst.Valid() && !ReadyMade(t)
  {
    CurrOffset(inst, lane, Pred(inst.segmentLength, t))
  }

  lemma PrevIsCyclic(inst: Instance, lane: nat, t: Time)
    requires inst.Valid() && lane < inst.lanes && t.idx < inst.segmentLength && !ReadyMade(t)
    ensures Rem(CurrOffset(inst, lane, t), inst.laneLength) == Column(inst.segmentLength, t)
    ensures PrevOffset(inst, lane, t) == CurrOffset(inst, lane, t)
      + (if Column(inst.segmentLength, t) == 0 then inst.laneLength - 1 else -1)
  {
    hide Times, Quot, Rem, Column, Pred;
    OffsetInRange(inst, lane, t);
    QuotRemSplit(CurrOffset(inst, lane, t), inst.laneLength);
    TimesSplitUnique(inst.laneLength, lane, Column(inst.segmentLength, t),
      Quot(CurrOffset(inst, lane, t), inst.laneLength), Rem(CurrOffset(inst, lane, t), inst.laneLength));
    PrevColumn(inst.segmentLength, t);
  }

  lemma PrevColumn(n: nat, t: Time)
    requires n >= 2 && t.idx < n && !ReadyMade(t)
    ensures Column(n, Pred(n, t)) == if Column(n, t) == 0 then 4 * n - 1 else Column(n, t) - 1
  {
    hide Times;
    TimesSmall(t.seg % 4, n);
    if t.idx == 0 {
      SegmentBefore(t.seg);
      TimesSmall((t.seg - 1) % 4, n);
    }
  }

  lemma SegmentBefore(s: nat)
    requires s > 0
    ensures (s - 1) % 4 == if s % 4 == 0 then 3 else s % 4 - 1
  {
  }

  /** The block `fill_segment` draws at `t` from the 64-bit value `rand`, in machine arithmetic. */
  function RefOffset(inst: Instance, lane: nat, t: Time, rand: nat): nat
    requires inst.Valid() && lane < inst.lanes
  {
    var refLane := RefLane(inst, lane, t, rand);
    Offset(inst, refLane, IndexAlpha(inst, PositionAt(lane, t), rand % 0x1_0000_0000, refLane == lane))
  }

  /** The drawn block is one of the window, and `RefOffset` is its cell. */
  lemma RefOffsetExact(inst: Instance, lane: nat, t: Time, rand: nat)
    requires inst.Valid() && lane < inst.lanes && t.idx < inst.segmentLength && !ReadyMade(t)
    ensures inst.laneLength < 0x1_0000_0000
    ensures var refLane := RefLane(inst, lane, t, rand);
      RefOffset(inst, lane, t, rand)
      == CurrOffset(inst, refLane, RefTime(inst.segmentLength, t, refLane == lane, rand % 0x1_0000_0000))
  {
    LaneFits(inst);
    var refLane := RefLane(inst, lane, t, rand);
    IndexAlphaIsRefTime(inst, lane, t, refLane == lane, rand % 0x1_0000_0000);
  }

  /** What one iteration of the loop of `fill_segment` writes, given the memory it finds. */
  function Filled<B>(k: Kernel<B>, inst: Instance, mem: seq<B>, lane: nat, t: Time): B
    requires inst.Valid() && lane < inst.lanes && t.idx < inst.segmentLength && !ReadyMade(t)
    requires |mem| == inst.memoryBlocks
  {
    LaneFits(inst);
    var prev := Cell(inst, mem, lane, Pred(inst.segmentLength, t));
    var rand := PseudoRand(k, inst, lane, t, prev);
    var refLane := RefLane(inst, lane, t, rand);
    var w := RefTime(inst.segmentLength, t, refLane == lane, rand % 0x1_0000_0000);
    var filled := k.compress(prev, Cell(inst, mem, refLane, w));
    if WithXor(inst, t) then k.xor(filled, Cell(inst, mem, lane, t)) else filled
  }

  /** On a memory consistent with the recurrence, an iteration writes the next value of it. */
  lemma FilledIsValue<B>(k: Kernel<B>, inst: Instance, first: seq<B>, mem: seq<B>, prog: seq<Progress>, lane: nat)
    requires inst.Valid() && |first| == inst.memoryBlocks
    requires Consistent(k, inst, first, mem, prog)
    requires lane < inst.lanes && prog[lane].at.idx < inst.segmentLength && !prog[lane].writing
    requires InSegment(inst, prog, prog[lane].at.seg)
    ensures !ReadyMade(prog[lane].at)
    ensures Filled(k, inst, mem, lane, prog[lane].at) == Value(k, inst, first, lane, prog[lane].at)
  {
    hide Times, Column, Offset, PseudoRand, RefLane, RefTime, Cell, Holds;
    var t := prog[lane].at;
    LaneFits(inst);
    PredHolds(inst, prog[lane]);
    var prev := Value(k, inst, first, lane, Pred(inst.segmentLength, t));
    var rand := PseudoRand(k, inst, lane, t, prev);
    var refLane := RefLane(inst, lane, t, rand);
    RefHolds(inst, prog, lane, t, refLane, rand % 0x1_0000_0000);
    if WithXor(inst, t) {
      OldHolds(prog[lane]);
      OldCell(inst, mem, lane, t);
    }
  }

  /** A block and the one it replaces share a cell. */
  lemma OldCell<B>(inst: Instance, mem: seq<B>, lane: nat, t: Time)
    requires inst.Valid() && lane < inst.lanes && t.idx < inst.segmentLength && t.seg >= 4
    requires |mem| == inst.memoryBlocks
    ensures Cell(inst, mem, lane, Time(t.seg - 4, t.idx)) == Cell(inst, mem, lane, t)
  {
  }

  /** One lane moves on by one block. */
  lemma StepConsistent<B>(k: Kernel<B>, inst: Instance, first: seq<B>, mem: seq<B>, prog: seq<Progress>, lane: nat)
    requires inst.Valid() && |first| == inst.memoryBlocks
    requires Consistent(k, inst, first, mem, prog)
    requires lane < inst.lanes && prog[lane].at.idx < inst.segmentLength && !prog[lane].writing
    requires InSegment(inst, prog, prog[lane].at.seg)
    ensures !ReadyMade(prog[lane].at)
    ensures var off := CurrOffset(inst, lane, prog[lane].at);
      && off < |mem|
      && Consistent(k, inst, first, mem[off := Filled(k, inst, mem, lane, prog[lane].at)],
           prog[lane := Advance(prog[lane])])
  {
    hide Value;
    var at := prog[lane].at;
    FilledIsValue(k, inst, first, mem, prog, lane);
    var block := Value(k, inst, first, lane, at);
    Overwrite(k, inst, first, mem, prog, lane, block);
    var writing := prog[lane := Progress(at, true)];
    Complete(k, inst, first, mem[CurrOffset(inst, lane, at) := block], writing, lane);
    assert writing[lane := Advance(writing[lane])] == prog[lane := Advance(prog[lane])];
  }

  /** Steps 1.2.2 to 2 of an iteration: choose the reference block and fill the current one. */
  method FillNext<B>(k: Kernel<B>, inst: Instance, memory: array<B>, position: Position,
                     prevOffset: nat, currOffset: nat, pseudoRand: nat, ghost t: Time)
    requires inst.Valid() && memory.Length == inst.memoryBlocks
    requires position == PositionAt(position.lane, t) && position.lane < inst.lanes
    requires t.idx < inst.segmentLength && !ReadyMade(t)
    requires currOffset == CurrOffset(inst, position.lane, t)
    requires prevOffset == PrevOffset(inst, position.lane, t)
    requires var prev := Cell(inst, memory[..], position.lane, Pred(inst.segmentLength, t));
      pseudoRand == PseudoRand(k, inst, position.lane, t, prev)
    modifies memory
    ensures currOffset < memory.Length
    ensures memory[..] == old(memory[..])[currOffset := Filled(k, inst, old(memory[..]), position.lane, t)]
  {
    var lane := position.lane;
    var refLane := Rem(pseudoRand / 0x1_0000_0000, inst.lanes);
    if position.pass == 0 && position.slice == 0 {
      refLane := lane;
    }
    assert refLane == RefLane(inst, lane, t, pseudoRand);
    LaneFits(inst);
    var refIndex := IndexAlpha(inst, position, pseudoRand % 0x1_0000_0000, refLane == lane);
    RefOffsetExact(inst, lane, t, pseudoRand);
    ghost var w := RefTime(inst.segmentLength, t, refLane == lane, pseudoRand % 0x1_0000_0000);
    var refOffset := Offset(inst, refLane, refIndex);
    OffsetInRange(inst, lane, t);
    OffsetInRange(inst, refLane, w);
    OffsetInRange(inst, lane, Pred(inst.segmentLength, t));
    assert memory[refOffset] == Cell(inst, memory[..], refLane, w);
    var block := k.compress(memory[prevOffset], memory[refOffset]);
    if inst.version != VERSION_10 && position.pass != 0 {
      block := k.xor(block, memory[currOffset]);
    }
    memory[currOffset] := block;
  }

  /** Step 1.2.1 of an iteration: the pseudo-random value, from an address block refreshed every 128
      blocks, or from the previous block. */
  method DrawPseudoRand<B>(k: Kernel<B>, inst: Instance, prev: B, position: Position, dataIndependent: bool,
                           addressBlock: B, counter: nat)
    returns (pseudoRand: nat, addressBlock': B, counter': nat)
    requires position.slice < SYNC_POINTS
    requires dataIndependent == DataIndependent(inst, position.pass, position.slice)
    requires AddressesReady(k, inst, position, dataIndependent, addressBlock, counter)
    ensures pseudoRand
         == PseudoRand(k, inst, position.lane, Time(4 * position.pass + position.slice, position.index), prev)
    ensures AddressesReady(k, inst, position.(index := position.index + 1), dataIndependent, addressBlock', counter')
  {
    addressBlock', counter' := addressBlock, counter;
    if dataIndependent {
      if position.index % 128 == 0 {
        addressBlock', counter' := NextAddresses(k, inst, position, counter);
      }
      assert counter' == position.index / 128 + 1;
      pseudoRand := k.word(addressBlock', position.index % 128);
      AddressesIgnoreIndex(k, inst, position, position.(index := position.index + 1), counter');
    } else {
      pseudoRand := k.word(prev, 0);
    }
    assert PositionAt(position.lane, Time(4 * position.pass + position.slice, position.index)) == position;
  }

  /** Before iteration i the address counter is ceil(i / 128), and the block generated with it is at hand. */
  ghost predicate AddressesReady<B>(k: Kernel<B>, inst: Instance, pos: Position, dataIndependent: bool,
                                    addressBlock: B, counter: nat)
  {
    dataIndependent ==>
      && counter == (pos.index + 127) / 128
      && (counter > 0 ==> addressBlock == Addresses(k, inst, pos, counter))
  }

  /** The offsets at the head of iteration `t.idx`. At column 1 `prev_offset` is still to be rotated. */
  ghost predicate OffsetsReady(inst: Instance, lane: nat, t: Time, currOffset: nat, prevOffset: nat)
    requires inst.Valid()
  {
    t.idx < inst.segmentLength && !ReadyMade(t) ==>
      && currOffset == CurrOffset(inst, lane, t)
      && (Column(inst.segmentLength, t) != 1 ==> prevOffset == PrevOffset(inst, lane, t))
  }

  /** The incremented offsets are right again, except at column 1, where `prev_offset` is rotated. */
  lemma NextOffsets(inst: Instance, lane: nat, t: Time)
    requires inst.Valid() && lane < inst.lanes && t.idx < inst.segmentLength && !ReadyMade(t)
    ensures OffsetsReady(inst, lane, Time(t.seg, t.idx + 1), CurrOffset(inst, lane, t) + 1,
      PrevOffset(inst, lane, t) + 1)
  {
    if t.idx + 1 < inst.segmentLength {
      PrevIsCyclic(inst, lane, t);
      PrevIsCyclic(inst, lane, Time(t.seg, t.idx + 1));
    }
  }

  /** Lane `lane` at `t`, the others where `base` has them. */
  function LaneAt(base: seq<Progress>, lane: nat, t: Time): (prog: seq<Progress>)
    requires lane < |base|
  {
    base[lane := Progress(t, false)]
  }

  /** The body of the loop of `fill_segment`. */
  method Iteration<B>(k: Kernel<B>, inst: Instance, memory: array<B>, position: Position, dataIndependent: bool,
                      currOffset: nat, prevOffset: nat, addressBlock: B, counter: nat,
                      ghost first: seq<B>, ghost base: seq<Progress>, ghost t: Time)
    returns (currOffset': nat, prevOffset': nat, addressBlock': B, counter': nat)
    requires inst.Valid() && memory.Length == inst.memoryBlocks == |first|
    requires position.lane < inst.lanes && t.idx < inst.segmentLength
    requires position == PositionAt(position.lane, t)
    requires |base| == inst.lanes && InSegment(inst, base, t.seg) && NotAfter(Start(t.seg), t)
    requires Consistent(k, inst, first, memory[..], LaneAt(base, position.lane, t))
    requires dataIndependent == DataIndependent(inst, position.pass, position.slice)
    requires OffsetsReady(inst, position.lane, t, currOffset, prevOffset)
    requires AddressesReady(k, inst, position, dataIndependent, addressBlock, counter)
    modifies memory
    ensures currOffset' == currOffset + 1
    ensures OffsetsReady(inst, position.lane, Time(t.seg, t.idx + 1), currOffset', prevOffset')
    ensures AddressesReady(k, inst, position.(index := t.idx + 1), dataIndependent, addressBlock', counter')
    ensures Consistent(k, inst, first, memory[..], LaneAt(base, position.lane, Time(t.seg, t.idx + 1)))
    ensures forall off :: 0 <= off < memory.Length && off != currOffset ==> memory[off] == old(memory[off])
  {
    hide Consistent, Value, PseudoRand, Addresses, Times, Rem, Column;
    var lane := position.lane;
    PrevIsCyclic(inst, lane, t);
    prevOffset' := prevOffset;
    if Rem(currOffset, inst.laneLength) == 1 {
      prevOffset' := currOffset - 1;
    }
    OffsetInRange(inst, lane, Pred(inst.segmentLength, t));
    var pseudoRand;
    pseudoRand, addressBlock', counter' :=
      DrawPseudoRand(k, inst, memory[prevOffset'], position, dataIndependent, addressBlock, counter);
    StepConsistent(k, inst, first, memory[..], LaneAt(base, lane, t), lane);
    assert LaneAt(base, lane, t)[lane := Progress(Time(t.seg, t.idx + 1), false)]
        == LaneAt(base, lane, Time(t.seg, t.idx + 1));
    FillNext(k, inst, memory, position, prevOffset', currOffset, pseudoRand, t);
    NextOffsets(inst, lane, t);
    currOffset', prevOffset' := currOffset + 1, prevOffset' + 1;
  }

  /** The offsets `fill_segment` starts from, in segment `seg` of `lane`. */
  lemma FirstOffsets(inst: Instance, lane: nat, seg: nat, currOffset: nat)
    requires inst.Valid() && lane < inst.lanes
    requires currOffset == Times(lane, inst.laneLength) + Times(seg % 4, inst.segmentLength) + Start(seg).idx
    ensures Rem(currOffset, inst.laneLength) != 0 ==> currOffset > 0
    ensures currOffset == Offset(inst, lane, Times(seg % 4, inst.segmentLength)) + Start(seg).idx
    ensures OffsetsReady(inst, lane, Start(seg), currOffset,
      if Rem(currOffset, inst.laneLength) == 0 then currOffset + inst.laneLength - 1 else currOffset - 1)
  {
    if Start(seg).idx < inst.segmentLength {
      PrevIsCyclic(inst, lane, Start(seg));
    }
  }

  /** `fill_segment`, with its own offset and address-block bookkeeping. Only the cells of the segment
      change, and they end with the values of the recurrence. */
  method FillSegment<B>(k: Kernel<B>, inst: Instance, memory: array<B>, position: Position,
                        ghost first: seq<B>, ghost prog: seq<Progress>)
    requires inst.Valid() && memory.Length == inst.memoryBlocks == |first|
    requires position.lane < inst.lanes && position.slice < SYNC_POINTS
    requires |prog| == inst.lanes && InSegment(inst, prog, 4 * position.pass + position.slice)
    requires Consistent(k, inst, first, memory[..], prog)
    requires prog[position.lane] == Progress(Start(4 * position.pass + position.slice), false)
    modifies memory
    ensures Consistent(k, inst, first, memory[..],
      LaneAt(prog, position.lane, Time(4 * position.pass + position.slice, inst.segmentLength)))
    ensures var lo := Offset(inst, position.lane, Times(position.slice, inst.segmentLength));
      forall off :: 0 <= off < memory.Length && !(lo <= off < lo + inst.segmentLength) ==>
        memory[off] == old(memory[off])
  {
    hide Consistent, Value, PseudoRand, Addresses, Times, Rem, Column, OffsetsReady, Instance.Valid;
    var lane := position.lane;
    ghost var seg := 4 * position.pass + position.slice;
    ghost var lo := Offset(inst, lane, Times(position.slice, inst.segmentLength));
    assert seg / 4 == position.pass && seg % 4 == position.slice;
    var dataIndependent := inst.ty == ARGON2_I
      || (inst.ty == ARGON2_ID && position.pass == 0 && position.slice < SYNC_POINTS / 2);
    var counter, addressBlock := 0, k.zero;
    var startingIndex := 0;
    if position.pass == 0 && position.slice == 0 {
      startingIndex := 2;
      if dataIndependent {
        addressBlock, counter := NextAddresses(k, inst, position, counter);
        AddressesIgnoreIndex(k, inst, position, position.(index := 2), counter);
      }
    }
    var currOffset := Times(lane, inst.laneLength) + Times(position.slice, inst.segmentLength) + startingIndex;
    FirstOffsets(inst, lane, seg, currOffset);
    var prevOffset: nat := if Rem(currOffset, inst.laneLength) == 0 then currOffset + inst.laneLength - 1
      else currOffset - 1;

    var i := startingIndex;
    assert LaneAt(prog, lane, Start(seg)) == prog;
    while i < inst.segmentLength
      invariant startingIndex <= i <= inst.segmentLength
      invariant currOffset == lo + i
      invariant OffsetsReady(inst, lane, Time(seg, i), currOffset, prevOffset)
      invariant AddressesReady(k, inst, position.(index := i), dataIndependent, addressBlock, counter)
      invariant Consistent(k, inst, first, memory[..], LaneAt(prog, lane, Time(seg, i)))
      invariant forall off :: 0 <= off < memory.Length && !(lo <= off < lo + inst.segmentLength) ==>
        memory[off] == old(memory[off])
    {
      currOffset, prevOffset, addressBlock, counter :=
        Iteration(k, inst, memory, position.(index := i), dataIndependent, currOffset, prevOffset,
                  addressBlock, counter, first, prog, Time(seg, i));
      i := i + 1;
    }
  }

  /** The progress while a segment is filled lane after lane: the first `done` lanes are at its end. */
  function LanesDone(inst: Instance, seg: nat, done: nat): (prog: seq<Progress>)
    requires inst.Valid()
    ensures |prog| == inst.lanes
    ensures done == 0 ==> prog == AllAt(inst, Start(seg))
    ensures done == inst.lanes ==> prog == AllAt(inst, Time(seg, inst.segmentLength))
    ensures done < inst.lanes ==> prog[done] == Progress(Start(seg), false)
    ensures InSegment(inst, prog, seg)
  {
    seq(inst.lanes, l => Progress(if l < done then Time(seg, inst.segmentLength) else Start(seg), false))
  }

  lemma OneLaneMore(inst: Instance, seg: nat, done: nat)
    requires inst.Valid() && done < inst.lanes
    ensures LaneAt(LanesDone(inst, seg, done), done, Time(seg, inst.segmentLength)) == LanesDone(inst, seg, done + 1)
  {
  }

  /** `fill_memory_blocks_st`: pass after pass, slice after slice, lane after lane. */
  method FillMemoryBlocksSt<B>(k: Kernel<B>, inst: Instance, memory: array<B>)
    requires inst.Valid() && memory.Length == inst.memoryBlocks
    modifies memory
    ensures memory[..] == FinalMemory(k, inst, old(memory[..]))
  {
    hide Consistent, Value, InSegment, Times;
    ghost var first := memory[..];
    Initially(k, inst, first);
    var r := 0;
    while r < inst.passes
      invariant r <= inst.passes
      invariant Consistent(k, inst, first, memory[..], AllAt(inst, Start(4 * r)))
    {
      var s := 0;
      while s < SYNC_POINTS
        invariant s <= SYNC_POINTS
        invariant Consistent(k, inst, first, memory[..], AllAt(inst, Start(4 * r + s)))
      {
        var l := 0;
        while l < inst.lanes
          invariant l <= inst.lanes
          invariant Consistent(k, inst, first, memory[..], LanesDone(inst, 4 * r + s, l))
        {
          FillSegment(k, inst, memory, Position(r, l, s, 0), first, LanesDone(inst, 4 * r + s, l));
          OneLaneMore(inst, 4 * r + s, l);
          l := l + 1;
        }
        NextSegment(k, inst, first, memory[..], 4 * r + s);
        s := s + 1;
      }
      r := r + 1;
    }
    Finally(k, inst, first, memory[..]);
  }

  /** `finalize` up to the hashing: the xor of the last blocks of all lanes, into a local block. */
  method FinalBlock<B>(k: Kernel<B>, inst: Instance, memory: array<B>, ghost first: seq<B>) returns (blockhash: B)
    requires inst.Valid() && memory.Length == |first| == inst.memoryBlocks
    requires memory[..] == FinalMemory(k, inst, first)
    ensures blockhash == LastBlocks(k, inst, first, inst.lanes)
  {
    hide Value, FinalMemory;
    LastOffset(inst, 0);
    FinalMemoryCell(k, inst, first, 0, LastTime(inst));
    blockhash := memory[inst.laneLength - 1];
    var l := 1;
    while l < inst.lanes
      invariant 1 <= l <= inst.lanes
      invariant blockhash == LastBlocks(k, inst, first, l)
    {
      var lastBlockInLane := Times(l, inst.laneLength) + (inst.laneLength - 1);
      LastOffset(inst, l);
      FinalMemoryCell(k, inst, first, l, LastTime(inst));
      blockhash := k.xor(blockhash, memory[lastBlockInLane]);
      l := l + 1;
    }
  }

  lemma LastOffset(inst: Instance, lane: nat)
    requires inst.Valid() && lane < inst.lanes
    ensures CurrOffset(inst, lane, LastTime(inst)) == Times(lane, inst.laneLength) + (inst.laneLength - 1)
         < inst.memoryBlocks
  {
    OffsetInRange(inst, lane, LastTime(inst));
    TimesSmall(3, inst.segmentLength);
  }
}
