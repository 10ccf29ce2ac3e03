/** `fill_first_blocks` of core.c, and that the rest of the memory may start out with any contents. */
module FirstBlocks {
  import opened Words
  import opened Indexing
  import opened Recurrence
  import opened Blake2b
  import opened Blake2bLong
  import opened FillBlock

  // ---- blocks as bytes ----

  function Load64(s: seq<byte>): u64
    requires |s| == 8
  {
    FromLeRoundTrip(s);
    PowersOf256();
    FromLe(s)
  }

  /** A block from its 1024 bytes: 128 little-endian words. */
  function FromBytes(s: seq<byte>): Block
    requires |s| == 1024
  {
    seq(128, i requires 0 <= i < 128 => Load64(s[8 * i..8 * i + 8]))
  }

  /** The first `n` words as bytes. */
  function WordBytes(b: Block, n: nat): (s: seq<byte>)
    requires n <= 128
    ensures |s| == 8 * n
  {
    if n == 0 then [] else WordBytes(b, n - 1) + Le(b[n - 1], 8)
  }

  function ToBytes(b: Block): (s: seq<byte>)
    ensures |s| == 1024
  {
    WordBytes(b, 128)
  }

  lemma {:induction false} WordBytesAt(b: Block, n: nat, i: nat)
    requires i < n <= 128
    ensures WordBytes(b, n)[8 * i..8 * i + 8] == Le(b[i], 8)
  {
    hide Le;
    if i == n - 1 {
      assert WordBytes(b, n)[8 * i..8 * i + 8] == Le(b[n - 1], 8);
    } else {
      WordBytesAt(b, n - 1, i);
      assert WordBytes(b, n)[8 * i..8 * i + 8] == WordBytes(b, n - 1)[8 * i..8 * i + 8];
    }
  }

  /** Loading what was stored gives the block back. */
  lemma LoadStored(b: Block)
    ensures FromBytes(ToBytes(b)) == b
  {
    forall i | 0 <= i < 128
      ensures FromBytes(ToBytes(b))[i] == b[i]
    {
      WordBytesAt(b, 128, i);
      PowersOf256();
      LeRoundTrip(b[i], 8);
    }
  }

  /** Blocks are hashed as different strings if they are different. */
  lemma StoreInjective(a: Block, b: Block)
    requires ToBytes(a) == ToBytes(b)
    ensures a == b
  {
    LoadStored(a);
    LoadStored(b);
  }

  /** `load_block`. */
  method LoadBlock(input: seq<byte>) returns (b: Block)
    requires |input| == 1024
    ensures b == FromBytes(input)
  {
    hide Load64;
    b := ZeroBlock();
    var i := 0;
    while i < 128
      invariant i <= 128
      invariant forall j :: 0 <= j < i ==> b[j] == FromBytes(input)[j]
    {
      b := b[i := Load64(input[8 * i..8 * i + 8])];
      i := i + 1;
    }
    assert b == FromBytes(input);
  }

  /** `store_block`. */
  method StoreBlock(src: Block) returns (output: seq<byte>)
    ensures output == ToBytes(src)
  {
    output := [];
    var i := 0;
    while i < 128
      invariant i <= 128 && output == WordBytes(src, i)
    {
      output := output + Le(src[i], 8);
      i := i + 1;
    }
  }

  // ---- the first two blocks of every lane ----

  /** B[l][i] for i < 2, steps 3 and 4 of section 3.2 of RFC 9106. */
  function FirstBlock<H(!new)>(alg: Alg<H>, h0: seq<byte>, l: nat, i: nat): Block
    requires alg.Valid()
  {
    FromBytes(HPrime(alg, 1024, h0 + Le(i, 4) + Le(l, 4)))
  }

  /** A memory with those blocks, zeros elsewhere. */
  function FirstMemory<H(!new)>(alg: Alg<H>, inst: Instance, h0: seq<byte>): (first: seq<Block>)
    requires alg.Valid() && inst.Valid()
    ensures |first| == inst.memoryBlocks
  {
    seq(inst.memoryBlocks, off requires 0 <= off < inst.memoryBlocks =>
      if Rem(off, inst.laneLength) < 2 then FirstBlock(alg, h0, Quot(off, inst.laneLength), Rem(off, inst.laneLength))
      else ZeroBlock())
  }

  /** The cells in which the two memories must agree. */
  ghost predicate SameStart<B>(inst: Instance, a: seq<B>, b: seq<B>)
    requires inst.Valid() && |a| == |b| == inst.memoryBlocks
  {
    forall l: nat, i: nat :: l < inst.lanes && i < 2 ==>
      StartOffset(inst, l, i) < inst.memoryBlocks && a[StartOffset(inst, l, i)] == b[StartOffset(inst, l, i)]
  }

  function StartOffset(inst: Instance, l: nat, i: nat): nat { Offset(inst, l, i) }

  lemma StartOffsetInRange(inst: Instance, l: nat, i: nat)
    requires inst.Valid() && l < inst.lanes && i < 2
    ensures StartOffset(inst, l, i) < inst.memoryBlocks
    ensures StartOffset(inst, l, i) == Offset(inst, l, Column(inst.segmentLength, Time(0, i)))
    ensures Quot(StartOffset(inst, l, i), inst.laneLength) == l && Rem(StartOffset(inst, l, i), inst.laneLength) == i
  {
    OffsetInRange(inst, l, Time(0, i));
    TimesSmall(0, inst.segmentLength);
    QuotRemSplit(StartOffset(inst, l, i), inst.laneLength);
    TimesSplitUnique(inst.laneLength, l, i, Quot(StartOffset(inst, l, i), inst.laneLength),
                     Rem(StartOffset(inst, l, i), inst.laneLength));
  }

  lemma StartsApart(inst: Instance, l: nat, i: nat, m: nat, j: nat)
    requires inst.Valid() && l < inst.lanes && i < 2 && m < inst.lanes && j < 2
    requires StartOffset(inst, l, i) == StartOffset(inst, m, j)
    ensures l == m && i == j
  {
    StartOffsetInRange(inst, l, i);
    StartOffsetInRange(inst, m, j);
  }

  /** No block depends on what the memory held before, beyond the ready-made blocks: uninitialised
      memory never reaches the result. */
  lemma {:induction false} ValueFromStart<B>(k: Kernel<B>, inst: Instance, a: seq<B>, b: seq<B>, lane: nat, t: Time)
    requires inst.Valid() && |a| == |b| == inst.memoryBlocks && SameStart(inst, a, b)
    requires lane < inst.lanes && t.idx < inst.segmentLength
    ensures Value(k, inst, a, lane, t) == Value(k, inst, b, lane, t)
    decreases t.seg, t.idx
  {
    hide Times, Column, RefTime, PseudoRand, RefLane;
    if ReadyMade(t) {
      StartOffsetInRange(inst, lane, t.idx);
    } else {
      LaneFits(inst);
      var prev := Value(k, inst, a, lane, Pred(inst.segmentLength, t));
      ValueFromStart(k, inst, a, b, lane, Pred(inst.segmentLength, t));
      var rand := PseudoRand(k, inst, lane, t, prev);
      var refLane := RefLane(inst, lane, t, rand);
      ValueFromStart(k, inst, a, b, refLane, RefTime(inst.segmentLength, t, refLane == lane, rand % 0x1_0000_0000));
      if WithXor(inst, t) {
        ValueFromStart(k, inst, a, b, lane, Time(t.seg - 4, t.idx));
      }
    }
  }

  lemma {:induction false} LastFromStart<B>(k: Kernel<B>, inst: Instance, a: seq<B>, b: seq<B>, n: nat)
    requires inst.Valid() && |a| == |b| == inst.memoryBlocks && SameStart(inst, a, b)
    requires 1 <= n <= inst.lanes
    ensures LastBlocks(k, inst, a, n) == LastBlocks(k, inst, b, n)
  {
    hide Value;
    ValueFromStart(k, inst, a, b, n - 1, LastTime(inst));
    if n > 1 {
      LastFromStart(k, inst, a, b, n - 1);
    }
  }

  // ---- fill_first_blocks ----

  /** store32. */
  method Store32(buf: array<byte>, at: nat, x: u32)
    requires at + 4 <= buf.Length
    modifies buf
    ensures buf[..] == old(buf[..at]) + Le(x, 4) + old(buf[at + 4..])
  {
    ghost var before := buf[..];
    forall i | 0 <= i < 4 { buf[at + i] := Le(x, 4)[i]; }
    assert buf[..at] == before[..at] && buf[at..at + 4] == Le(x, 4) && buf[at + 4..] == before[at + 4..];
  }

  /** One block: its number goes into the seed, whose lane is already there. */
  method MakeFirstBlock<H(!new)>(alg: Alg<H>, blockhash: array<byte>, ghost h0: seq<byte>, l: nat, i: nat)
    returns (b: Block)
    requires alg.Valid() && blockhash.Length == 72 && i < 2
    requires blockhash[..] == h0 + Le(i, 4) + Le(l, 4)
    ensures b == FirstBlock(alg, h0, l, i)
  {
    hide HPrime, FromBytes;
    var blockhashBytes := new byte[1024](_ => 0);
    var _ := Blake2bLong.Blake2bLong(alg, blockhashBytes, 1024, blockhash[..]);
    assert blockhashBytes[..1024] == blockhashBytes[..];
    b := LoadBlock(blockhashBytes[..]);
  }

  /** The two blocks of one lane. */
  method FillLaneStart<H(!new)>(alg: Alg<H>, blockhash: array<byte>, inst: Instance, memory: array<Block>,
                                l: nat, ghost h0: seq<byte>)
    requires alg.Valid() && inst.Valid() && memory.Length == inst.memoryBlocks && l < inst.lanes
    requires blockhash.Length == 72 && |h0| == 64 && blockhash[..64] == h0
    modifies blockhash, memory
    ensures blockhash[..64] == h0
    ensures StartOffset(inst, l, 0) < StartOffset(inst, l, 1) < memory.Length
    ensures memory[..] == old(memory[..])[StartOffset(inst, l, 0) := FirstBlock(alg, h0, l, 0)]
      [StartOffset(inst, l, 1) := FirstBlock(alg, h0, l, 1)]
  {
    hide Le, Times, FirstBlock;
    LaneNumber(inst, l);
    StartOffsetInRange(inst, l, 0);
    StartOffsetInRange(inst, l, 1);
    Store32(blockhash, 64, 0);
    Store32(blockhash, 68, l);
    assert blockhash[..] == h0 + Le(0, 4) + Le(l, 4);
    var b := MakeFirstBlock(alg, blockhash, h0, l, 0);
    memory[StartOffset(inst, l, 0)] := b;
    Store32(blockhash, 64, 1);
    assert blockhash[..] == h0 + Le(1, 4) + Le(l, 4);
    b := MakeFirstBlock(alg, blockhash, h0, l, 1);
    memory[StartOffset(inst, l, 1)] := b;
    assert blockhash[..64] == h0;
  }

  lemma LaneNumber(inst: Instance, l: nat)
    requires inst.Valid() && l < inst.lanes
    ensures l < 0x1_0000_0000
  {
    StartOffsetInRange(inst, l, 0);
    TimesMono(1, inst.laneLength, l);
    TimesIsProduct(l, inst.laneLength);
    MulMono(1, inst.laneLength, l);
  }

  /** The first `n` lanes have their two blocks, and no other cell has changed. */
  ghost predicate Started<H(!new)>(alg: Alg<H>, inst: Instance, h0: seq<byte>, before: seq<Block>, mem: seq<Block>,
      n: nat)
    requires alg.Valid() && inst.Valid()
  {
    && |mem| == |before| == inst.memoryBlocks
    && (forall m: nat, i: nat :: m < n && i < 2 ==>
          StartOffset(inst, m, i) < |mem| && mem[StartOffset(inst, m, i)] == FirstBlock(alg, h0, m, i))
    && (forall off :: 0 <= off < |mem| && Rem(off, inst.laneLength) >= 2 ==> mem[off] == before[off])
  }

  lemma OneLaneStarted<H(!new)>(alg: Alg<H>, inst: Instance, h0: seq<byte>, before: seq<Block>, mem: seq<Block>, l: nat)
    requires alg.Valid() && inst.Valid() && l < inst.lanes && Started(alg, inst, h0, before, mem, l)
    ensures StartOffset(inst, l, 0) < |mem| && StartOffset(inst, l, 1) < |mem|
    ensures Started(alg, inst, h0, before, mem[StartOffset(inst, l, 0) := FirstBlock(alg, h0, l, 0)]
      [StartOffset(inst, l, 1) := FirstBlock(alg, h0, l, 1)], l + 1)
  {
    hide FirstBlock, StartOffset, Times, Quot, Rem;
    StartOffsetInRange(inst, l, 0);
    StartOffsetInRange(inst, l, 1);
    var mem' := mem[StartOffset(inst, l, 0) := FirstBlock(alg, h0, l, 0)]
                  [StartOffset(inst, l, 1) := FirstBlock(alg, h0, l, 1)];
    forall m: nat, i: nat | m < l + 1 && i < 2
      ensures StartOffset(inst, m, i) < |mem'| && mem'[StartOffset(inst, m, i)] == FirstBlock(alg, h0, m, i)
    {
      StartOffsetInRange(inst, m, i);
      if StartOffset(inst, m, i) == StartOffset(inst, l, 0) {
        StartsApart(inst, m, i, l, 0);
      } else if StartOffset(inst, m, i) == StartOffset(inst, l, 1) {
        StartsApart(inst, m, i, l, 1);
      }
    }
  }

  lemma AllLanesStarted<H(!new)>(alg: Alg<H>, inst: Instance, h0: seq<byte>, before: seq<Block>, mem: seq<Block>)
    requires alg.Valid() && inst.Valid() && Started(alg, inst, h0, before, mem, inst.lanes)
    ensures SameStart(inst, mem, FirstMemory(alg, inst, h0))
  {
    hide FirstBlock, Times, Quot, Rem;
    forall m: nat, i: nat | m < inst.lanes && i < 2
      ensures StartOffset(inst, m, i) < inst.memoryBlocks
      ensures mem[StartOffset(inst, m, i)] == FirstMemory(alg, inst, h0)[StartOffset(inst, m, i)]
    {
      StartOffsetInRange(inst, m, i);
    }
  }

  /** `fill_first_blocks`: the memory then agrees with that of the specification where it matters. */
  method FillFirstBlocks<H(!new)>(alg: Alg<H>, blockhash: array<byte>, inst: Instance, memory: array<Block>)
    requires alg.Valid() && inst.Valid() && memory.Length == inst.memoryBlocks && blockhash.Length == 72
    modifies blockhash, memory
    ensures SameStart(inst, memory[..], FirstMemory(alg, inst, old(blockhash[..64])))
    ensures forall off :: 0 <= off < memory.Length && Rem(off, inst.laneLength) >= 2 ==> memory[off] == old(memory[off])
  {
    ghost var h0, before := blockhash[..64], memory[..];
    assert Started(alg, inst, h0, before, memory[..], 0);
    hide FirstBlock, FirstMemory, SameStart, Times, Quot, Rem, Started;
    var l := 0;
    while l < inst.lanes
      invariant l <= inst.lanes && blockhash[..64] == h0
      invariant Started(alg, inst, h0, before, memory[..], l)
    {
      OneLaneStarted(alg, inst, h0, before, memory[..], l);
      FillLaneStart(alg, blockhash, inst, memory, l, h0);
      l := l + 1;
    }
    AllLanesStarted(alg, inst, h0, before, memory[..]);
    StartedFrame(alg, inst, h0, before, memory[..]);
    assert forall off :: 0 <= off < memory.Length ==> memory[..][off] == memory[off];
  }

  lemma StartedFrame<H(!new)>(alg: Alg<H>, inst: Instance, h0: seq<byte>, before: seq<Block>, mem: seq<Block>)
    requires alg.Valid() && inst.Valid() && Started(alg, inst, h0, before, mem, inst.lanes)
    ensures |mem| == |before|
    ensures forall off :: 0 <= off < |mem| && Rem(off, inst.laneLength) >= 2 ==> mem[off] == before[off]
  {
  }
}
