/** The memory fill of the model is the block recurrence of RFC 9106 as `Reference` states it: the time
    `Time(seg, idx)` of a lane is its absolute column seg * n + idx. */
module FillRefinement {
  import opened Words
  import opened Indexing
  import opened Recurrence
  import opened Blake2b
  import opened Blake2bLong
  import opened FillBlock
  import opened FirstBlocks
  import opened ByteRefinement
  import opened HashRefinement
  import opened BlockRefinement
  import Reference

  /** The instance works on these parameters. */
  predicate WorksOn(inst: Instance, c: Reference.Params) {
    && inst.Valid() && c.Valid()
    && inst.version == c.version && inst.passes == c.passes && inst.lanes == c.lanes && inst.ty == c.ty
    && 0 <= c.ty <= 2 && inst.segmentLength == c.SegmentLength()
  }

  function Absolute(n: nat, t: Time): nat { Times(t.seg, n) + t.idx }

  // ---- times and absolute columns ----

  lemma SplitColumn(n: nat, t: Time)
    requires t.idx < n
    ensures Quot(Absolute(n, t), n) == t.seg && Rem(Absolute(n, t), n) == t.idx
  {
    hide Times, Quot, Rem;
    QuotRemSplit(Absolute(n, t), n);
    TimesSplitUnique(n, t.seg, t.idx, Quot(Absolute(n, t), n), Rem(Absolute(n, t), n));
  }

  lemma NextRow(k: nat, n: nat)
    ensures Times(k + 1, n) == Times(k, n) + n
  {
  }

  /** An absolute column lies before segment `k` exactly if its time does. */
  lemma SegmentsBefore(n: nat, t: Time, k: nat)
    requires t.idx < n && k <= 4
    ensures Absolute(n, t) < k * n <==> t.seg < k
    ensures t.seg >= k ==> Times(t.seg, n) - k * n == Times(t.seg - k, n)
  {
    hide Times;
    TimesSmall(k, n);
    assert k * n == Times(k, n) by { TimesIsProduct(k, n); }
    if t.seg < k {
      TimesMono(t.seg + 1, k, n);
      NextRow(t.seg, n);
    } else {
      TimesMono(k, t.seg, n);
      TimesDifference(t.seg, k, n);
    }
  }

  lemma {:induction false} TimesDifference(s: nat, k: nat, n: nat)
    requires k <= s
    ensures Times(s, n) - Times(k, n) == Times(s - k, n)
  {
    TimesIsProduct(s, n);
    TimesIsProduct(k, n);
    TimesIsProduct(s - k, n);
    Distribute(s - k, k, n);
  }

  lemma Distribute(a: int, b: int, c: int)
    ensures (a + b) * c == a * c + b * c
  {
  }

  lemma PredColumn(n: nat, t: Time)
    requires n >= 2 && t.idx < n && !ReadyMade(t)
    ensures Absolute(n, t) >= 2 && Absolute(n, Pred(n, t)) == Absolute(n, t) - 1
  {
    if t.seg > 0 {
      NextRow(t.seg - 1, n);
    }
  }

  // ---- the window ----

  lemma SameOldest(n: nat, t: Time)
    requires t.idx < n
    ensures Reference.Oldest(n, Absolute(n, t)) == Times(Indexing.Oldest(t.seg), n)
  {
    SplitColumn(n, t);
    SegmentsBefore(n, Time(t.seg, 0), 3);
    hide Times, Quot, Rem;
    TimesSmall(0, n);
  }

  lemma SameSize(n: nat, t: Time, sameLane: bool)
    requires Draws(n, t, sameLane)
    ensures Reference.WindowSize(n, Absolute(n, t), sameLane) == AreaSize(n, t, sameLane)
  {
    SplitColumn(n, t);
    SameOldest(n, t);
    SegmentsBefore(n, t, 3);
    hide Times, Quot, Rem;
    if t.seg < 3 {
      TimesSmall(t.seg, n);
      TimesSmall(0, n);
    }
  }

  lemma RankAbsolute(n: nat, base: nat, rank: nat)
    requires rank < 4 * n
    ensures Absolute(n, RankTime(n, base, rank)) == Times(base, n) + rank
  {
    hide Times;
    NextRow(base, n);
    NextRow(base + 1, n);
    NextRow(base + 2, n);
  }

  /** The column picked from the window is that of the block drawn. */
  lemma SamePick(n: nat, t: Time, sameLane: bool, j1: u32)
    requires Draws(n, t, sameLane) && 4 * n < 0x1_0000_0000
    ensures Reference.PickedColumn(n, Absolute(n, t), sameLane, j1) == Absolute(n, RefTime(n, t, sameLane, j1))
  {
    hide Times, Quot, Rem, AreaSize, Reference.WindowSize, Reference.Oldest, RankTime;
    AreaBounds(n, t, sameLane);
    SameOldest(n, t);
    SameSize(n, t, sameLane);
    RankAbsolute(n, Indexing.Oldest(t.seg), RefRank(n, t, sameLane, j1));
  }

  // ---- the value that picks the reference ----

  lemma SameIndependence(inst: Instance, c: Reference.Params, lane: nat, t: Time)
    requires WorksOn(inst, c) && t.idx < inst.segmentLength
    ensures DataIndependent(inst, PositionAt(lane, t).pass, PositionAt(lane, t).slice)
        <==> Reference.Independent(c, Absolute(inst.segmentLength, t))
  {
    hide Times, Instance.Valid, Reference.Params.Valid, Reference.Params.SegmentLength;
    SegmentsBefore(inst.segmentLength, t, 2);
  }

  lemma Small(x: nat)
    requires x < 0x1_0000_0000_0000_0000
    ensures U64(x) == x
  {
  }

  lemma SizesSmall(inst: Instance)
    requires inst.Valid()
    ensures inst.lanes < 0x1_0000_0000 && inst.segmentLength < 0x1_0000_0000
    ensures inst.memoryBlocks == Times(4 * inst.lanes, inst.segmentLength) < 0x1_0000_0000
  {
    hide Times;
    LaneFits(inst);
    TimesMono(1, inst.laneLength, inst.lanes);
    TimesSmall(1, inst.lanes);
    TimesIsProduct(inst.lanes, inst.laneLength);
    TimesIsProduct(4 * inst.lanes, inst.segmentLength);
    Regroup(inst.lanes, inst.segmentLength);
  }

  lemma Regroup(a: nat, b: nat)
    ensures a * (4 * b) == (4 * a) * b
  {
  }

  lemma SameInput(inst: Instance, c: Reference.Params, lane: nat, t: Time)
    requires WorksOn(inst, c) && lane < inst.lanes && t.idx < inst.segmentLength && t.seg < 4 * inst.passes
    ensures InputBlock(t.seg / 4, lane, t.seg % 4, inst.memoryBlocks, inst.passes, inst.ty, t.idx / 128 + 1)
         == [t.seg / 4, lane, t.seg % 4, Times(4 * c.lanes, c.SegmentLength()), c.passes, c.ty, t.idx / 128 + 1]
            + seq(121, i => 0)
  {
    hide U64, Times, Quot, Reference.Params.SegmentLength;
    SizesSmall(inst);
    Small(t.seg / 4);
    Small(lane);
    Small(t.seg % 4);
    Small(inst.memoryBlocks);
    Small(inst.passes);
    Small(inst.ty);
    Small(t.idx / 128 + 1);
  }

  lemma SameAddressWord(inst: Instance, c: Reference.Params, lane: nat, t: Time)
    requires WorksOn(inst, c) && lane < inst.lanes && t.idx < inst.segmentLength && t.seg < 4 * inst.passes
    ensures Word(Addresses(Argon2Kernel(), inst, PositionAt(lane, t), t.idx / 128 + 1), t.idx % 128)
         == Reference.AddressWord(c, lane, Absolute(inst.segmentLength, t))
  {
    hide FillBlock.Compress, Reference.G, Times, Quot, Rem, InputBlock, Instance.Valid, Reference.Params.SegmentLength;
    SplitColumn(inst.segmentLength, t);
    SameInput(inst, c, lane, t);
    var input := InputBlock(t.seg / 4, lane, t.seg % 4, inst.memoryBlocks, inst.passes, inst.ty, t.idx / 128 + 1);
    SameCompress(ZeroBlock(), input);
    SameCompress(ZeroBlock(), FillBlock.Compress(ZeroBlock(), input));
  }

  // ---- the blocks ----

  /** The first two blocks of a lane. */
  lemma SameStart<H(!new)>(alg: Alg<H>, inst: Instance, h0: seq<byte>, lane: nat, t: Time)
    requires alg.Valid() && inst.Valid() && lane < inst.lanes && ReadyMade(t)
    ensures Value(Argon2Kernel(), inst, FirstMemory(alg, inst, h0), lane, t)
         == Reference.Block(Reference.VariableHash(alg, 1024, h0 + Reference.Le32(t.idx) + Reference.Le32(lane)))
  {
    hide Times, Quot, Rem, HPrime, Le, Reference.VariableHash, Reference.Le32, FromBytes, Reference.Block;
    StartOffsetInRange(inst, lane, t.idx);
    ValueReady(Argon2Kernel(), inst, FirstMemory(alg, inst, h0), lane, t);
    LeFour(t.idx);
    LeFour(lane);
    var seed := h0 + Le(t.idx, 4) + Le(lane, 4);
    SameVariableHash(alg, 1024, seed);
    SameBlock(HPrime(alg, 1024, seed));
  }

  lemma BStart<H(!new)>(alg: Alg<H>, c: Reference.Params, lane: nat, a: nat)
    requires alg.Valid() && c.Valid() && lane < c.lanes && a < 2
    ensures Reference.B(alg, c, lane, a)
         == Reference.Block(Reference.VariableHash(alg, 1024,
              Reference.H0(alg, c) + Reference.Le32(a) + Reference.Le32(lane)))
  {
    hide Reference.VariableHash, Reference.H0, Reference.Le32, Reference.Block, Reference.Params.Valid;
  }

  lemma BUnfolds<H(!new)>(alg: Alg<H>, c: Reference.Params, lane: nat, a: nat, n: nat, j: nat, l: nat, picked: nat)
    requires alg.Valid() && c.Valid() && lane < c.lanes && a >= 2 && n == c.SegmentLength() && n >= 2
    requires j == if Reference.Independent(c, a) then Reference.AddressWord(c, lane, a)
                  else Reference.B(alg, c, lane, a - 1)[0]
    requires l == if a < n then lane else Rem(j / 0x1_0000_0000, c.lanes)
    requires picked == Reference.PickedColumn(n, a, l == lane, j % 0x1_0000_0000)
    ensures var block := Reference.G(Reference.B(alg, c, lane, a - 1), Reference.B(alg, c, l, picked));
      Reference.B(alg, c, lane, a)
      == if a >= 4 * n && c.version != 0x10 then Reference.XorWords(block, Reference.B(alg, c, lane, a - 4 * n))
         else block
  {
    hide Reference.VariableHash, Reference.H0, Reference.Le32, Reference.Block, Reference.Params.Valid, Reference.G,
      Reference.AddressWord, Reference.Independent, Reference.PickedColumn, Reference.XorWords, Rem,
      Reference.Params.SegmentLength;
  }

  /** The 64-bit value of a block that is not ready-made. */
  lemma SameRand<H(!new)>(alg: Alg<H>, inst: Instance, c: Reference.Params, first: seq<Block>, lane: nat, t: Time)
    requires alg.Valid() && WorksOn(inst, c) && |first| == inst.memoryBlocks
    requires lane < inst.lanes && t.idx < inst.segmentLength && t.seg < 4 * inst.passes && !ReadyMade(t)
    requires Absolute(inst.segmentLength, t) >= 2
    requires PredValue(Argon2Kernel(), inst, first, lane, t)
          == Reference.B(alg, c, lane, Absolute(inst.segmentLength, t) - 1)
    ensures var a := Absolute(inst.segmentLength, t);
      RandValue(Argon2Kernel(), inst, first, lane, t)
      == if Reference.Independent(c, a) then Reference.AddressWord(c, lane, a) else Reference.B(alg, c, lane, a - 1)[0]
  {
    hide Value, Times, Reference.B, Reference.AddressWord, Reference.Independent, DataIndependent, Addresses, PredValue,
      FillBlock.Compress, Absolute, Instance.Valid, Reference.Params.Valid;
    SameIndependence(inst, c, lane, t);
    SameAddressWord(inst, c, lane, t);
    RandCases(inst, lane, t, PredValue(Argon2Kernel(), inst, first, lane, t));
  }

  lemma RandCases(inst: Instance, lane: nat, t: Time, prev: Block)
    ensures PseudoRand(Argon2Kernel(), inst, lane, t, prev)
         == if DataIndependent(inst, PositionAt(lane, t).pass, PositionAt(lane, t).slice)
            then Word(Addresses(Argon2Kernel(), inst, PositionAt(lane, t), t.idx / 128 + 1), t.idx % 128)
            else prev[0]
  {
    hide Addresses, DataIndependent;
  }

  /** The recurrence of the model, with the first blocks of a hash H_0, is that of RFC 9106. */
  lemma {:induction false} SameBlocks<H(!new)>(alg: Alg<H>, inst: Instance, c: Reference.Params, lane: nat, t: Time)
    requires alg.Valid() && WorksOn(inst, c)
    requires lane < inst.lanes && t.idx < inst.segmentLength && t.seg < 4 * inst.passes
    ensures Value(Argon2Kernel(), inst, FirstMemory(alg, inst, Reference.H0(alg, c)), lane, t)
         == Reference.B(alg, c, lane, Absolute(inst.segmentLength, t))
    decreases t.seg, t.idx
  {
    hide Value, Times, Quot, Rem, Reference.B, Reference.AddressWord, Reference.Independent, Reference.PickedColumn,
      Reference.H0, Reference.G, Reference.XorWords, FirstMemory, PseudoRand, RefTime, RefLane, Absolute, RandValue,
      FillBlock.Compress, XorBlock, Reference.Params.Valid, Reference.Params.SegmentLength;
    var n, a := inst.segmentLength, Absolute(inst.segmentLength, t);
    var first := FirstMemory(alg, inst, Reference.H0(alg, c));
    if ReadyMade(t) {
      FirstColumns(n, t);
      SameStart(alg, inst, Reference.H0(alg, c), lane, t);
      BStart(alg, c, lane, a);
    } else {
      PredColumn(n, t);
      SameBlocks(alg, inst, c, lane, Pred(n, t));
      SameRand(alg, inst, c, first, lane, t);
      var rand := RandValue(Argon2Kernel(), inst, first, lane, t);
      LaneFits(inst);
      var l := RefLane(inst, lane, t, rand);
      SameLane(inst, lane, t, rand);
      var w := RefTime(n, t, l == lane, rand % 0x1_0000_0000);
      SamePick(n, t, l == lane, rand % 0x1_0000_0000);
      SameBlocks(alg, inst, c, l, w);
      ValueUnfolds(Argon2Kernel(), inst, first, lane, t);
      BUnfolds(alg, c, lane, a, n, rand, l, Absolute(n, w));
      SameCompress(PredValue(Argon2Kernel(), inst, first, lane, t), RefValue(Argon2Kernel(), inst, first, lane, t));
      FourBack(n, t);
      if WithXor(inst, t) {
        SameBlocks(alg, inst, c, lane, Time(t.seg - 4, t.idx));
        SameXor(Reference.G(Reference.B(alg, c, lane, a - 1), Reference.B(alg, c, l, Absolute(n, w))),
                Value(Argon2Kernel(), inst, first, lane, Time(t.seg - 4, t.idx)));
      }
    }
  }

  lemma FirstColumns(n: nat, t: Time)
    requires ReadyMade(t)
    ensures Absolute(n, t) == t.idx < 2
  {
  }

  lemma SameLane(inst: Instance, lane: nat, t: Time, rand: nat)
    requires inst.Valid() && lane < inst.lanes && t.idx < inst.segmentLength
    ensures RefLane(inst, lane, t, rand)
         == if Absolute(inst.segmentLength, t) < inst.segmentLength then lane else Rem(rand / 0x1_0000_0000, inst.lanes)
  {
    hide Times, Rem, Absolute;
    SegmentsBefore(inst.segmentLength, t, 1);
  }

  lemma FourBack(n: nat, t: Time)
    requires t.idx < n
    ensures t.seg >= 4 <==> Absolute(n, t) >= 4 * n
    ensures t.seg >= 4 ==> Absolute(n, Time(t.seg - 4, t.idx)) == Absolute(n, t) - 4 * n
  {
    hide Times;
    SegmentsBefore(n, t, 4);
  }
}
