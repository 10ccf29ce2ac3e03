/** The Argon2 tag of section 3.2 of RFC 9106, and what it does and does not depend on. */
module Tag {
  import opened Words
  import opened Indexing
  import opened Recurrence
  import opened Context
  import opened Blake2b
  import opened Blake2bLong
  import opened InitialHash
  import opened FillBlock
  import opened FirstBlocks

  /** H0. */
  function H0<H(!new)>(alg: Alg<H>, c: Inputs, ty: nat): (h: seq<byte>)
    requires alg.Valid() && c.Covered()
    ensures |h| == 64
  {
    Digest(alg, 64, [], Preimage(c, ty))
  }

  function Final<H(!new)>(alg: Alg<H>, inst: Instance, h0: seq<byte>): Block
    requires alg.Valid() && inst.Valid()
  {
    LastBlocks(Argon2Kernel(), inst, FirstMemory(alg, inst, h0), inst.lanes)
  }

  /** Argon2(c) of type `ty`. */
  function TagOf<H(!new)>(alg: Alg<H>, c: Inputs, ty: nat): (tag: seq<byte>)
    requires alg.Valid() && c.Covered() && InRange(c)
    ensures |tag| == c.outlen
  {
    InstanceValid(c, ty);
    HPrime(alg, c.outlen, ToBytes(Final(alg, MakeInstance(c, ty), H0(alg, c, ty))))
  }

  // ---- every lane counts ----

  /** Xoring with the same word keeps different words different. */
  lemma XorDifferent(a: Block, b: Block, c: Block)
    requires a != b
    ensures XorBlock(a, c) != XorBlock(b, c) && XorBlock(c, a) != XorBlock(c, b)
  {
    hide Xor;
    var i :| 0 <= i < 128 && a[i] != b[i];
    XorUndo(a[i], c[i]);
    XorUndo(b[i], c[i]);
    XorCommutes(a[i], c[i]);
    XorCommutes(b[i], c[i]);
    assert XorBlock(a, c)[i] != XorBlock(b, c)[i] && XorBlock(c, a)[i] != XorBlock(c, b)[i];
  }

  function LastBlock(inst: Instance, first: seq<Block>, l: nat): Block
    requires inst.Valid() && |first| == inst.memoryBlocks && l < inst.lanes
  {
    Value(Argon2Kernel(), inst, first, l, LastTime(inst))
  }

  lemma LastSplit(inst: Instance, first: seq<Block>, n: nat)
    requires inst.Valid() && |first| == inst.memoryBlocks && 1 <= n <= inst.lanes
    ensures LastBlocks(Argon2Kernel(), inst, first, n)
         == if n == 1 then LastBlock(inst, first, 0)
            else XorBlock(LastBlocks(Argon2Kernel(), inst, first, n - 1), LastBlock(inst, first, n - 1))
  {
    hide Value, XorBlock;
  }

  /** Changing the last block of one lane, and of no other, changes the final block. */
  lemma {:induction false} EveryLaneCounts(inst: Instance, a: seq<Block>, b: seq<Block>, m: nat, n: nat)
    requires inst.Valid() && |a| == |b| == inst.memoryBlocks && m < n <= inst.lanes
    requires forall l: nat :: l < n ==> (LastBlock(inst, a, l) == LastBlock(inst, b, l) <==> l != m)
    ensures LastBlocks(Argon2Kernel(), inst, a, n) != LastBlocks(Argon2Kernel(), inst, b, n)
  {
    hide LastBlock, LastBlocks, XorBlock, Instance.Valid;
    LastSplit(inst, a, n);
    LastSplit(inst, b, n);
    if m < n - 1 {
      EveryLaneCounts(inst, a, b, m, n - 1);
      XorDifferent(LastBlocks(Argon2Kernel(), inst, a, n - 1), LastBlocks(Argon2Kernel(), inst, b, n - 1),
        LastBlock(inst, a, n - 1));
    } else if n > 1 {
      SameFront(inst, a, b, n - 1);
      XorDifferent(LastBlock(inst, a, n - 1), LastBlock(inst, b, n - 1), LastBlocks(Argon2Kernel(), inst, a, n - 1));
    }
  }

  lemma {:induction false} SameFront(inst: Instance, a: seq<Block>, b: seq<Block>, n: nat)
    requires inst.Valid() && |a| == |b| == inst.memoryBlocks && 1 <= n <= inst.lanes
    requires forall l: nat :: l < n ==> LastBlock(inst, a, l) == LastBlock(inst, b, l)
    ensures LastBlocks(Argon2Kernel(), inst, a, n) == LastBlocks(Argon2Kernel(), inst, b, n)
  {
    hide LastBlock, LastBlocks, XorBlock, Instance.Valid;
    LastSplit(inst, a, n);
    LastSplit(inst, b, n);
    if n > 1 {
      SameFront(inst, a, b, n - 1);
    }
  }

  // ---- the number of threads does not matter ----

  predicate SameButThreads(a: Instance, b: Instance) { a == b.(threads := a.threads) }

  lemma DrawIgnoresThreads<B>(k: Kernel<B>, a: Instance, b: Instance, lane: nat, t: Time, prev: B)
    requires a.Valid() && b.Valid() && SameButThreads(a, b) && lane < a.lanes
    ensures PseudoRand(k, a, lane, t, prev) == PseudoRand(k, b, lane, t, prev)
    ensures RefLane(a, lane, t, PseudoRand(k, a, lane, t, prev)) == RefLane(b, lane, t, PseudoRand(k, a, lane, t, prev))
  {
    hide Rem;
  }

  lemma SameCell<B>(a: Instance, b: Instance, mem: seq<B>, lane: nat, t: Time)
    requires a.Valid() && b.Valid() && SameButThreads(a, b) && |mem| == a.memoryBlocks
    requires lane < a.lanes && t.idx < a.segmentLength
    ensures Cell(a, mem, lane, t) == Cell(b, mem, lane, t)
  {
    hide Times, Column;
  }

  lemma {:induction false} ValueIgnoresThreads<B>(k: Kernel<B>, a: Instance, b: Instance, first: seq<B>, lane: nat,
      t: Time)
    requires a.Valid() && b.Valid() && SameButThreads(a, b) && |first| == a.memoryBlocks
    requires lane < a.lanes && t.idx < a.segmentLength
    ensures Value(k, a, first, lane, t) == Value(k, b, first, lane, t)
    decreases t.seg, t.idx
  {
    hide Times, Column, RefTime, PseudoRand, RefLane, Cell, Value;
    if ReadyMade(t) {
      SameCell(a, b, first, lane, t);
      ValueReady(k, a, first, lane, t);
      ValueReady(k, b, first, lane, t);
    } else {
      LaneFits(a);
      ValueUnfolds(k, a, first, lane, t);
      ValueUnfolds(k, b, first, lane, t);
      ValueIgnoresThreads(k, a, b, first, lane, Pred(a.segmentLength, t));
      DrawIgnoresThreads(k, a, b, lane, t, PredValue(k, a, first, lane, t));
      var rand := RandValue(k, a, first, lane, t);
      var refLane := RefLane(a, lane, t, rand);
      ValueIgnoresThreads(k, a, b, first, refLane, RefTime(a.segmentLength, t, refLane == lane, rand % 0x1_0000_0000));
      if WithXor(a, t) {
        ValueIgnoresThreads(k, a, b, first, lane, Time(t.seg - 4, t.idx));
      }
    }
  }

  lemma {:induction false} LastIgnoresThreads<B>(k: Kernel<B>, a: Instance, b: Instance, first: seq<B>, n: nat)
    requires a.Valid() && b.Valid() && SameButThreads(a, b) && |first| == a.memoryBlocks
    requires 1 <= n <= a.lanes
    ensures LastBlocks(k, a, first, n) == LastBlocks(k, b, first, n)
  {
    hide Value;
    ValueIgnoresThreads(k, a, b, first, n - 1, LastTime(a));
    if n > 1 {
      LastIgnoresThreads(k, a, b, first, n - 1);
    }
  }

  lemma FinalIgnoresThreads<H(!new)>(alg: Alg<H>, a: Instance, b: Instance, h0: seq<byte>)
    requires alg.Valid() && a.Valid() && b.Valid() && SameButThreads(a, b)
    ensures Final(alg, a, h0) == Final(alg, b, h0)
  {
    hide LastBlocks, FirstBlock, Quot, Rem;
    assert FirstMemory(alg, a, h0) == FirstMemory(alg, b, h0);
    LastIgnoresThreads(Argon2Kernel(), a, b, FirstMemory(alg, a, h0), a.lanes);
  }

  /** The inputs the tag is a function of. */
  predicate SameHashed(c: Inputs, d: Inputs)
    requires c.Covered() && d.Covered()
  {
    && c.lanes == d.lanes && c.outlen == d.outlen && c.mCost == d.mCost && c.tCost == d.tCost && c.version == d.version
    && Bytes(c.pwd, c.pwdlen) == Bytes(d.pwd, d.pwdlen) && Bytes(c.salt, c.saltlen) == Bytes(d.salt, d.saltlen)
    && Bytes(c.secret, c.secretlen) == Bytes(d.secret, d.secretlen) && Bytes(c.ad, c.adlen) == Bytes(d.ad, d.adlen)
  }

  /** The tag does not depend on the number of threads, on the flags, or on anything else in the context. */
  lemma TagDependsOn<H(!new)>(alg: Alg<H>, c: Inputs, d: Inputs, ty: nat)
    requires alg.Valid() && c.Covered() && d.Covered() && InRange(c) && InRange(d) && SameHashed(c, d)
    ensures TagOf(alg, c, ty) == TagOf(alg, d, ty)
  {
    hide HPrime, Final, Le, Times, Quot, Digest;
    InstanceValid(c, ty);
    InstanceValid(d, ty);
    assert Preimage(c, ty) == Preimage(d, ty);
    FinalIgnoresThreads(alg, MakeInstance(c, ty), MakeInstance(d, ty), H0(alg, c, ty));
  }
}
