/** What `argon2_ctx`, `argon2_hash` and the key derivation compute, against RFC 9106 as `Reference` states it. */
module TagRefinement {
  import opened Words
  import opened Indexing
  import opened Recurrence
  import opened Context
  import opened Blake2b
  import opened Blake2bLong
  import opened InitialHash
  import opened FillBlock
  import opened FirstBlocks
  import opened Tag
  import opened ByteRefinement
  import opened HashRefinement
  import opened BlockRefinement
  import opened FillRefinement
  import Reference

  // ---- H_0 ----

  lemma FlatSum(h: seq<byte>, a: seq<byte>, b: seq<byte>, c: seq<byte>, d: seq<byte>, w: seq<byte>, x: seq<byte>,
                y: seq<byte>, z: seq<byte>)
    ensures h + (a + w) + (b + x) + (c + y) + (d + z) == h + a + w + b + x + c + y + d + z
  {
  }

  lemma SameH0<H(!new)>(alg: Alg<H>, c: Inputs, ty: nat)
    requires alg.Valid() && c.Covered()
    ensures H0(alg, c, ty) == Reference.H0(alg, ParamsOf(c, ty))
  {
    hide Parameters, Field, Digest, Reference.Hash, Reference.Le32;
    var p := ParamsOf(c, ty);
    HeadInWords(c, ty);
    SameField(p.password);
    SameField(p.salt);
    SameField(p.secret);
    SameField(p.data);
    FlatSum(Parameters(c, ty), Reference.Le32(|p.password|), Reference.Le32(|p.salt|), Reference.Le32(|p.secret|),
      Reference.Le32(|p.data|), p.password, p.salt, p.secret, p.data);
    SameHash(alg, 64, Preimage(c, ty));
  }

  // ---- sizes ----

  /** The instance `argon2_ctx` makes works on the parameters it was given, with as many passes as asked for. */
  lemma InstanceWorks(c: Inputs, ty: nat)
    requires c.Covered() && InRange(c) && ty <= 2
    ensures WorksOn(MakeInstance(c, ty), ParamsOf(c, ty))
  {
    hide Times, Quot;
    InstanceValid(c, ty);
    assert U32(8 * c.lanes) == 8 * c.lanes && U32(c.lanes * 4) == 4 * c.lanes;
  }

  // ---- the final block ----

  lemma LastAbsolute(inst: Instance)
    requires inst.Valid()
    ensures Absolute(inst.segmentLength, LastTime(inst)) == Times(inst.passes, 4 * inst.segmentLength) - 1
  {
    hide Times;
    FillRefinement.NextRow(4 * inst.passes - 1, inst.segmentLength);
    TimesIsProduct(4 * inst.passes, inst.segmentLength);
    TimesIsProduct(inst.passes, 4 * inst.segmentLength);
    Regroup(inst.passes, inst.segmentLength);
  }

  lemma {:induction false} SameLast<H(!new)>(alg: Alg<H>, inst: Instance, c: Reference.Params, k: nat)
    requires alg.Valid() && WorksOn(inst, c) && 1 <= k <= inst.lanes
    ensures LastBlocks(Argon2Kernel(), inst, FirstMemory(alg, inst, Reference.H0(alg, c)), k) == Reference.C(alg, c, k)
  {
    hide Value, Times, Quot, Reference.B, Reference.H0, Reference.XorWords, FirstMemory, Absolute, XorBlock,
      Reference.Params.Valid, Reference.Params.SegmentLength;
    LastAbsolute(inst);
    SameBlocks(alg, inst, c, k - 1, LastTime(inst));
    if k > 1 {
      SameLast(alg, inst, c, k - 1);
      var first := FirstMemory(alg, inst, Reference.H0(alg, c));
      SameXor(LastBlocks(Argon2Kernel(), inst, first, k - 1),
              Value(Argon2Kernel(), inst, first, k - 1, LastTime(inst)));
    }
  }

  // ---- the tag ----

  /** The tag of the model is Argon2 of section 3.2 of RFC 9106, for every valid context and type. */
  lemma TagIsArgon2<H(!new)>(alg: Alg<H>, c: Inputs, ty: nat)
    requires alg.Valid() && c.Covered() && InRange(c) && ty <= 2
    ensures ParamsOf(c, ty).Valid() && TagOf(alg, c, ty) == Reference.Tag(alg, ParamsOf(c, ty))
  {
    hide MakeInstance, H0, LastBlocks, FirstMemory, HPrime, ToBytes, Reference.C, Reference.H0,
      Reference.VariableHash, Reference.BlockBytes, InRange;
    InstanceWorks(c, ty);
    var inst, p := MakeInstance(c, ty), ParamsOf(c, ty);
    SameH0(alg, c, ty);
    InstanceValid(c, ty);
    SameLast(alg, inst, p, inst.lanes);
    SameBytes(Final(alg, inst, H0(alg, c, ty)));
    SameVariableHash(alg, c.outlen, ToBytes(Final(alg, inst, H0(alg, c, ty))));
  }
}
