/** The hashes of the model are those of RFC 7693 and RFC 9106 as `Reference` states them. */
module HashRefinement {
  import opened Words
  import opened Blake2b
  import opened Blake2bLong
  import opened FillBlock
  import opened FirstBlocks
  import opened ByteRefinement
  import Reference

  // ---- blocks as bytes ----

  lemma SameBlock(s: seq<byte>)
    requires |s| == 1024
    ensures FromBytes(s) == Reference.Block(s)
  {
    forall i | 0 <= i < 128
      ensures FromBytes(s)[i] == Reference.Block(s)[i]
    {
      FromLeEight(s, 8 * i);
    }
  }

  lemma {:induction false} BytesAppended(b: seq<nat>, x: nat)
    ensures Reference.BlockBytes(b + [x]) == Reference.BlockBytes(b) + Reference.Le64(x)
  {
    hide Reference.Le64;
    if b == [] {
      assert b + [x] == [x];
      assert Reference.BlockBytes([x]) == Reference.Le64(x) + Reference.BlockBytes([]);
    } else {
      BytesAppended(b[1..], x);
      assert (b + [x])[1..] == b[1..] + [x];
    }
  }

  lemma {:induction false} SameBytesUpTo(b: Block, n: nat)
    requires n <= 128
    ensures WordBytes(b, n) == Reference.BlockBytes(b[..n])
  {
    hide Le, Reference.Le64;
    if n > 0 {
      SameBytesUpTo(b, n - 1);
      assert b[..n] == b[..n - 1] + [b[n - 1]];
      BytesAppended(b[..n - 1], b[n - 1]);
      LeEight(b[n - 1]);
    }
  }

  lemma SameBytes(b: Block)
    ensures ToBytes(b) == Reference.BlockBytes(b)
  {
    SameBytesUpTo(b, 128);
    assert b[..128] == b;
  }

  // ---- BLAKE2b ----

  /** After `k` blocks that are not the last, the rest is absorbed from the front. */
  lemma {:induction false} AbsorbRest<H(!new)>(alg: Alg<H>, h: H, msg: seq<byte>, k: nat)
    requires k < BlockCount(|msg|)
    ensures Reference.Absorb(alg, Chain(alg, h, msg, k), msg[128 * k..], 128 * k) == Blake2b.Hash(alg, h, msg)
    decreases BlockCount(|msg|) - k
  {
    hide PaddedBlock, BlockCount, Chain, Reference.Absorb, Blake2b.Hash;
    var rest := msg[128 * k..];
    if k + 1 < BlockCount(|msg|) {
      MoreFollows(msg, k);
      BlockInside(msg, k);
      FullBlock(alg, h, msg, k);
      AbsorbRest(alg, h, msg, k + 1);
      assert rest[..128] == msg[128 * k..128 * k + 128] && rest[128..] == msg[128 * (k + 1)..];
    } else {
      LastBlock(msg, rest);
      FinalBlock(alg, h, msg, rest);
    }
  }

  lemma MoreFollows(msg: seq<byte>, k: nat)
    requires k + 1 < BlockCount(|msg|)
    ensures 128 * k + 128 < |msg|
  {
  }

  lemma FullBlock<H(!new)>(alg: Alg<H>, h: H, msg: seq<byte>, k: nat)
    requires k + 1 < BlockCount(|msg|) && 128 * k + 128 < |msg|
    requires PaddedBlock(msg, k) == msg[128 * k..][..128]
    ensures Reference.Absorb(alg, Chain(alg, h, msg, k), msg[128 * k..], 128 * k)
         == Reference.Absorb(alg, Chain(alg, h, msg, k + 1), msg[128 * k..][128..], 128 * (k + 1))
  {
    hide PaddedBlock;
  }

  lemma FinalBlock<H(!new)>(alg: Alg<H>, h: H, msg: seq<byte>, rest: seq<byte>)
    requires var last := BlockCount(|msg|) - 1;
      rest == msg[128 * last..] && |rest| <= 128 && PaddedBlock(msg, last) == rest + Zeros(128 - |rest|)
    ensures var last := BlockCount(|msg|) - 1;
      Reference.Absorb(alg, Chain(alg, h, msg, last), rest, 128 * last) == Blake2b.Hash(alg, h, msg)
  {
    hide PaddedBlock, BlockCount, Chain;
    assert seq(128 - |rest|, i => 0) == Zeros(128 - |rest|);
  }

  /** The digest without a key is H^n. */
  lemma SameHash<H(!new)>(alg: Alg<H>, n: nat, msg: seq<byte>)
    requires alg.Valid() && n <= 64
    ensures Digest(alg, n, [], msg) == Reference.Hash(alg, n, msg)
  {
    hide Chain, Blake2b.Hash, Reference.Absorb;
    assert Chain(alg, alg.init(n, 0), msg, 0) == alg.init(n, 0) by { ChainStart(alg, alg.init(n, 0), msg); }
    AbsorbRest(alg, alg.init(n, 0), msg, 0);
    assert msg[128 * 0..] == msg && [] + msg == msg;
  }

  lemma ChainStart<H(!new)>(alg: Alg<H>, h: H, msg: seq<byte>)
    ensures Chain(alg, h, msg, 0) == h
  {
  }

  // ---- H' ----

  lemma {:induction false} SameHalves<H(!new)>(alg: Alg<H>, n: nat, seed: seq<byte>, i: nat, r: nat)
    requires alg.Valid() && 1 <= i <= r && 32 * r + 32 < n <= 32 * r + 64
    ensures Halves(alg, seed, i - 1) + Reference.HalfByHalf(alg, n - 32 * (i - 1), V(alg, seed, i))
         == Halves(alg, seed, r) + Digest(alg, n - 32 * r, [], V(alg, seed, r))
    decreases r - i
  {
    hide Digest, V, Reference.Hash, Reference.HalfByHalf, Halves;
    var m := n - 32 * (i - 1);
    HalvesStep(alg, seed, i);
    HalfStep(alg, m, V(alg, seed, i));
    if m - 32 <= 64 {
      SameHash(alg, m - 32, V(alg, seed, i));
    } else {
      SameHash(alg, 64, V(alg, seed, i));
      NextHalf(alg, seed, i);
      SameHalves(alg, n, seed, i + 1, r);
    }
  }

  lemma HalvesStep<H(!new)>(alg: Alg<H>, seed: seq<byte>, i: nat)
    requires alg.Valid() && i >= 1
    ensures Halves(alg, seed, i) == Halves(alg, seed, i - 1) + V(alg, seed, i)[..32]
  {
  }

  lemma HalfStep<H(!new)>(alg: Alg<H>, m: nat, v: seq<byte>)
    requires alg.Valid() && m > 64 && |v| == 64
    ensures Reference.HalfByHalf(alg, m, v)
         == v[..32] + (if m - 32 <= 64 then Reference.Hash(alg, m - 32, v)
                       else Reference.HalfByHalf(alg, m - 32, Reference.Hash(alg, 64, v)))
  {
  }

  /** The variable-length hash of the model is that of section 3.3 of RFC 9106. */
  lemma SameVariableHash<H(!new)>(alg: Alg<H>, n: nat, a: seq<byte>)
    requires alg.Valid()
    ensures HPrime(alg, n, a) == Reference.VariableHash(alg, n, a)
  {
    hide Digest, V, Halves, Le, Reference.Hash, Reference.HalfByHalf, Reference.Le32;
    LeFour(n);
    var seed := Le(n, 4) + a;
    if n <= 64 {
      SameHash(alg, n, seed);
    } else {
      SameHash(alg, 64, seed);
      FirstHalf(alg, seed);
      SameHalves(alg, n, seed, 1, (n + 31) / 32 - 2);
      NoHalves(alg, seed);
    }
  }

  lemma NoHalves<H(!new)>(alg: Alg<H>, seed: seq<byte>)
    requires alg.Valid()
    ensures Halves(alg, seed, 0) == []
  {
  }
}
