/** BLAKE2b as the buffered streaming state machine of blake2b.c, against the one-shot definition over
    padded blocks of section 3.3 of RFC 7693. */
module Blake2b {
  import opened Words

  /** The parts of BLAKE2b that stay uninterpreted: the chaining value after xoring in the parameter
      block, the compression function F, and the little-endian image of a chaining value. */
  datatype Alg<!H(!new)> = Alg(
    init: (nat, nat) -> H,                              // digest length, key length
    compress: (H, seq<byte>, nat, nat, bool) -> H,      // block, t[0], t[1], last-block flag
    image: H -> seq<byte>)
  {
    ghost predicate Valid() { forall h {:trigger image(h)} :: |image(h)| == 64 }
  }

  // ---- the definition ----

  /** The number of 128-byte blocks of a message; the empty message has one. */
  function BlockCount(len: nat): (n: nat)
    ensures n >= 1 && len <= 128 * n && (len > 0 ==> 128 * (n - 1) < len) && (len == 0 ==> n == 1)
  {
    if len == 0 then 1 else (len + 127) / 128
  }

  /** Block `i` of the message, padded with zeros. */
  function PaddedBlock(msg: seq<byte>, i: nat): (b: seq<byte>)
    requires i < BlockCount(|msg|)
    ensures |b| == 128
  {
    (msg + Zeros(128 * BlockCount(|msg|) - |msg|))[128 * i..128 * i + 128]
  }

  function Compress<H(!new)>(alg: Alg<H>, h: H, block: seq<byte>, count: nat, last: bool): H {
    alg.compress(h, block, count % 0x1_0000_0000_0000_0000,
      count / 0x1_0000_0000_0000_0000 % 0x1_0000_0000_0000_0000, last)
  }

  /** The chaining value after the first `n` blocks, none of which is the last. */
  function Chain<H(!new)>(alg: Alg<H>, h: H, msg: seq<byte>, n: nat): H
    requires n < BlockCount(|msg|)
  {
    if n == 0 then h else Compress(alg, Chain(alg, h, msg, n - 1), PaddedBlock(msg, n - 1), 128 * n, false)
  }

  /** The hash of `msg`, key block included, from the initial chaining value `h`. */
  function Hash<H(!new)>(alg: Alg<H>, h: H, msg: seq<byte>): H {
    var last := BlockCount(|msg|) - 1;
    Compress(alg, Chain(alg, h, msg, last), PaddedBlock(msg, last), |msg|, true)
  }

  function KeyBlock(key: seq<byte>): seq<byte>
    requires |key| <= 128
  {
    if key == [] then [] else key + Zeros(128 - |key|)
  }

  /** BLAKE2b(msg, key) with an `outlen`-byte digest. */
  function Digest<H(!new)>(alg: Alg<H>, outlen: nat, key: seq<byte>, msg: seq<byte>): (d: seq<byte>)
    requires alg.Valid() && outlen <= 64 && |key| <= 64
    ensures |d| == outlen
  {
    alg.image(Hash(alg, alg.init(outlen, |key|), KeyBlock(key) + msg))[..outlen]
  }

  // ---- growing a message ----

  /** Blocks that are already complete do not change when the message grows. */
  lemma PaddedBlockStable(msg: seq<byte>, more: seq<byte>, i: nat)
    requires 128 * i + 128 <= |msg|
    ensures i < BlockCount(|msg|) && i < BlockCount(|msg + more|)
    ensures PaddedBlock(msg + more, i) == PaddedBlock(msg, i) == msg[128 * i..128 * i + 128]
  {
  }

  lemma {:induction false} ChainStable<H(!new)>(alg: Alg<H>, h: H, msg: seq<byte>, more: seq<byte>, n: nat)
    requires 128 * n <= |msg| && n < BlockCount(|msg|)
    ensures n < BlockCount(|msg + more|)
    ensures Chain(alg, h, msg + more, n) == Chain(alg, h, msg, n)
  {
    if n > 0 {
      ChainStable(alg, h, msg, more, n - 1);
      PaddedBlockStable(msg, more, n - 1);
    }
  }

  // ---- the streaming state ----

  const BLOCKBYTES: nat := 128
  const OUTBYTES: nat := 64
  const KEYBYTES: nat := 64

  class State<H(!new)> {
    const alg: Alg<H>
    const buf: array<byte>
    var h: H
    var t0: u64
    var t1: u64
    var f0: u64
    var buflen: nat
    var outlen: nat
    ghost var start: H               // the chaining value set up by init
    ghost var absorbed: seq<byte>    // everything fed in so far, key block included

    constructor (alg: Alg<H>)
      ensures this.alg == alg && fresh(buf) && buf.Length == 128
    {
      this.alg := alg;
      buf := new byte[128](i => 0);
      h := alg.init(0, 0);
      start := alg.init(0, 0);
      t0, t1, f0, buflen, outlen, absorbed := 0, 0, 0, 0, 0, [];
    }

    /** The number of blocks compressed so far: all but the last, non-empty one, which stays buffered. */
    ghost function Full(): nat
      reads this
    {
      BlockCount(|absorbed|) - 1
    }

    ghost predicate Absorbing()
      reads this, buf
    {
      && buf.Length == 128 && outlen <= 64
      && f0 == 0
      && |absorbed| == 128 * Full() + buflen
      && buf[..buflen] == absorbed[128 * Full()..]
      && h == Chain(alg, start, absorbed, Full())
      && Counter(t0, t1) == Wrap128(128 * Full())
    }

    /** `blake2b_increment_counter`: a 128-bit addition in two 64-bit words. */
    method IncrementCounter(inc: u64)
      modifies this`t0, this`t1
      ensures Counter(t0, t1) == Wrap128(old(Counter(t0, t1)) + inc)
    {
      CarryAddition(t0, t1, inc);
      t0 := U64(t0 + inc);
      t1 := U64(t1 + (if t0 < inc then 1 else 0));
    }

    /** `blake2b_init`. A bad length leaves the state unusable. */
    method Init(outlen: nat) returns (ret: int)
      requires buf.Length == 128
      modifies this, buf
      ensures ret == if 1 <= outlen <= OUTBYTES then 0 else -1
      ensures ret == 0 ==> Absorbing() && absorbed == [] && this.outlen == outlen && start == alg.init(outlen, 0)
      ensures ret != 0 ==> f0 != 0
    {
      if outlen == 0 || outlen > OUTBYTES {
        f0 := 0xFFFF_FFFF_FFFF_FFFF;
        return -1;
      }
      InitParam(outlen, 0);
      ret := 0;
    }

    /** `blake2b_init_param`. */
    method InitParam(outlen: nat, keylen: nat)
      requires buf.Length == 128 && outlen <= 64
      modifies this, buf
      ensures Absorbing() && absorbed == [] && this.outlen == outlen && start == alg.init(outlen, keylen)
    {
      hide Chain, BlockCount, Counter, Wrap128;
      forall i | 0 <= i < 128 { buf[i] := 0; }
      t0, t1, f0, buflen := 0, 0, 0, 0;
      h := alg.init(outlen, keylen);
      NothingAbsorbed(alg, h);
      start, absorbed := h, [];
      this.outlen := outlen;
    }

    /** `blake2b_init_key`: the padded key is the first block. */
    method InitKey(outlen: nat, key: Option<seq<byte>>, keylen: nat) returns (ret: int)
      requires buf.Length == 128
      requires key.Some? ==> |key.value| == keylen
      modifies this, buf
      ensures ret == if 1 <= outlen <= OUTBYTES && key.Some? && 1 <= keylen <= KEYBYTES then 0 else -1
      ensures ret == 0 ==>
        && Absorbing() && absorbed == KeyBlock(key.value)
        && this.outlen == outlen && start == alg.init(outlen, keylen)
      ensures ret != 0 ==> f0 != 0
    {
      if outlen == 0 || outlen > OUTBYTES || key.None? || keylen == 0 || keylen > KEYBYTES {
        f0 := 0xFFFF_FFFF_FFFF_FFFF;
        return -1;
      }
      InitParam(outlen, keylen);
      var block := key.value + Zeros(128 - keylen);
      ret := Update(Some(block), 128);
    }

    /** Count and compress block `n` of `msg`, which is not its last. */
    method Absorb(block: seq<byte>, ghost msg: seq<byte>, ghost n: nat)
      requires n + 1 < BlockCount(|msg|) && block == PaddedBlock(msg, n)
      requires h == Chain(alg, start, msg, n) && Counter(t0, t1) == Wrap128(128 * n)
      modifies this`h, this`t0, this`t1
      ensures h == Chain(alg, start, msg, n + 1) && Counter(t0, t1) == Wrap128(128 * (n + 1))
    {
      hide PaddedBlock, Chain;
      IncrementCounter(128);
      AddCounters(128 * n, 128);
      CompressNext(alg, start, msg, n, t0, t1);
      h := alg.compress(h, block, t0, t1, false);
    }

    /** memcpy into the buffer. */
    method CopyIn(at: nat, src: seq<byte>)
      requires buf.Length == 128 && at + |src| <= 128
      modifies buf
      ensures buf[..at + |src|] == old(buf[..at]) + src
    {
      ghost var before := buf[..at];
      forall i | 0 <= i < |src| { buf[at + i] := src[i]; }
      assert buf[..at] == before;
      assert buf[at..at + |src|] == src;
    }

    /** Complete the buffered block from the input and compress it. */
    method CompressBuffered(pin: seq<byte>, ghost msg: seq<byte>) returns (fill: nat)
      requires Absorbing() && buflen + |pin| > BLOCKBYTES && msg == absorbed + pin
      modifies this`h, this`t0, this`t1, this`buflen, buf
      ensures buflen == 0 && fill == BLOCKBYTES - old(buflen)
      ensures Full() + 1 < BlockCount(|msg|)
      ensures h == Chain(alg, start, msg, Full() + 1) && Counter(t0, t1) == Wrap128(128 * (Full() + 1))
    {
      hide PaddedBlock, Chain, BlockCount, Counter, Wrap128;
      ghost var n := Full();
      ChainStable(alg, start, absorbed, pin, n);
      fill := BLOCKBYTES - buflen;
      BlockAcross(absorbed, pin, n, fill);
      MoreBlocks(msg, n + 1);
      CopyIn(buflen, pin[..fill]);
      assert buf[..] == buf[..128];
      Absorb(buf[..], msg, n);
      buflen := 0;
    }

    /** The overflowing case of `blake2b_update`: after the buffered block, compress blocks straight from
        the input while more than one block is left. */
    method CompressFull(pin: seq<byte>, ghost msg: seq<byte>) returns (pos: nat, ghost n: nat)
      requires Absorbing() && buflen + |pin| > BLOCKBYTES && msg == absorbed + pin
      modifies this`h, this`t0, this`t1, this`buflen, buf
      ensures buflen == 0 && pos < |pin| <= pos + BLOCKBYTES
      ensures 128 * n == |absorbed| + pos
      ensures n < BlockCount(|msg|) && h == Chain(alg, start, msg, n) && Counter(t0, t1) == Wrap128(128 * n)
    {
      hide PaddedBlock, Chain, BlockCount, Counter, Wrap128;
      pos := CompressBuffered(pin, msg);
      n := Full() + 1;
      while |pin| - pos > BLOCKBYTES
        invariant pos < |pin|
        invariant 128 * n == |absorbed| + pos
        invariant n < BlockCount(|msg|) && h == Chain(alg, start, msg, n) && Counter(t0, t1) == Wrap128(128 * n)
        modifies this`h, this`t0, this`t1
        decreases |pin| - pos
      {
        BlockBeyond(absorbed, pin, n, pos);
        MoreBlocks(msg, n + 1);
        Absorb(pin[pos..pos + 128], msg, n);
        pos := pos + 128;
        n := n + 1;
      }
    }

    /** The last copy of `blake2b_update`: what is left of the input goes to the buffer. */
    method BufferRest(rest: seq<byte>, ghost msg: seq<byte>, ghost n: nat)
      requires buf.Length == 128 && outlen <= 64 && f0 == 0
      requires rest != [] && buflen + |rest| <= 128
      requires 128 * n <= |msg| && msg[128 * n..] == buf[..buflen] + rest
      requires n < BlockCount(|msg|) && h == Chain(alg, start, msg, n) && Counter(t0, t1) == Wrap128(128 * n)
      modifies this`buflen, this`absorbed, buf
      ensures Absorbing() && absorbed == msg
    {
      hide PaddedBlock, Chain, Counter, Wrap128, BlockCount;
      CopyIn(buflen, rest);
      buflen := buflen + |rest|;
      LastIndex(msg, n);
      absorbed := msg;
    }

    /** The bytes are appended to the message: a full buffer is compressed only once more input is known
        to follow, so that the last non-empty block is still there for `Final`. */
    method Update(input: Option<seq<byte>>, inlen: nat) returns (ret: int)
      requires input.Some? ==> |input.value| == inlen
      requires f0 == 0 ==> Absorbing()
      modifies this, buf
      ensures ret == if inlen == 0 then 0 else if input.None? || old(f0) != 0 then -1 else 0
      ensures inlen == 0 || ret != 0 ==> unchanged(this) && unchanged(buf)
      ensures inlen != 0 && ret == 0 ==> Absorbing() && absorbed == old(absorbed) + input.value
      ensures start == old(start) && outlen == old(outlen) && f0 == old(f0)
    {
      if inlen == 0 {
        return 0;
      }
      if input.None? {
        return -1;
      }
      if f0 != 0 {
        return -1;
      }
      hide PaddedBlock, Chain, Counter, Wrap128, BlockCount;
      var pin := input.value;
      var pos := 0;
      ghost var n := Full();
      ghost var msg := absorbed + pin;
      if buflen + inlen > BLOCKBYTES {
        pos, n := CompressFull(pin, msg);
      } else {
        ChainStable(alg, start, absorbed, pin, n);
      }
      TailOfSum(absorbed, pin, 128 * n, pos);
      BufferRest(pin[pos..], msg, n);
      ret := 0;
    }

    /** The padding of the last block. */
    method ZeroRest()
      requires buf.Length == 128 && buflen <= 128
      modifies buf
      ensures buf[..] == old(buf[..buflen]) + Zeros(128 - buflen)
    {
      forall i | buflen <= i < 128 { buf[i] := 0; }
    }

    /** `blake2b_final`. */
    method Final(outlen: nat) returns (ret: int, out: seq<byte>)
      requires alg.Valid() && buf.Length == 128
      requires f0 == 0 ==> Absorbing()
      modifies this, buf
      ensures ret == if outlen < old(this.outlen) || old(f0) != 0 then -1 else 0
      ensures ret == 0 ==>
        && f0 != 0 && |out| == old(this.outlen)
        && out == alg.image(Hash(alg, old(start), old(absorbed)))[..old(this.outlen)]
    {
      hide Chain, PaddedBlock, BlockCount, Counter, Wrap128, Hash;
      if outlen < this.outlen {
        return -1, [];
      }
      if f0 != 0 {
        return -1, [];
      }
      ghost var rest := buf[..buflen];
      IncrementCounter(buflen);
      f0 := 0xFFFF_FFFF_FFFF_FFFF;
      ZeroRest();
      CompressRest(alg, start, absorbed, rest, t0, t1);
      h := alg.compress(h, buf[..], t0, t1, true);
      return 0, alg.image(h)[..this.outlen];
    }
  }

  lemma NothingAbsorbed<H(!new)>(alg: Alg<H>, h: H)
    ensures BlockCount(0) == 1 && Chain(alg, h, [], 0) == h && Counter(0, 0) == Wrap128(0)
  {
  }

  /** The block that starts in the buffered part and ends in the input. */
  lemma BlockAcross(a: seq<byte>, b: seq<byte>, i: nat, fill: nat)
    requires 128 * i <= |a| && fill <= |b| && 128 * i + 128 == |a| + fill
    ensures i < BlockCount(|a + b|)
    ensures PaddedBlock(a + b, i) == a[128 * i..] + b[..fill]
  {
    hide PaddedBlock, BlockCount;
    BlockInside(a + b, i);
    AcrossSlice(a, b, 128 * i, fill);
  }

  lemma AcrossSlice(a: seq<byte>, b: seq<byte>, at: nat, fill: nat)
    requires at <= |a| && fill <= |b|
    ensures (a + b)[at..|a| + fill] == a[at..] + b[..fill]
  {
  }

  /** A block that lies in the input. */
  lemma BlockBeyond(a: seq<byte>, b: seq<byte>, i: nat, pos: nat)
    requires 128 * i == |a| + pos && pos + 128 <= |b|
    ensures i < BlockCount(|a + b|)
    ensures PaddedBlock(a + b, i) == b[pos..pos + 128]
  {
    hide PaddedBlock, BlockCount;
    BlockInside(a + b, i);
    BeyondSlice(a, b, pos, 128);
  }

  lemma BeyondSlice(a: seq<byte>, b: seq<byte>, pos: nat, n: nat)
    requires pos + n <= |b|
    ensures (a + b)[|a| + pos..|a| + pos + n] == b[pos..pos + n]
  {
  }

  lemma LastIndex(msg: seq<byte>, n: nat)
    requires 128 * n < |msg| <= 128 * n + 128
    ensures BlockCount(|msg|) == n + 1
  {
  }

  lemma MoreBlocks(msg: seq<byte>, n: nat)
    requires 128 * n < |msg|
    ensures n < BlockCount(|msg|)
  {
  }

  /** What is buffered and what is left of the input make up the tail of the message. */
  lemma TailOfSum(a: seq<byte>, b: seq<byte>, at: nat, pos: nat)
    requires pos <= |b| && at <= |a| + pos && (pos == 0 || at == |a| + pos)
    ensures (a + b)[at..] == (if at <= |a| then a[at..] else []) + b[pos..]
  {
  }

  function Counter(t0: u64, t1: u64): nat { t1 * 0x1_0000_0000_0000_0000 + t0 }

  function Wrap128(x: nat): nat { x % 0x1_0000_0000_0000_0000_0000_0000_0000_0000 }

  lemma CarryAddition(t0: u64, t1: u64, inc: u64)
    ensures var lo := U64(t0 + inc);
      Counter(lo, U64(t1 + (if lo < inc then 1 else 0))) == Wrap128(Counter(t0, t1) + inc)
  {
    if t0 + inc < 0x1_0000_0000_0000_0000 {
      assert U64(t0 + inc) == t0 + inc;
      assert U64(t1) == t1;
    } else {
      assert U64(t0 + inc) == t0 + inc - 0x1_0000_0000_0000_0000;
      if t1 == 0xFFFF_FFFF_FFFF_FFFF {
        assert U64(t1 + 1) == 0;
      } else {
        assert U64(t1 + 1) == t1 + 1;
      }
    }
  }

  lemma CounterWords(t0: u64, t1: u64, c: nat)
    requires Counter(t0, t1) == Wrap128(c)
    ensures t0 == c % 0x1_0000_0000_0000_0000
    ensures t1 == c / 0x1_0000_0000_0000_0000 % 0x1_0000_0000_0000_0000
  {
    var q := c / 0x1_0000_0000_0000_0000_0000_0000_0000_0000;
    Split64Bits(c, q * 0x1_0000_0000_0000_0000 + t1, t0);
    Split64Bits(q * 0x1_0000_0000_0000_0000 + t1, q, t1);
  }

  lemma Split64Bits(x: nat, q: nat, r: u64)
    requires x == q * 0x1_0000_0000_0000_0000 + r
    ensures x / 0x1_0000_0000_0000_0000 == q && x % 0x1_0000_0000_0000_0000 == r
  {
  }

  lemma BlockInside(msg: seq<byte>, i: nat)
    requires 128 * i + 128 <= |msg|
    ensures i < BlockCount(|msg|) && PaddedBlock(msg, i) == msg[128 * i..128 * i + 128]
  {
  }

  /** What is left of a message after its full blocks, zero-filled, is its last block. */
  lemma LastBlock(msg: seq<byte>, rest: seq<byte>)
    requires rest == msg[128 * (BlockCount(|msg|) - 1)..]
    ensures |rest| <= 128
    ensures PaddedBlock(msg, BlockCount(|msg|) - 1) == rest + Zeros(128 - |rest|)
  {
  }

  lemma AddCounters(x: nat, y: nat)
    ensures Wrap128(Wrap128(x) + y) == Wrap128(x + y)
  {
    var q := x / 0x1_0000_0000_0000_0000_0000_0000_0000_0000;
    WrapShift(Wrap128(x) + y, q);
  }

  lemma WrapShift(z: nat, q: nat)
    ensures Wrap128(z + q * 0x1_0000_0000_0000_0000_0000_0000_0000_0000) == Wrap128(z)
  {
  }

  lemma CompressNext<H(!new)>(alg: Alg<H>, h: H, msg: seq<byte>, n: nat, t0: u64, t1: u64)
    requires n + 1 < BlockCount(|msg|)
    requires Counter(t0, t1) == Wrap128(128 * n + 128)
    ensures Chain(alg, h, msg, n + 1) == alg.compress(Chain(alg, h, msg, n), PaddedBlock(msg, n), t0, t1, false)
  {
    CounterWords(t0, t1, 128 * n + 128);
  }

  lemma CompressRest<H(!new)>(alg: Alg<H>, h: H, msg: seq<byte>, rest: seq<byte>, t0: u64, t1: u64)
    requires rest == msg[128 * (BlockCount(|msg|) - 1)..]
    requires Counter(t0, t1) == Wrap128(Wrap128(128 * (BlockCount(|msg|) - 1)) + |rest|)
    ensures |rest| <= 128
    ensures Hash(alg, h, msg)
         == alg.compress(Chain(alg, h, msg, BlockCount(|msg|) - 1), rest + Zeros(128 - |rest|), t0, t1, true)
  {
    hide Chain, PaddedBlock, BlockCount, Counter, Wrap128;
    LastBlock(msg, rest);
    AddCounters(128 * (BlockCount(|msg|) - 1), |rest|);
    CounterWords(t0, t1, |msg|);
  }

  /** One-shot `blake2b`, keyed or not. */
  method OneShot<H(!new)>(alg: Alg<H>, outlen: nat, input: Option<seq<byte>>, inlen: nat,
                          key: Option<seq<byte>>, keylen: nat)
    returns (ret: int, out: seq<byte>)
    requires alg.Valid()
    requires input.Some? ==> |input.value| == inlen
    requires key.Some? ==> |key.value| == keylen
    ensures ret == if (input.None? && inlen > 0) || outlen == 0 || outlen > OUTBYTES
                      || (key.None? && keylen > 0) || keylen > KEYBYTES then -1 else 0
    ensures ret == 0 ==>
      out == Digest(alg, outlen, if keylen > 0 then key.value else [], if inlen > 0 then input.value else [])
  {
    hide Hash, BlockCount;
    if input.None? && inlen > 0 {
      return -1, [];
    }
    if outlen == 0 || outlen > OUTBYTES {
      return -1, [];
    }
    if (key.None? && keylen > 0) || keylen > KEYBYTES {
      return -1, [];
    }
    var state := new State(alg);
    if keylen > 0 {
      ret := state.InitKey(outlen, key, keylen);
    } else {
      ret := state.Init(outlen);
    }
    ret := state.Update(input, inlen);
    assert state.absorbed == KeyBlock(if keylen > 0 then key.value else []) + (if inlen > 0 then input.value else []);
    ret, out := state.Final(outlen);
  }

  /** The chunks, one after the other. */
  function Flatten(chunks: seq<seq<byte>>): seq<byte> {
    if chunks == [] then [] else Flatten(chunks[..|chunks| - 1]) + chunks[|chunks| - 1]
  }

  /** Any way of cutting a message into updates, empty ones included, gives the one-shot digest. */
  method HashChunks<H(!new)>(alg: Alg<H>, outlen: nat, key: seq<byte>, chunks: seq<seq<byte>>) returns (out: seq<byte>)
    requires alg.Valid() && 1 <= outlen <= OUTBYTES && |key| <= KEYBYTES
    ensures out == Digest(alg, outlen, key, Flatten(chunks))
  {
    hide Hash, BlockCount, State.Absorbing, KeyBlock;
    var state := new State(alg);
    var ret := StartHash(state, outlen, key);
    var i := 0;
    assert KeyBlock(key) + Flatten(chunks[..0]) == KeyBlock(key);
    while i < |chunks|
      invariant i <= |chunks| && state.f0 == 0 && state.Absorbing()
      invariant state.absorbed == KeyBlock(key) + Flatten(chunks[..i])
      invariant state.start == alg.init(outlen, |key|) && state.outlen == outlen && fresh(state) && fresh(state.buf)
    {
      assert chunks[..i + 1][..i] == chunks[..i];
      ret := state.Update(Some(chunks[i]), |chunks[i]|);
      assert state.absorbed == KeyBlock(key) + Flatten(chunks[..i]) + chunks[i];
      i := i + 1;
    }
    assert chunks[..i] == chunks;
    ret, out := state.Final(outlen);
  }

  /** Initialization with or without a key, as `blake2b` chooses it. */
  method StartHash<H(!new)>(state: State<H>, outlen: nat, key: seq<byte>) returns (ret: int)
    requires state.buf.Length == 128 && 1 <= outlen <= OUTBYTES && |key| <= KEYBYTES
    modifies state, state.buf
    ensures ret == 0 && state.Absorbing() && state.absorbed == KeyBlock(key)
    ensures state.start == state.alg.init(outlen, |key|) && state.outlen == outlen
  {
    if |key| > 0 {
      ret := state.InitKey(outlen, Some(key), |key|);
    } else {
      ret := state.Init(outlen);
    }
  }
}
