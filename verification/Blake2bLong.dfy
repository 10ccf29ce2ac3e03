/** The variable-length hash H' of section 3.3 of RFC 9106 and the loop of `blake2b_long`. */
module Blake2bLong {
  import opened Words
  import opened Blake2b

  /** V_i, for i >= 1. */
  function V<H(!new)>(alg: Alg<H>, seed: seq<byte>, i: nat): (d: seq<byte>)
    requires alg.Valid() && i >= 1
    ensures |d| == 64
  {
    Digest(alg, 64, [], if i == 1 then seed else V(alg, seed, i - 1))
  }

  /** W_1 || ... || W_r, where W_i is the first half of V_i. */
  function Halves<H(!new)>(alg: Alg<H>, seed: seq<byte>, r: nat): (d: seq<byte>)
    requires alg.Valid()
    ensures |d| == 32 * r
  {
    if r == 0 then [] else Halves(alg, seed, r - 1) + V(alg, seed, r)[..32]
  }

  /** H' of `input` with `outlen` bytes. */
  function HPrime<H(!new)>(alg: Alg<H>, outlen: nat, input: seq<byte>): (d: seq<byte>)
    requires alg.Valid()
    ensures |d| == outlen
  {
    var seed := Le(outlen, 4) + input;
    if outlen <= 64 then Digest(alg, outlen, [], seed)
    else
      var r := (outlen + 31) / 32 - 2;
      Halves(alg, seed, r) + Digest(alg, outlen - 32 * r, [], V(alg, seed, r))
  }

  /** Outputs of at most 64 bytes are one digest, of the four length bytes and the input. */
  lemma ShortOutput<H(!new)>(alg: Alg<H>, outlen: nat, input: seq<byte>)
    requires alg.Valid() && outlen <= 64
    ensures HPrime(alg, outlen, input) == Digest(alg, outlen, [], [outlen as byte, 0, 0, 0] + input)
  {
    hide Digest;
    assert Le(0, 3) == [0, 0, 0];
    assert outlen % 256 == outlen && outlen / 256 == 0;
    assert Le(outlen, 4) == [outlen as byte] + Le(0, 3);
    assert Le(outlen, 4) == [outlen as byte, 0, 0, 0];
  }

  /** memcpy of `n` bytes to `out + at`. */
  method CopyOut(out: array<byte>, at: nat, src: seq<byte>, n: nat)
    requires n <= |src| && at + n <= out.Length
    modifies out
    ensures out[..at + n] == old(out[..at]) + src[..n]
    ensures forall j :: at + n <= j < out.Length ==> out[j] == old(out[j])
  {
    ghost var before := out[..at];
    forall i | 0 <= i < n { out[at + i] := src[i]; }
    assert out[..at] == before;
    assert out[at..at + n] == src[..n];
  }

  /** Hash the length prefix and the input, in two updates. */
  method PrefixedHash<H(!new)>(alg: Alg<H>, outlen: nat, prefix: seq<byte>, input: seq<byte>)
    returns (ret: int, d: seq<byte>)
    requires alg.Valid() && prefix != []
    ensures ret == if 1 <= outlen <= OUTBYTES then 0 else -1
    ensures ret == 0 ==> d == Digest(alg, outlen, [], prefix + input)
  {
    hide Hash, BlockCount, KeyBlock, State.Absorbing;
    var state := new State(alg);
    ret := state.Init(outlen);
    if ret < 0 {
      return -1, [];
    }
    ret := state.Update(Some(prefix), |prefix|);
    assert state.absorbed == prefix;
    ret := state.Update(Some(input), |input|);
    assert state.absorbed == prefix + input by {
      assert input == [] ==> prefix + input == prefix;
    }
    NoKey(prefix + input);
    ret, d := state.Final(outlen);
  }

  lemma NoKey(msg: seq<byte>)
    ensures KeyBlock([]) + msg == msg
  {
  }

  lemma NextHalf<H(!new)>(alg: Alg<H>, seed: seq<byte>, i: nat)
    requires alg.Valid() && i >= 1
    ensures V(alg, seed, i + 1) == Digest(alg, 64, [], V(alg, seed, i))
    ensures Halves(alg, seed, i + 1) == Halves(alg, seed, i) + V(alg, seed, i + 1)[..32]
  {
    hide Digest;
  }

  lemma FirstHalf<H(!new)>(alg: Alg<H>, seed: seq<byte>)
    requires alg.Valid()
    ensures V(alg, seed, 1) == Digest(alg, 64, [], seed) && Halves(alg, seed, 1) == V(alg, seed, 1)[..32]
  {
    hide Digest;
    assert Halves(alg, seed, 0) == [];
    assert [] + V(alg, seed, 1)[..32] == V(alg, seed, 1)[..32];
  }

  /** ceil(outlen / 32) - 2 halves leave 33 to 64 bytes for the last digest. */
  lemma LastPart<H(!new)>(alg: Alg<H>, outlen: nat, input: seq<byte>, i: nat)
    requires alg.Valid() && i >= 1 && 32 * i + 32 < outlen <= 32 * i + 64
    ensures var seed := Le(outlen, 4) + input;
      HPrime(alg, outlen, input) == Halves(alg, seed, i) + Digest(alg, outlen - 32 * i, [], V(alg, seed, i))
  {
    hide Digest, V, Halves, Le;
    assert i == (outlen + 31) / 32 - 2;
  }

  /** Outputs of more than 64 bytes: half of every digest but the last. */
  method LongOutput<H(!new)>(alg: Alg<H>, out: array<byte>, outlen: nat, outlenBytes: seq<byte>, input: seq<byte>)
    returns (ret: int)
    requires alg.Valid() && 64 < outlen <= out.Length && outlenBytes == Le(outlen, 4)
    modifies out
    ensures ret == 0 && out[..outlen] == HPrime(alg, outlen, input)
    ensures forall j :: outlen <= j < out.Length ==> out[j] == old(out[j])
  {
    hide Digest, V, Halves, HPrime;
    ghost var seed := outlenBytes + input;
    var outBuffer;
    ret, outBuffer := PrefixedHash(alg, OUTBYTES, outlenBytes, input);
    FirstHalf(alg, seed);
    CopyOut(out, 0, outBuffer, OUTBYTES / 2);
    var pos := OUTBYTES / 2;
    var toproduce := outlen - OUTBYTES / 2;
    ghost var i := 1;
    while toproduce > OUTBYTES
      invariant i >= 1 && pos == 32 * i && pos + toproduce == outlen && toproduce > 32
      invariant outBuffer == V(alg, seed, i)
      invariant out[..pos] == Halves(alg, seed, i)
      invariant forall j :: outlen <= j < out.Length ==> out[j] == old(out[j])
      decreases toproduce
    {
      NextHalf(alg, seed, i);
      ret, outBuffer := OneShot(alg, OUTBYTES, Some(outBuffer), OUTBYTES, None, 0);
      CopyOut(out, pos, outBuffer, OUTBYTES / 2);
      pos := pos + OUTBYTES / 2;
      toproduce := toproduce - OUTBYTES / 2;
      i := i + 1;
    }
    LastPart(alg, outlen, input, i);
    ret, outBuffer := OneShot(alg, toproduce, Some(outBuffer), OUTBYTES, None, 0);
    assert outBuffer[..toproduce] == outBuffer;
    CopyOut(out, pos, outBuffer, toproduce);
    assert out[..outlen] == HPrime(alg, outlen, input);
  }

  /** `blake2b_long`: exactly `outlen` bytes are written, and they are H'. */
  method Blake2bLong<H(!new)>(alg: Alg<H>, out: array<byte>, outlen: nat, input: seq<byte>) returns (ret: int)
    requires alg.Valid() && outlen <= out.Length
    modifies out
    ensures ret == if 1 <= outlen <= 0xFFFF_FFFF then 0 else -1
    ensures ret == 0 ==> out[..outlen] == HPrime(alg, outlen, input)
    ensures ret == 0 && outlen <= 64 ==> out[..outlen] == Digest(alg, outlen, [], [outlen as byte, 0, 0, 0] + input)
    ensures forall j :: outlen <= j < out.Length ==> out[j] == old(out[j])
  {
    if outlen > 0xFFFF_FFFF {
      return -1;
    }
    hide Digest, V, Halves, Le;
    var outlenBytes := Le(outlen, 4);
    if outlen <= OUTBYTES {
      var digest;
      ret, digest := PrefixedHash(alg, outlen, outlenBytes, input);
      if ret < 0 {
        return -1;
      }
      CopyOut(out, 0, digest, outlen);
      ShortOutput(alg, outlen, input);
    } else {
      ret := LongOutput(alg, out, outlen, outlenBytes, input);
    }
  }
}
