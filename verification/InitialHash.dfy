/** `initial_hash` of core.c: what is hashed before the memory is filled. */
module InitialHash {
  import opened Words
  import opened Context
  import opened Blake2b
  import opened ByteRefinement
  import Reference

  /** A length-prefixed field. */
  function Field(b: seq<byte>): seq<byte> { Le(|b|, 4) + b }

  /** The six numbers at the head of the preimage. */
  function Parameters(c: Inputs, ty: nat): (s: seq<byte>)
    ensures |s| == 24
  {
    Le(c.lanes, 4) + Le(c.outlen, 4) + Le(c.mCost, 4) + Le(c.tCost, 4) + Le(c.version, 4) + Le(ty, 4)
  }

  /** The input of H0, step 1 of section 3.2 of RFC 9106. */
  function Preimage(c: Inputs, ty: nat): seq<byte>
    requires c.Covered()
  {
    Parameters(c, ty)
    + Field(Bytes(c.pwd, c.pwdlen)) + Field(Bytes(c.salt, c.saltlen))
    + Field(Bytes(c.secret, c.secretlen)) + Field(Bytes(c.ad, c.adlen))
  }

  /** NULL buffers come with length zero, as `validate_inputs` checks. */
  predicate NullsEmpty(c: Inputs) {
    && (c.pwd.None? ==> c.pwdlen == 0) && (c.salt.None? ==> c.saltlen == 0)
    && (c.secret.None? ==> c.secretlen == 0) && (c.ad.None? ==> c.adlen == 0)
  }

  // ---- injectivity ----

  lemma WordInjective(x: nat, y: nat)
    requires x < 0x1_0000_0000 && y < 0x1_0000_0000 && Le(x, 4) == Le(y, 4)
    ensures x == y
  {
    PowersOf256();
    LeRoundTrip(x, 4);
    LeRoundTrip(y, 4);
  }

  lemma FieldPrefix(p: seq<byte>, q: seq<byte>, a: seq<byte>, b: seq<byte>)
    requires |p| < 0x1_0000_0000 && |q| < 0x1_0000_0000
    requires Field(p) + a == Field(q) + b
    ensures p == q && a == b
  {
    var s := Field(p) + a;
    assert Le(|p|, 4) == s[..4] && Le(|q|, 4) == s[..4];
    WordInjective(|p|, |q|);
    assert p == s[4..4 + |p|] && a == s[4 + |p|..];
    assert q == s[4..4 + |q|] && b == s[4 + |q|..];
  }

  lemma ParametersInjective(c: Inputs, d: Inputs, cty: nat, dty: nat)
    requires cty < 0x1_0000_0000 && dty < 0x1_0000_0000
    requires Parameters(c, cty) == Parameters(d, dty)
    ensures c.lanes == d.lanes && c.outlen == d.outlen && c.mCost == d.mCost && c.tCost == d.tCost
    ensures c.version == d.version && cty == dty
  {
    hide Le;
    var s := Parameters(c, cty);
    assert Le(c.lanes, 4) == s[..4] == Le(d.lanes, 4);
    assert Le(c.outlen, 4) == s[4..8] == Le(d.outlen, 4);
    assert Le(c.mCost, 4) == s[8..12] == Le(d.mCost, 4);
    assert Le(c.tCost, 4) == s[12..16] == Le(d.tCost, 4);
    assert Le(c.version, 4) == s[16..20] == Le(d.version, 4);
    assert Le(cty, 4) == s[20..24] == Le(dty, 4);
    WordInjective(c.lanes, d.lanes);
    WordInjective(c.outlen, d.outlen);
    WordInjective(c.mCost, d.mCost);
    WordInjective(c.tCost, d.tCost);
    WordInjective(c.version, d.version);
    WordInjective(cty, dty);
  }

  lemma FromTheLeft(a: seq<byte>, b: seq<byte>, c: seq<byte>, d: seq<byte>, e: seq<byte>)
    ensures a + b + c + d + e == a + (b + (c + (d + e)))
  {
  }

  lemma SameSplit(a: seq<byte>, b: seq<byte>, c: seq<byte>, d: seq<byte>)
    requires |a| == |c| && a + b == c + d
    ensures a == c && b == d
  {
    var s := a + b;
    assert a == s[..|a|] == c;
    assert b == s[|a|..] == d;
  }

  /** The parameters of a context under the names of section 3.1 of RFC 9106. */
  function ParamsOf(c: Inputs, ty: nat): Reference.Params
    requires c.Covered()
  {
    Reference.Params(c.lanes, c.outlen, c.mCost, c.tCost, c.version, ty, Bytes(c.pwd, c.pwdlen),
      Bytes(c.salt, c.saltlen), Bytes(c.secret, c.secretlen), Bytes(c.ad, c.adlen))
  }

  /** The head is the six numbers in the order lanes, tag length, memory, passes, version, type. */
  lemma HeadInWords(c: Inputs, ty: nat)
    ensures Parameters(c, ty) == Reference.Le32(c.lanes) + Reference.Le32(c.outlen) + Reference.Le32(c.mCost)
      + Reference.Le32(c.tCost) + Reference.Le32(c.version) + Reference.Le32(ty)
  {
    hide Le, Reference.Le32;
    LeFour(c.lanes);
    LeFour(c.outlen);
    LeFour(c.mCost);
    LeFour(c.tCost);
    LeFour(c.version);
    LeFour(ty);
  }

  lemma SameField(b: seq<byte>)
    ensures Field(b) == Reference.Le32(|b|) + b
  {
    LeFour(|b|);
  }

  /** Read from left to right, the preimage says what went into it. */
  lemma PreimageReads(c: Inputs, ty: nat)
    requires c.Covered() && ty < 0x1_0000_0000
    ensures Reference.ReadInputs(Preimage(c, ty)) == Some(ParamsOf(c, ty))
  {
    hide Parameters, Field, Reference.Le32, Reference.ReadField, Reference.Number32;
    var p := ParamsOf(c, ty);
    var f3 := Field(p.secret) + Field(p.data);
    var f2 := Field(p.salt) + f3;
    var f1 := Field(p.password) + f2;
    FromTheLeft(Parameters(c, ty), Field(p.password), Field(p.salt), Field(p.secret), Field(p.data));
    HeadInWords(c, ty);
    HeadRead(c.lanes, c.outlen, c.mCost, c.tCost, c.version, ty, f1);
    SameField(p.password);
    SameField(p.salt);
    SameField(p.secret);
    SameField(p.data);
    FieldRead(p.password, f2);
    FieldRead(p.salt, f3);
    FieldRead(p.secret, Field(p.data));
    LastFieldRead(p.data);
  }

  /** Different inputs hash different strings: the preimage determines every parameter and every field. */
  lemma PreimageInjective(c: Inputs, d: Inputs, cty: nat, dty: nat)
    requires c.Covered() && d.Covered() && NullsEmpty(c) && NullsEmpty(d)
    requires cty < 0x1_0000_0000 && dty < 0x1_0000_0000
    requires Preimage(c, cty) == Preimage(d, dty)
    ensures c.lanes == d.lanes && c.outlen == d.outlen && c.mCost == d.mCost && c.tCost == d.tCost
    ensures c.version == d.version && cty == dty
    ensures Bytes(c.pwd, c.pwdlen) == Bytes(d.pwd, d.pwdlen) && Bytes(c.salt, c.saltlen) == Bytes(d.salt, d.saltlen)
    ensures Bytes(c.secret, c.secretlen) == Bytes(d.secret, d.secretlen) && Bytes(c.ad, c.adlen) == Bytes(d.ad, d.adlen)
  {
    hide Le, Field, Parameters;
    var c4, d4 := Field(Bytes(c.ad, c.adlen)), Field(Bytes(d.ad, d.adlen));
    var c3, d3 := Field(Bytes(c.secret, c.secretlen)) + c4, Field(Bytes(d.secret, d.secretlen)) + d4;
    var c2, d2 := Field(Bytes(c.salt, c.saltlen)) + c3, Field(Bytes(d.salt, d.saltlen)) + d3;
    var c1, d1 := Field(Bytes(c.pwd, c.pwdlen)) + c2, Field(Bytes(d.pwd, d.pwdlen)) + d2;
    FromTheLeft(Parameters(c, cty), Field(Bytes(c.pwd, c.pwdlen)), Field(Bytes(c.salt, c.saltlen)),
      Field(Bytes(c.secret, c.secretlen)), c4);
    FromTheLeft(Parameters(d, dty), Field(Bytes(d.pwd, d.pwdlen)), Field(Bytes(d.salt, d.saltlen)),
      Field(Bytes(d.secret, d.secretlen)), d4);
    SameSplit(Parameters(c, cty), c1, Parameters(d, dty), d1);
    ParametersInjective(c, d, cty, dty);
    FieldPrefix(Bytes(c.pwd, c.pwdlen), Bytes(d.pwd, d.pwdlen), c2, d2);
    FieldPrefix(Bytes(c.salt, c.saltlen), Bytes(d.salt, d.saltlen), c3, d3);
    FieldPrefix(Bytes(c.secret, c.secretlen), Bytes(d.secret, d.secretlen), c4, d4);
    assert c4 + [] == c4 && d4 + [] == d4;
    FieldPrefix(Bytes(c.ad, c.adlen), Bytes(d.ad, d.adlen), [], []);
  }

  // ---- the updates ----

  /** One `blake2b_update` of a hash under way. */
  method Feed<H(!new)>(state: State<H>, bytes: seq<byte>)
    requires state.f0 == 0 && state.Absorbing()
    modifies state, state.buf
    ensures state.f0 == 0 && state.Absorbing() && state.absorbed == old(state.absorbed) + bytes
    ensures state.start == old(state.start) && state.outlen == old(state.outlen)
  {
    var _ := state.Update(Some(bytes), |bytes|);
    assert old(state.absorbed) + [] == old(state.absorbed);
  }

  /** Length and bytes of one field, the bytes only if the pointer is not NULL. */
  method FeedField<H(!new)>(state: State<H>, buf: array?<byte>, len: u32)
    requires state.f0 == 0 && state.Absorbing() && buf != state.buf
    requires (buf != null ==> len <= buf.Length) && (buf == null ==> len == 0)
    modifies state, state.buf
    ensures state.f0 == 0 && state.Absorbing()
    ensures state.absorbed == old(state.absorbed) + Field(if buf == null then [] else buf[..len])
    ensures state.start == old(state.start) && state.outlen == old(state.outlen)
  {
    hide Le, State.Absorbing;
    ghost var before, b := state.absorbed, if buf == null then [] else buf[..len];
    Feed(state, Le(len, 4));
    if buf != null {
      Feed(state, buf[..len]);
    }
    FieldAppended(before, b, state.absorbed, len);
  }

  lemma FieldAppended(a: seq<byte>, b: seq<byte>, all: seq<byte>, len: nat)
    requires |b| == len && (all == a + Le(len, 4) + b || (b == [] && all == a + Le(len, 4)))
    ensures all == a + Field(b)
  {
  }

  /** A string with its first `n` bytes zeroed. */
  function Wiped(s: seq<byte>, n: nat): (w: seq<byte>)
    requires n <= |s|
    ensures |w| == |s|
  {
    Zeros(n) + s[n..]
  }

  /** The contents of a buffer, zeroed if its flag is set. */
  twostate predicate WipedIf(clear: bool, buf: array?<byte>, len: nat)
    reads buf
  {
    buf != null ==> len <= buf.Length && buf[..] == if clear then Wiped(old(buf[..]), len) else old(buf[..])
  }

  /** A field that is wiped once it has been hashed, if its clear flag is set. */
  method FeedSecret<H(!new)>(state: State<H>, buf: array?<byte>, len: u32, clear: bool) returns (len': u32)
    requires state.f0 == 0 && state.Absorbing() && buf != state.buf
    requires (buf != null ==> len <= buf.Length) && (buf == null ==> len == 0)
    modifies state, state.buf, buf
    ensures state.f0 == 0 && state.Absorbing()
    ensures state.absorbed == old(state.absorbed) + old(Field(if buf == null then [] else buf[..len]))
    ensures state.start == old(state.start) && state.outlen == old(state.outlen)
    ensures len' == (if clear then 0 else len) && WipedIf(clear, buf, len)
  {
    FeedField(state, buf, len);
    len' := len;
    if buf != null && clear {
      forall i | 0 <= i < len { buf[i] := 0; }
      len' := 0;
    }
  }

  method FeedParameters<H(!new)>(state: State<H>, ctx: Context, ty: nat)
    requires state.f0 == 0 && state.Absorbing() && state.absorbed == []
    requires state.buf !in {ctx.out, ctx.pwd, ctx.salt, ctx.secret, ctx.ad}
    modifies state, state.buf
    ensures state.f0 == 0 && state.Absorbing() && state.absorbed == Parameters(ctx.View(), ty)
    ensures state.start == old(state.start) && state.outlen == old(state.outlen)
  {
    hide Le;
    Feed(state, Le(ctx.lanes, 4));
    Feed(state, Le(ctx.outlen, 4));
    Feed(state, Le(ctx.mCost, 4));
    Feed(state, Le(ctx.tCost, 4));
    Feed(state, Le(ctx.version, 4));
    Feed(state, Le(ty, 4));
    assert [] + Le(ctx.lanes, 4) == Le(ctx.lanes, 4);
  }

  // What is hashed where buffers are shared: a field that comes after the wiping of its buffer.

  function AfterPassword(ctx: Context, b: array?<byte>): (s: Option<seq<byte>>)
    requires ctx.pwd != null ==> ctx.pwdlen <= ctx.pwd.Length
    reads ctx, b
    ensures s.Some? <==> b != null
    ensures b != null ==> |s.value| == b.Length
  {
    if b == null then None
    else if ctx.flags % 2 == 1 && b == ctx.pwd then Some(Wiped(b[..], ctx.pwdlen))
    else Some(b[..])
  }

  function AfterSecret(ctx: Context, b: array?<byte>): (s: Option<seq<byte>>)
    requires ctx.pwd != null ==> ctx.pwdlen <= ctx.pwd.Length
    requires ctx.secret != null ==> ctx.secretlen <= ctx.secret.Length
    reads ctx, b
    ensures s.Some? <==> b != null
    ensures b != null ==> |s.value| == b.Length
  {
    if b == null then None
    else if ctx.flags / 2 % 2 == 1 && b == ctx.secret then Some(Wiped(AfterPassword(ctx, b).value, ctx.secretlen))
    else AfterPassword(ctx, b)
  }

  predicate Sized(ctx: Context)
    reads ctx
  {
    && (ctx.pwd != null ==> ctx.pwdlen <= ctx.pwd.Length) && (ctx.salt != null ==> ctx.saltlen <= ctx.salt.Length)
    && (ctx.secret != null ==> ctx.secretlen <= ctx.secret.Length) && (ctx.ad != null ==> ctx.adlen <= ctx.ad.Length)
    && (ctx.out != null ==> ctx.outlen <= ctx.out.Length)
  }

  lemma SizedIffCovered(ctx: Context)
    ensures Sized(ctx) <==> ctx.View().Covered()
  {
  }

  /** The inputs as they are hashed. */
  function AsHashed(ctx: Context): (c: Inputs)
    requires Sized(ctx)
    reads ctx, ctx.out, ctx.pwd, ctx.salt, ctx.secret, ctx.ad
    ensures c.Covered() && c == ctx.View().(salt := c.salt, secret := c.secret, ad := c.ad)
    ensures c.salt.Some? == ctx.View().salt.Some? && c.secret.Some? == ctx.View().secret.Some?
    ensures c.ad.Some? == ctx.View().ad.Some?
  {
    ctx.View().(salt := AfterPassword(ctx, ctx.salt), secret := AfterPassword(ctx, ctx.secret),
      ad := AfterSecret(ctx, ctx.ad))
  }

  /** A buffer that is wiped midway is not one of those hashed later. */
  predicate WipeSafe(ctx: Context)
    reads ctx
  {
    && (ctx.flags % 2 == 1 && ctx.pwd != null ==> ctx.pwd !in {ctx.salt, ctx.secret, ctx.ad})
    && (ctx.flags / 2 % 2 == 1 && ctx.secret != null ==> ctx.secret != ctx.ad)
  }

  /** Then the clear flags do not change what is hashed. */
  lemma HashedAsGiven(ctx: Context)
    requires Sized(ctx) && WipeSafe(ctx)
    ensures AsHashed(ctx) == ctx.View()
  {
  }

  /** The parameters, the password and the salt. */
  method FeedFirst<H(!new)>(state: State<H>, ctx: Context, ty: nat)
    requires state.f0 == 0 && state.Absorbing() && state.absorbed == []
    requires Sized(ctx) && NullsEmpty(ctx.View())
    requires state.buf !in {ctx.out, ctx.pwd, ctx.salt, ctx.secret, ctx.ad}
    modifies state, state.buf, ctx`pwdlen, ctx.pwd
    ensures state.f0 == 0 && state.Absorbing()
    ensures state.start == old(state.start) && state.outlen == old(state.outlen)
    ensures state.absorbed == old(Parameters(ctx.View(), ty))
      + old(Field(if ctx.pwd == null then [] else ctx.pwd[..ctx.pwdlen]))
      + Field(if ctx.salt == null then [] else ctx.salt[..ctx.saltlen])
    ensures ctx.pwdlen == (if ctx.flags % 2 == 1 then 0 else old(ctx.pwdlen))
    ensures WipedIf(ctx.flags % 2 == 1, ctx.pwd, old(ctx.pwdlen))
  {
    hide Le, Field, Parameters, State.Absorbing, Wiped;
    FeedParameters(state, ctx, ty);
    ctx.pwdlen := FeedSecret(state, ctx.pwd, ctx.pwdlen, ctx.flags % 2 == 1);
    FeedField(state, ctx.salt, ctx.saltlen);
  }

  /** The secret and the associated data. */
  method FeedSecond<H(!new)>(state: State<H>, ctx: Context)
    requires state.f0 == 0 && state.Absorbing()
    requires (ctx.secret != null ==> ctx.secretlen <= ctx.secret.Length) && (ctx.secret == null ==> ctx.secretlen == 0)
    requires (ctx.ad != null ==> ctx.adlen <= ctx.ad.Length) && (ctx.ad == null ==> ctx.adlen == 0)
    requires state.buf !in {ctx.secret, ctx.ad}
    modifies state, state.buf, ctx`secretlen, ctx.secret
    ensures state.f0 == 0 && state.Absorbing()
    ensures state.start == old(state.start) && state.outlen == old(state.outlen)
    ensures state.absorbed == old(state.absorbed)
      + old(Field(if ctx.secret == null then [] else ctx.secret[..ctx.secretlen]))
      + Field(if ctx.ad == null then [] else ctx.ad[..ctx.adlen])
    ensures ctx.secretlen == (if ctx.flags / 2 % 2 == 1 then 0 else old(ctx.secretlen))
    ensures WipedIf(ctx.flags / 2 % 2 == 1, ctx.secret, old(ctx.secretlen))
  {
    hide Le, Field, State.Absorbing, Wiped;
    ctx.secretlen := FeedSecret(state, ctx.secret, ctx.secretlen, ctx.flags / 2 % 2 == 1);
    FeedField(state, ctx.ad, ctx.adlen);
  }

  /** What the fields and buffers have become. */
  twostate predicate FieldsWiped(ctx: Context)
    requires old(Sized(ctx))
    reads ctx, ctx.pwd, ctx.secret
  {
    && ctx.pwdlen == (if old(ctx.flags) % 2 == 1 then 0 else old(ctx.pwdlen))
    && ctx.secretlen == (if old(ctx.flags) / 2 % 2 == 1 then 0 else old(ctx.secretlen))
    && ctx.pwd == old(ctx.pwd) && ctx.secret == old(ctx.secret)
    && (ctx.pwd != null ==> Some(ctx.pwd[..]) == old(AfterSecret(ctx, ctx.pwd)))
    && (ctx.secret != null ==> Some(ctx.secret[..]) == old(AfterSecret(ctx, ctx.secret)))
  }

  lemma SameParameters(c: Inputs, d: Inputs, ty: nat)
    requires d == c.(salt := d.salt, secret := d.secret, ad := d.ad)
    ensures Parameters(c, ty) == Parameters(d, ty)
  {
    hide Le;
  }

  /** All the updates, with the wiping between them. */
  method FeedAll<H(!new)>(state: State<H>, ctx: Context, ty: nat)
    requires state.f0 == 0 && state.Absorbing() && state.absorbed == []
    requires Sized(ctx) && NullsEmpty(ctx.View())
    requires state.buf !in {ctx.out, ctx.pwd, ctx.salt, ctx.secret, ctx.ad}
    modifies state, state.buf, ctx`pwdlen, ctx`secretlen, ctx.pwd, ctx.secret
    ensures state.f0 == 0 && state.Absorbing() && state.absorbed == Preimage(old(AsHashed(ctx)), ty)
    ensures state.start == old(state.start) && state.outlen == old(state.outlen)
    ensures FieldsWiped(ctx)
  {
    hide Le, Field, Parameters, State.Absorbing, Wiped;
    ghost var c := AsHashed(ctx);
    SameParameters(ctx.View(), c, ty);
    assert Bytes(c.pwd, c.pwdlen) == if ctx.pwd == null then [] else ctx.pwd[..ctx.pwdlen];
    FeedFirst(state, ctx, ty);
    assert Bytes(c.salt, c.saltlen) == if ctx.salt == null then [] else ctx.salt[..ctx.saltlen];
    assert Bytes(c.secret, c.secretlen) == if ctx.secret == null then [] else ctx.secret[..ctx.secretlen];
    FeedSecond(state, ctx);
    assert Bytes(c.ad, c.adlen) == if ctx.ad == null then [] else ctx.ad[..ctx.adlen];
  }

  /** `initial_hash`: the digest is that of the preimage, a string from which all inputs can be read. */
  method InitialHash<H(!new)>(alg: Alg<H>, ctx: Context, ty: nat) returns (blockhash: seq<byte>)
    requires alg.Valid() && Sized(ctx) && NullsEmpty(ctx.View())
    modifies ctx`pwdlen, ctx`secretlen, ctx.pwd, ctx.secret
    ensures blockhash == Digest(alg, 64, [], Preimage(old(AsHashed(ctx)), ty))
    ensures ty < 0x1_0000_0000 ==> HashOfInputs(alg, blockhash, ParamsOf(old(AsHashed(ctx)), ty))
    ensures FieldsWiped(ctx)
  {
    hide Hash, BlockCount, State.Absorbing, Preimage, AsHashed, AfterSecret, AfterPassword, Digest, ParamsOf,
      HashOfInputs, NullsEmpty;
    ghost var c := AsHashed(ctx);
    HashedReads(alg, c, ty);
    var state := new State(alg);
    var ret := state.Init(64);
    FeedAll(state, ctx, ty);
    assert KeyBlock([]) + Preimage(c, ty) == Preimage(c, ty);
    ret, blockhash := state.Final(64);
    DigestUnfolds(alg, Preimage(c, ty));
  }

  /** The digest of a string that reads as these parameters. */
  ghost predicate HashOfInputs<H(!new)>(alg: Alg<H>, h: seq<byte>, p: Reference.Params)
    requires alg.Valid()
  {
    exists s: seq<byte> {:trigger Digest(alg, 64, [], s)} ::
      h == Digest(alg, 64, [], s) && Reference.ReadInputs(s) == Some(p)
  }

  lemma HashedReads<H(!new)>(alg: Alg<H>, c: Inputs, ty: nat)
    requires alg.Valid() && c.Covered()
    ensures ty < 0x1_0000_0000 ==> HashOfInputs(alg, Digest(alg, 64, [], Preimage(c, ty)), ParamsOf(c, ty))
  {
    hide Digest, Preimage, ParamsOf, Reference.ReadInputs;
    if ty < 0x1_0000_0000 {
      PreimageReads(c, ty);
    }
  }

  lemma DigestUnfolds<H(!new)>(alg: Alg<H>, msg: seq<byte>)
    requires alg.Valid()
    ensures Digest(alg, 64, [], msg) == alg.image(Hash(alg, alg.init(64, 0), msg))[..64]
  {
    hide Hash;
    assert KeyBlock([]) + msg == msg;
  }
}
