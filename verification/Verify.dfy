/** `argon2_hash` and `argon2_verify`: hashing to an encoded string, and checking a password against one. */
module Verify {
  import opened Words
  import opened Context
  import opened Base64
  import opened Base64Codec
  import opened EncodedText
  import opened Encoding
  import opened Blake2b
  import opened InitialHash
  import opened FillBlock
  import opened Tag
  import opened Argon2

  // ---- argon2_compare ----

  lemma ByteWords(d: nat, x: byte, y: byte)
    requires d < 256
    ensures Xor(x, y) < 256 && Or(d, Xor(x, y)) < 256
    ensures Or(d, Xor(x, y)) == 0 <==> d == 0 && x == y
  {
    hide Or, Xor;
    PowersOfTwo();
    XorBound(x, y, 8);
    OrBound(d, Xor(x, y), 8);
    OrZero(d, Xor(x, y));
    XorZero(x, y);
  }

  /** `argon2_compare`: zero exactly if all bytes agree, found without leaving the loop early. */
  method Compare(b1: array<byte>, b2: array<byte>, len: nat) returns (r: int)
    requires len <= b1.Length && len <= b2.Length
    ensures r == if b1[..len] == b2[..len] then 0 else -1
  {
    hide Or, Xor;
    var d: nat := 0;
    var i := 0;
    while i < len
      invariant i <= len && d < 256
      invariant d == 0 <==> b1[..i] == b2[..i]
    {
      ByteWords(d, b1[i], b2[i]);
      assert b1[..i + 1] == b1[..i] + [b1[i]] && b2[..i + 1] == b2[..i] + [b2[i]];
      d := Or(d, Xor(b1[i], b2[i]));
      i := i + 1;
    }
    r := (d - 1) / 256 % 2 - 1;
  }

  // ---- what is to be hashed ----

  predicate Covers(buf: Option<seq<byte>>, len: nat) { buf.Some? ==> len <= |buf.value| }

  /** The arguments of `argon2_hash`, and those of `argon2_verify` once it has decoded the string. */
  datatype Request = Request(costs: Costs, hashlen: nat, pwd: Option<seq<byte>>, pwdlen: nat,
                             salt: Option<seq<byte>>, saltlen: nat, ty: int)
  {
    predicate Covered() { costs.Words() && Covers(pwd, pwdlen) && Covers(salt, saltlen) }

    function LengthCode(): Code {
      if pwdlen > 0xFFFF_FFFF then PwdTooLong
      else if saltlen > 0xFFFF_FFFF then SaltTooLong
      else if hashlen > 0xFFFF_FFFF then OutputTooLong
      else if hashlen < 4 then OutputTooShort
      else Ok
    }

    /** The context that is built; the contents of its output buffer do not matter. */
    function ContextWith(out: seq<byte>): Inputs
      requires Covered() && LengthCode() == Ok && |out| == hashlen
    {
      Inputs(Some(out), hashlen, pwd, pwdlen, salt, saltlen, None, 0, None, 0,
        costs.tCost, costs.mCost, costs.lanes, costs.lanes, costs.version, false, false, 0)
    }

    /** The first error, if there is one. */
    function Code(): Code
      requires Covered()
    {
      if LengthCode() != Ok then LengthCode() else CtxCode(ContextWith(Zeros(hashlen)), ty)
    }
  }

  /** Validation does not look into the buffers. */
  lemma OutputIgnored(r: Request, out: seq<byte>)
    requires r.Covered() && r.LengthCode() == Ok && |out| == r.hashlen
    ensures CtxCode(r.ContextWith(out), r.ty) == r.Code()
  {
  }

  /** The tag. */
  function HashOf<H(!new)>(alg: Alg<H>, r: Request): (tag: seq<byte>)
    requires alg.Valid() && r.Covered() && r.Code() == Ok
    ensures |tag| == r.hashlen
  {
    ValidateIffInRange(r.ContextWith(Zeros(r.hashlen)));
    TagOf(alg, r.ContextWith(Zeros(r.hashlen)), r.ty)
  }

  /** The encoded hash. */
  function EncodedHash<H(!new)>(alg: Alg<H>, r: Request): string
    requires alg.Valid() && r.Covered() && r.Code() == Ok
  {
    EncodedWith(alg, r, Bytes(r.salt, r.saltlen))
  }

  /** The encoded hash, with the salt as it is found in its buffer when it is encoded. */
  function EncodedWith<H(!new)>(alg: Alg<H>, r: Request, salt: seq<byte>): string
    requires alg.Valid() && r.Covered() && r.Code() == Ok
  {
    Text(Fields(r.costs, salt, HashOf(alg, r)), TypeString(r.ty).value)
  }

  lemma HashOfContext<H(!new)>(alg: Alg<H>, r: Request, out: seq<byte>)
    requires alg.Valid() && r.Covered() && r.Code() == Ok && |out| == r.hashlen
    ensures InRange(r.ContextWith(out)) && TagOf(alg, r.ContextWith(out), r.ty) == HashOf(alg, r)
  {
    hide TagOf;
    ValidateIffInRange(r.ContextWith(out));
    ValidateIffInRange(r.ContextWith(Zeros(r.hashlen)));
    TagDependsOn(alg, r.ContextWith(out), r.ContextWith(Zeros(r.hashlen)), r.ty);
  }

  /** Only the bytes that count enter into the tag. */
  lemma HashOfDependsOn<H(!new)>(alg: Alg<H>, r: Request, q: Request)
    requires alg.Valid() && r.Covered() && q.Covered() && r.Code() == Ok && q.Code() == Ok
    requires r.costs == q.costs && r.hashlen == q.hashlen && r.ty == q.ty
    requires Bytes(r.pwd, r.pwdlen) == Bytes(q.pwd, q.pwdlen) && Bytes(r.salt, r.saltlen) == Bytes(q.salt, q.saltlen)
    ensures HashOf(alg, r) == HashOf(alg, q)
  {
    hide TagOf;
    ValidateIffInRange(r.ContextWith(Zeros(r.hashlen)));
    ValidateIffInRange(q.ContextWith(Zeros(r.hashlen)));
    TagDependsOn(alg, r.ContextWith(Zeros(r.hashlen)), q.ContextWith(Zeros(r.hashlen)), r.ty);
  }

  // ---- argon2_hash ----

  /** Past the length checks: the context is computed into a fresh buffer. */
  method HashInto<H(!new)>(alg: Alg<H>, os: Scheduler<Block>, costs: Costs, hashlen: nat, pwd: array?<byte>,
      pwdlen: nat, salt: array?<byte>, saltlen: nat, ty: int)
    returns (code: Code, ctx: Context)
    requires alg.Valid() && Completes(Argon2Kernel(), os)
    requires var r := Request(costs, hashlen, Contents(pwd), pwdlen, Contents(salt), saltlen, ty);
      r.Covered() && r.LengthCode() == Ok
    modifies pwd
    ensures pwd != null ==> pwd[..] == old(pwd[..])
    ensures fresh(ctx) && ctx.out != null && fresh(ctx.out) && ctx.out.Length == hashlen
    ensures ctx.pwd == pwd && ctx.salt == salt && ctx.secret == null && ctx.ad == null
    ensures var r := Request(costs, hashlen, old(Contents(pwd)), pwdlen, old(Contents(salt)), saltlen, ty);
      && ctx.View() == r.ContextWith(ctx.out[..]) && code == r.Code()
      && (code == Ok ==> ctx.out[..] == HashOf(alg, r))
  {
    hide TagOf, HashOf, ValidateInputs, Completes, InRange, AsHashed, Argon2Kernel;
    ghost var r := Request(costs, hashlen, Contents(pwd), pwdlen, Contents(salt), saltlen, ty);
    var out := new byte[hashlen];
    ctx := new Context(out, hashlen, pwd, pwdlen, salt, saltlen, costs.tCost, costs.mCost, costs.lanes, costs.version);
    ghost var out0 := out[..];
    OutputIgnored(r, out0);
    HashedAsGiven(ctx);
    code := Argon2Ctx(alg, os, ctx, ty);
    if code == Ok {
      assert out[..ctx.outlen] == out[..];
      HashOfContext(alg, r, out0);
    }
  }

  /** memcpy and clear_internal_memory of a whole buffer. */
  method CopyTo(dst: array<byte>, src: array<byte>, n: nat)
    requires n == src.Length <= dst.Length
    modifies dst
    ensures dst[..n] == old(src[..])
    ensures forall j :: n <= j < dst.Length ==> dst[j] == old(dst[j])
  {
    forall i | 0 <= i < n { dst[i] := src[i]; }
  }

  predicate Zeroed(a: array<char>, n: nat)
    reads a
  {
    forall j :: 0 <= j < n && j < a.Length ==> a[j] == 0 as char
  }

  method Wipe(dst: array<char>, n: nat)
    requires n <= dst.Length
    modifies dst
    ensures Zeroed(dst, n)
    ensures forall j :: n <= j < dst.Length ==> dst[j] == old(dst[j])
  {
    forall i | 0 <= i < n { dst[i] := 0 as char; }
  }

  /** The encoding step: on failure the buffer is wiped. */
  method EncodeOrWipe(encoded: array<char>, encodedlen: nat, ctx: Context, ty: int) returns (code: Code)
    requires encodedlen <= encoded.Length && ctx.View().Covered() && CtxCode(ctx.View(), ty) == Ok
    modifies encoded
    ensures var text := Text(FieldsOf(ctx.View()), TypeString(ty).value);
      && code == (if |text| < encodedlen then Ok else EncodingFail)
      && (code == Ok ==> HoldsText(encoded, text))
    ensures code != Ok ==> Zeroed(encoded, encodedlen)
    ensures forall j :: encodedlen <= j < encoded.Length ==> encoded[j] == old(encoded[j])
  {
    hide Text, ValidateInputs;
    code := EncodeString(encoded, encodedlen, ctx, ty);
    if code != Ok {
      Wipe(encoded, encodedlen);
      code := EncodingFail;
    }
  }

  /** `argon2_hash`. The raw hash is written before the encoding is tried, and stays if that fails; should
      its buffer be that of the salt, the salt that is encoded is what it has become. */
  method Argon2Hash<H(!new)>(alg: Alg<H>, os: Scheduler<Block>, tCost: u32, mCost: u32, parallelism: u32,
      pwd: array?<byte>, pwdlen: nat, salt: array?<byte>, saltlen: nat, hash: array?<byte>, hashlen: nat,
      encoded: array?<char>, encodedlen: nat, ty: int, version: u32) returns (code: Code)
    requires alg.Valid() && Completes(Argon2Kernel(), os)
    requires Covers(Contents(pwd), pwdlen) && Covers(Contents(salt), saltlen)
    requires (hash != null ==> hashlen <= hash.Length) && (encoded != null ==> encodedlen <= encoded.Length)
    modifies pwd, hash, encoded
    ensures pwd != null && pwd != hash ==> pwd[..] == old(pwd[..])
    ensures salt != null && salt != hash ==> salt[..] == old(salt[..])
    ensures var r := Request(Costs(version, mCost, tCost, parallelism), hashlen, old(Contents(pwd)), pwdlen,
                             old(Contents(salt)), saltlen, ty);
      if r.Code() != Ok then
        && code == r.Code()
        && (hash != null ==> hash[..] == old(hash[..])) && (encoded != null ==> encoded[..] == old(encoded[..]))
      else
        && (hash != null ==> hash[..hashlen] == HashOf(alg, r))
        && (if encoded == null || encodedlen == 0 then code == Ok else
              var text := EncodedWith(alg, r, Bytes(Contents(salt), saltlen));
              if |text| < encodedlen then code == Ok && HoldsText(encoded, text)
              else code == EncodingFail && Zeroed(encoded, encodedlen))
  {
    hide HashOf, Text, ValidateInputs, Completes, Argon2Kernel, TypeString;
    if pwdlen > 0xFFFF_FFFF {
      return PwdTooLong;
    }
    if saltlen > 0xFFFF_FFFF {
      return SaltTooLong;
    }
    if hashlen > 0xFFFF_FFFF {
      return OutputTooLong;
    }
    if hashlen < 4 {
      return OutputTooShort;
    }
    ghost var r := Request(Costs(version, mCost, tCost, parallelism), hashlen, Contents(pwd), pwdlen,
                           Contents(salt), saltlen, ty);
    var ctx;
    code, ctx := HashInto(alg, os, Costs(version, mCost, tCost, parallelism), hashlen, pwd, pwdlen, salt, saltlen, ty);
    if code != Ok {
      return;
    }
    if hash != null {
      CopyTo(hash, ctx.out, hashlen);
    }
    if encoded != null && encodedlen > 0 {
      ContextAfterHash(alg, ctx, r);
      code := EncodeOrWipe(encoded, encodedlen, ctx, ty);
    }
  }

  /** The context once the tag is in its output buffer, whatever has become of password and salt. */
  lemma ContextAfterHash<H(!new)>(alg: Alg<H>, ctx: Context, r: Request)
    requires alg.Valid() && r.Covered() && r.Code() == Ok && ctx.out != null && ctx.out[..] == HashOf(alg, r)
    requires Contents(ctx.pwd).Some? == r.pwd.Some? && Contents(ctx.salt).Some? == r.salt.Some?
    requires Covers(Contents(ctx.pwd), r.pwdlen) && Covers(Contents(ctx.salt), r.saltlen)
    requires ctx.View() == r.ContextWith(ctx.out[..]).(pwd := Contents(ctx.pwd), salt := Contents(ctx.salt))
    ensures ctx.View().Covered() && CtxCode(ctx.View(), r.ty) == Ok
    ensures FieldsOf(ctx.View()) == Fields(r.costs, Bytes(Contents(ctx.salt), r.saltlen), HashOf(alg, r))
  {
    hide HashOf;
    assert ctx.out[..r.hashlen] == ctx.out[..];
  }

  // ---- argon2_verify ----

  /** `argon2_verify_ctx`. The given tag is compared as it is found after the computation. */
  method Argon2VerifyCtx<H(!new)>(alg: Alg<H>, os: Scheduler<Block>, ctx: Context, hash: array<byte>, ty: int)
    returns (code: Code)
    requires alg.Valid() && Completes(Argon2Kernel(), os) && Sized(ctx) && ctx.outlen <= hash.Length
    modifies ctx`pwdlen, ctx`secretlen, ctx.pwd, ctx.secret, ctx.out
    ensures CtxCode(old(ctx.View()), ty) == Ok ==> InRange(old(AsHashed(ctx)))
    ensures code == if CtxCode(old(ctx.View()), ty) != Ok then CtxCode(old(ctx.View()), ty)
                    else if TagOf(alg, old(AsHashed(ctx)), ty) == hash[..ctx.outlen] then Ok else VerifyMismatch
    ensures code !in {Ok, VerifyMismatch} ==> ctx.View() == old(ctx.View())
    ensures CtxCode(old(ctx.View()), ty) == Ok && ctx.out !in {ctx.pwd, ctx.secret} ==> FieldsWiped(ctx)
  {
    hide TagOf, Completes, InRange, CtxCode, AsHashed, AfterSecret, AfterPassword, FieldsWiped;
    code := Argon2Ctx(alg, os, ctx, ty);
    if code != Ok {
      return;
    }
    var differ := Compare(hash, ctx.out, ctx.outlen);
    if differ != 0 {
      return VerifyMismatch;
    }
  }

  /** What the fields of an encoded hash ask to be hashed again. */
  function VerifyRequest(f: Fields, pwd: Option<seq<byte>>, pwdlen: nat, ty: int): Request {
    Request(f.costs, |f.out|, pwd, pwdlen, Some(f.salt), |f.salt|, ty)
  }

  /** The answer of `argon2_verify`: the string must have the format, of this type, with parameters in
      range and nothing after it, and the tag in it must be that of the password. */
  function VerifyCode<H(!new)>(alg: Alg<H>, encoded: Option<string>, pwd: Option<seq<byte>>, pwdlen: nat, ty: int): Code
    requires alg.Valid() && Covers(pwd, pwdlen)
  {
    if pwdlen > 0xFFFF_FFFF then PwdTooLong
    else if encoded.None? || |encoded.value| > 0xFFFF_FFFF then DecodingFail
    else if TypeString(ty).None? then IncorrectType
    else
      var t := AsRead(encoded.value);
      var step := Parse(t, TypeString(ty).value, |t|, |t|);
      if step.Fail? then DecodingFail
      else
        ParsedFits(t, TypeString(ty).value, |t|, |t|);
        var r := VerifyRequest(step.value, pwd, pwdlen, ty);
        if r.Code() != Ok then r.Code()
        else if step.rest != "" then DecodingFail
        else if HashOf(alg, r) == step.value.out then Ok else VerifyMismatch
  }

  /** A decoded context stands for the request. */
  predicate StandsFor(c: Inputs, r: Request) {
    && c.Covered() && c.out.Some? && c.salt.Some? && c.pwd == r.pwd && c.pwdlen == r.pwdlen
    && c.outlen == r.hashlen && r.salt == Some(c.salt.value[..c.saltlen]) && r.saltlen == c.saltlen
    && Costs(c.version, c.mCost, c.tCost, c.lanes) == r.costs && c.threads == c.lanes
    && c.secret.None? && c.secretlen == 0 && c.ad.None? && c.adlen == 0
    && !c.allocateCbk && !c.freeCbk
  }

  lemma DecodedCode(c: Inputs, r: Request)
    requires StandsFor(c, r) && r.Covered() && KnownType(r.ty)
    ensures ValidateInputs(c) == r.Code() && CtxCode(c, r.ty) == r.Code()
  {
    hide ValidateInputs;
    ShortOutput(c);
    if r.LengthCode() == Ok {
      SameValidation(c, r.ContextWith(Zeros(r.hashlen)));
    }
  }

  /** Validation looks only at the lengths and numbers, and at which buffers are NULL. */
  lemma SameValidation(c: Inputs, d: Inputs)
    requires c.out.Some? == d.out.Some? && c.outlen == d.outlen
    requires c.pwd.Some? == d.pwd.Some? && c.pwdlen == d.pwdlen
    requires c.salt.Some? == d.salt.Some? && c.saltlen == d.saltlen
    requires c.secret.Some? == d.secret.Some? && c.secretlen == d.secretlen
    requires c.ad.Some? == d.ad.Some? && c.adlen == d.adlen
    requires c.tCost == d.tCost && c.mCost == d.mCost && c.lanes == d.lanes && c.threads == d.threads
    requires c.allocateCbk == d.allocateCbk && c.freeCbk == d.freeCbk
    ensures ValidateInputs(c) == ValidateInputs(d)
  {
    hide U32;
  }

  lemma ShortOutput(c: Inputs)
    requires c.out.Some? && c.salt.Some?
    ensures c.outlen < 4 ==> ValidateInputs(c) == OutputTooShort
  {
    hide U32;
  }

  lemma DecodedTag<H(!new)>(alg: Alg<H>, c: Inputs, r: Request)
    requires alg.Valid() && StandsFor(c, r) && r.Covered() && r.Code() == Ok
    ensures InRange(c) && TagOf(alg, c, r.ty) == HashOf(alg, r)
  {
    hide TagOf;
    DecodedCode(c, r);
    ValidateIffInRange(c);
    ValidateIffInRange(r.ContextWith(Zeros(r.hashlen)));
    assert r.salt.value[..r.saltlen] == r.salt.value;
    TagDependsOn(alg, c, r.ContextWith(Zeros(r.hashlen)), r.ty);
  }

  /** From the decoded context on. */
  method Recompute<H(!new)>(alg: Alg<H>, os: Scheduler<Block>, ctx: Context, ty: int, ghost r: Request,
      ghost out: seq<byte>)
    returns (code: Code)
    requires alg.Valid() && Completes(Argon2Kernel(), os)
    requires StandsFor(ctx.View(), r) && r.Covered() && r.Code() == Ok && r.ty == ty && KnownType(ty) && ctx.flags == 0
    requires ctx.out != null && ctx.out != ctx.pwd && ctx.out[..ctx.outlen] == out
    modifies ctx, ctx.pwd
    ensures code == if HashOf(alg, r) == out then Ok else VerifyMismatch
    ensures ctx.pwd == old(ctx.pwd) && (ctx.pwd != null ==> ctx.pwd[..] == old(ctx.pwd[..]))
  {
    hide TagOf, HashOf, ValidateInputs, Completes, InRange, Request.Code;
    var desired := ctx.out;
    var out' := new byte[ctx.outlen];
    ctx.out := out';
    DecodedCode(ctx.View(), r);
    DecodedTag(alg, ctx.View(), r);
    code := Argon2VerifyCtx(alg, os, ctx, desired, ty);
  }

  lemma DecodedStandsFor(ctx: Context, f: Fields, pwd: Option<seq<byte>>, pwdlen: u32, ty: int)
    requires Receives(ctx) && Reset(ctx) && Shows(ctx, f) && ctx.salt != ctx.out
    requires pwd == Contents(ctx.pwd) && pwdlen == ctx.pwdlen && Covers(pwd, pwdlen)
    ensures StandsFor(ctx.View(), VerifyRequest(f, pwd, pwdlen, ty)) && VerifyRequest(f, pwd, pwdlen, ty).Covered()
  {
  }

  /** The context to decode into: no field can be longer than the string. */
  method MakeReceiver(maxFieldLen: u32, pwd: array?<byte>, pwdlen: u32) returns (ctx: Context)
    ensures fresh(ctx) && Receives(ctx) && fresh(ctx.salt) && fresh(ctx.out) && ctx.salt != ctx.out
    ensures ctx.saltlen == ctx.outlen == maxFieldLen && ctx.pwd == pwd && ctx.pwdlen == pwdlen
  {
    var salt, out := new byte[maxFieldLen], new byte[maxFieldLen];
    ctx := new Context(out, maxFieldLen, pwd, pwdlen, salt, maxFieldLen, 0, 0, 0, 0);
  }

  /** `argon2_verify`. */
  method Argon2Verify<H(!new)>(alg: Alg<H>, os: Scheduler<Block>, encoded: Option<string>, pwd: array?<byte>,
      pwdlen: nat, ty: int)
    returns (code: Code)
    requires alg.Valid() && Completes(Argon2Kernel(), os)
    requires (encoded.Some? ==> CString(encoded.value)) && Covers(Contents(pwd), pwdlen)
    modifies pwd
    ensures pwd != null ==> pwd[..] == old(pwd[..])
    ensures code == VerifyCode(alg, encoded, old(Contents(pwd)), pwdlen, ty)
  {
    hide HashOf, ValidateInputs, Completes, InRange, Request.Code, Parse, AsRead, Ascii, CString, Context.View,
      StandsFor, Shows, Reset;
    if pwdlen > 0xFFFF_FFFF {
      return PwdTooLong;
    }
    if encoded.None? || |encoded.value| > 0xFFFF_FFFF {
      return DecodingFail;
    }
    var ctx := MakeReceiver(|encoded.value|, pwd, pwdlen);
    ghost var n, pwd0 := |encoded.value|, Contents(pwd);
    code := DecodeString(ctx, encoded.value, ty);
    if TypeString(ty).Some? {
      ghost var step := Parse(AsRead(encoded.value), TypeString(ty).value, n, n);
      if step.Got? {
        DecodedStandsFor(ctx, step.value, pwd0, pwdlen, ty);
        DecodedCode(ctx.View(), VerifyRequest(step.value, pwd0, pwdlen, ty));
      }
    }
    if code != Ok {
      return;
    }
    ghost var f := Parse(AsRead(encoded.value), TypeString(ty).value, n, n).value;
    FlagsReset(ctx);
    DecodedOut(ctx, f);
    code := Recompute(alg, os, ctx, ty, VerifyRequest(f, pwd0, pwdlen, ty), f.out);
  }

  lemma FlagsReset(ctx: Context)
    requires Reset(ctx)
    ensures ctx.flags == 0
  {
  }

  lemma DecodedOut(ctx: Context, f: Fields)
    requires Receives(ctx) && Shows(ctx, f)
    ensures ctx.out[..ctx.outlen] == f.out
  {
  }

  // ---- end to end ----

  /** The encoded hash is a C string, longer than either of its fields. */
  lemma EncodedHashText<H(!new)>(alg: Alg<H>, r: Request)
    requires alg.Valid() && r.Covered() && r.Code() == Ok
    ensures Ascii(EncodedHash(alg, r))
    ensures r.saltlen <= |EncodedHash(alg, r)| && r.hashlen <= |EncodedHash(alg, r)|
  {
    hide HashOf, Text, ValidateInputs;
    var f := Fields(r.costs, Bytes(r.salt, r.saltlen), HashOf(alg, r));
    SaltPresent(r);
    TypeNameAscii(r.ty);
    TextAscii(f, TypeString(r.ty).value);
    TextLength(f, TypeString(r.ty).value);
    B64LenAtLeast(r.saltlen);
    B64LenAtLeast(r.hashlen);
  }

  lemma SaltPresent(r: Request)
    requires r.Covered() && r.Code() == Ok
    ensures r.salt.Some? && |Bytes(r.salt, r.saltlen)| == r.saltlen && KnownType(r.ty) && TypeString(r.ty).Some?
  {
    ValidateIffInRange(r.ContextWith(Zeros(r.hashlen)));
  }

  /** Another password, whole salt: the request made from the encoded hash. */
  function Again(r: Request, pwd: Option<seq<byte>>, pwdlen: nat): Request
    requires r.Covered() && r.LengthCode() == Ok
  {
    r.(pwd := pwd, pwdlen := pwdlen, salt := Some(Bytes(r.salt, r.saltlen)))
  }

  lemma AgainValid(r: Request, pwd: Option<seq<byte>>, pwdlen: nat)
    requires r.Covered() && r.Code() == Ok
    requires Covers(pwd, pwdlen) && pwdlen <= 0xFFFF_FFFF && (pwd.None? ==> pwdlen == 0)
    ensures Again(r, pwd, pwdlen).Covered() && Again(r, pwd, pwdlen).Code() == Ok
  {
    SaltPresent(r);
    ValidateIffInRange(r.ContextWith(Zeros(r.hashlen)));
    ValidateIffInRange(Again(r, pwd, pwdlen).ContextWith(Zeros(r.hashlen)));
  }

  /** What `EncodedHash` shows. */
  function Shown<H(!new)>(alg: Alg<H>, r: Request): Fields
    requires alg.Valid() && r.Covered() && r.Code() == Ok
  {
    Fields(r.costs, Bytes(r.salt, r.saltlen), HashOf(alg, r))
  }

  lemma VerifyText<H(!new)>(alg: Alg<H>, f: Fields, pwd: Option<seq<byte>>, pwdlen: nat, ty: int)
    requires alg.Valid() && Covers(pwd, pwdlen) && pwdlen <= 0xFFFF_FFFF && f.costs.Words() && TypeString(ty).Some?
    requires |f.salt| <= |Text(f, TypeString(ty).value)| && |f.out| <= |Text(f, TypeString(ty).value)| <= 0xFFFF_FFFF
    requires Ascii(Text(f, TypeString(ty).value))
    requires VerifyRequest(f, pwd, pwdlen, ty).Code() == Ok
    ensures VerifyCode(alg, Some(Text(f, TypeString(ty).value)), pwd, pwdlen, ty)
         == if HashOf(alg, VerifyRequest(f, pwd, pwdlen, ty)) == f.out then Ok else VerifyMismatch
  {
    hide HashOf, Text, Parse, Request.Code, TypeString, Ascii;
    var text := Text(f, TypeString(ty).value);
    ParseOfText(f, TypeString(ty).value, |text|, |text|);
  }

  lemma VerifyTextOther<H(!new)>(alg: Alg<H>, f: Fields, pwd: Option<seq<byte>>, pwdlen: nat, ty: int, other: int)
    requires alg.Valid() && Covers(pwd, pwdlen) && pwdlen <= 0xFFFF_FFFF && f.costs.Words() && TypeString(ty).Some?
    requires |f.salt| <= |Text(f, TypeString(ty).value)| && |f.out| <= |Text(f, TypeString(ty).value)| <= 0xFFFF_FFFF
    requires Ascii(Text(f, TypeString(ty).value)) && other != ty
    ensures VerifyCode(alg, Some(Text(f, TypeString(ty).value)), pwd, pwdlen, other)
         == if TypeString(other).Some? then DecodingFail else IncorrectType
  {
    hide HashOf, Text, Parse, Request.Code, TypeString, Ascii;
    var text := Text(f, TypeString(ty).value);
    ParseOfText(f, TypeString(ty).value, |text|, |text|);
    if TypeString(other).Some? {
      OneTypeOnly(text, ty, other, |text|, |text|, |text|, |text|);
    }
  }

  /** Verifying a password against the encoded hash of `r` compares the tags: the answer is OK if and only
      if this password has the same tag as the one that was hashed, with the same salt and costs. */
  lemma VerifyComparesTags<H(!new)>(alg: Alg<H>, r: Request, pwd: Option<seq<byte>>, pwdlen: nat)
    requires alg.Valid() && r.Covered() && r.Code() == Ok && |EncodedHash(alg, r)| <= 0xFFFF_FFFF
    requires Covers(pwd, pwdlen) && pwdlen <= 0xFFFF_FFFF && (pwd.None? ==> pwdlen == 0)
    ensures Again(r, pwd, pwdlen).Covered() && Again(r, pwd, pwdlen).Code() == Ok
    ensures VerifyCode(alg, Some(EncodedHash(alg, r)), pwd, pwdlen, r.ty)
         == if HashOf(alg, Again(r, pwd, pwdlen)) == HashOf(alg, r) then Ok else VerifyMismatch
  {
    AgainValid(r, pwd, pwdlen);
    SaltPresent(r);
    EncodedHashText(alg, r);
    hide HashOf, Text, VerifyCode, Request.Code, CtxCode;
    assert VerifyRequest(Shown(alg, r), pwd, pwdlen, r.ty) == Again(r, pwd, pwdlen);
    VerifyText(alg, Shown(alg, r), pwd, pwdlen, r.ty);
  }

  /** `argon2_verify` answers OK on what `argon2_hash` encoded, for the same password and type, whenever
      the encoded string is not longer than 2^32 - 1 characters. */
  lemma VerifyAcceptsHash<H(!new)>(alg: Alg<H>, r: Request)
    requires alg.Valid() && r.Covered() && r.Code() == Ok && |EncodedHash(alg, r)| <= 0xFFFF_FFFF
    ensures VerifyCode(alg, Some(EncodedHash(alg, r)), r.pwd, r.pwdlen, r.ty) == Ok
  {
    PasswordPresent(r);
    hide HashOf, VerifyCode, EncodedHash, Request.Code, CtxCode;
    VerifyComparesTags(alg, r, r.pwd, r.pwdlen);
    SaltPresent(r);
    SameSalt(r);
    HashOfDependsOn(alg, Again(r, r.pwd, r.pwdlen), r);
  }

  lemma SameSalt(r: Request)
    requires r.Covered() && r.LengthCode() == Ok && |Bytes(r.salt, r.saltlen)| == r.saltlen
    ensures Bytes(Again(r, r.pwd, r.pwdlen).salt, r.saltlen) == Bytes(r.salt, r.saltlen)
  {
  }

  lemma PasswordPresent(r: Request)
    requires r.Covered() && r.Code() == Ok
    ensures r.pwdlen <= 0xFFFF_FFFF && (r.pwd.None? ==> r.pwdlen == 0)
  {
    ValidateIffInRange(r.ContextWith(Zeros(r.hashlen)));
  }

  /** Under another type it never does, whatever the password. */
  lemma VerifyRejectsOtherType<H(!new)>(alg: Alg<H>, r: Request, pwd: Option<seq<byte>>, pwdlen: nat, ty: int)
    requires alg.Valid() && r.Covered() && r.Code() == Ok && |EncodedHash(alg, r)| <= 0xFFFF_FFFF
    requires Covers(pwd, pwdlen) && pwdlen <= 0xFFFF_FFFF && ty != r.ty
    ensures VerifyCode(alg, Some(EncodedHash(alg, r)), pwd, pwdlen, ty)
         == if TypeString(ty).Some? then DecodingFail else IncorrectType
  {
    SaltPresent(r);
    EncodedHashText(alg, r);
    hide HashOf, Text, VerifyCode, Request.Code, CtxCode, TypeString, KnownType;
    VerifyTextOther(alg, Shown(alg, r), pwd, pwdlen, r.ty, ty);
  }

  /** Conversely, a string with a version number that `argon2_verify` accepts for a password reads like the
      one `argon2_hash` encodes for that password and some salt and costs, and is the same if it is ASCII. */
  lemma AcceptedIsEncodedHash<H(!new)>(alg: Alg<H>, src: string, pwd: Option<seq<byte>>, pwdlen: nat, ty: int)
    returns (r: Request)
    requires alg.Valid() && Covers(pwd, pwdlen) && TypeString(ty).Some? && CString(src)
    requires "$" + (TypeString(ty).value + "$v=") <= AsRead(src)
    requires VerifyCode(alg, Some(src), pwd, pwdlen, ty) == Ok
    ensures r.Covered() && r.Code() == Ok && r.pwd == pwd && r.pwdlen == pwdlen && r.ty == ty
    ensures AsRead(src) == EncodedHash(alg, r) && (src == EncodedHash(alg, r) <==> Ascii(src))
  {
    hide HashOf, Text, Parse, Request.Code, ValidateInputs, TypeString, Ascii;
    var t := AsRead(src);
    var step := Parse(t, TypeString(ty).value, |t|, |t|);
    ReEncode(t, ty, |t|, |t|);
    ParsedFits(t, TypeString(ty).value, |t|, |t|);
    r := VerifyRequest(step.value, pwd, pwdlen, ty);
    assert Bytes(r.salt, r.saltlen) == step.value.salt;
    assert Fields(r.costs, Bytes(r.salt, r.saltlen), HashOf(alg, r)) == step.value;
  }
}
