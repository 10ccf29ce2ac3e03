/** `encode_string`, `decode_string` and `argon2_encodedlen`, against the format of EncodedText. */
module Encoding {
  import opened Words
  import opened Indexing
  import opened Context
  import opened Base64
  import opened Base64Codec
  import opened Decimal
  import opened EncodedText

  /** What an encoded hash shows of a context. */
  function FieldsOf(c: Inputs): Fields
    requires c.Covered()
  {
    Fields(Costs(c.version, c.mCost, c.tCost, c.lanes), Bytes(c.salt, c.saltlen), Bytes(c.out, c.outlen))
  }

  // ---- encode_string: the macros SS, SX and SB, each with what is still to be written ----

  /** SS. */
  method PutText(dst: array<char>, pos: nat, dstLen: nat, text: string, ghost rest: string, ghost goal: string)
    returns (ok: bool, pos': nat, dstLen': nat)
    requires pos + dstLen <= dst.Length && dst[..pos] + (text + rest) == goal
    modifies dst
    ensures ok <==> |text| < dstLen
    ensures ok ==> pos' == pos + |text| && dstLen' == dstLen - |text| && dst[..pos'] + rest == goal
    ensures ok ==> dst[pos'] == 0 as char && forall j :: pos' < j < dst.Length ==> dst[j] == old(dst[j])
    ensures !ok ==> dst[..] == old(dst[..])
  {
    if |text| >= dstLen {
      return false, pos, dstLen;
    }
    ghost var before := dst[..pos];
    forall i | 0 <= i <= |text| { dst[pos + i] := if i < |text| then text[i] else 0 as char; }
    ok, pos', dstLen' := true, pos + |text|, dstLen - |text|;
    assert dst[..pos] == before && dst[pos..pos'] == text;
    assert dst[..pos'] + rest == before + (text + rest);
  }

  /** SS of a prefix, then SX of a number. */
  method PutNumber(dst: array<char>, pos: nat, dstLen: nat, prefix: string, x: u32, ghost rest: string,
      ghost goal: string)
    returns (ok: bool, pos': nat, dstLen': nat)
    requires pos + dstLen <= dst.Length && dst[..pos] + Number(prefix, x, rest) == goal
    modifies dst
    ensures ok <==> |prefix| + |Dec(x)| < dstLen
    ensures ok ==> pos' == pos + |prefix| + |Dec(x)| && dstLen' == dstLen - |prefix| - |Dec(x)|
    ensures ok ==> dst[..pos'] + rest == goal
    ensures ok ==> dst[pos'] == 0 as char && forall j :: pos' < j < dst.Length ==> dst[j] == old(dst[j])
    ensures forall j :: pos + dstLen <= j < dst.Length ==> dst[j] == old(dst[j])
  {
    hide Dec;
    ok, pos', dstLen' := PutText(dst, pos, dstLen, prefix, Dec(x) + rest, goal);
    if ok {
      ok, pos', dstLen' := PutText(dst, pos', dstLen', Dec(x), rest, goal);
    }
  }

  /** SS of `$`, then SB of a buffer. */
  method PutBinary(dst: array<char>, pos: nat, dstLen: nat, b: seq<byte>, ghost rest: string, ghost goal: string)
    returns (ok: bool, pos': nat, dstLen': nat)
    requires pos + dstLen <= dst.Length && dst[..pos] + Binary(b, rest) == goal
    modifies dst
    ensures ok <==> 1 + B64Len(|b|) < dstLen
    ensures ok ==> pos' == pos + 1 + B64Len(|b|) && dstLen' == dstLen - 1 - B64Len(|b|)
    ensures ok ==> dst[..pos'] + rest == goal
    ensures ok ==> dst[pos'] == 0 as char && forall j :: pos' < j < dst.Length ==> dst[j] == old(dst[j])
    ensures forall j :: pos + dstLen <= j < dst.Length ==> dst[j] == old(dst[j])
  {
    hide B64Len, Sextets, Chars;
    ok, pos', dstLen' := PutText(dst, pos, dstLen, "$", Chars(Sextets(b)) + rest, goal);
    if ok {
      ghost var before := dst[..pos'];
      var sbLen := ToBase64(dst, pos', dstLen', b);
      if sbLen == -1 {
        return false, pos', dstLen';
      }
      var end := pos' + sbLen;
      assert dst[..end + 1] == before + Chars(Sextets(b)) + [0 as char];
      assert dst[..end] == before + Chars(Sextets(b)) && dst[end] == 0 as char;
      pos', dstLen' := end, dstLen' - sbLen;
    }
  }

  /** The four costs, version first. */
  method PutCosts(dst: array<char>, pos: nat, dstLen: nat, c: Costs, ghost rest: string, ghost goal: string)
    returns (ok: bool, pos': nat, dstLen': nat)
    requires c.Words()
    requires pos + dstLen <= dst.Length && dst[..pos] + Number("$v=", c.version, CostText(c, rest)) == goal
    modifies dst
    ensures ok <==> |goal| - |rest| < pos + dstLen
    ensures ok ==> pos' == |goal| - |rest| && pos' + dstLen' == pos + dstLen && dst[..pos'] + rest == goal
    ensures ok ==> dst[pos'] == 0 as char && forall j :: pos' < j < dst.Length ==> dst[j] == old(dst[j])
    ensures forall j :: pos + dstLen <= j < dst.Length ==> dst[j] == old(dst[j])
  {
    CostsLength(c, rest);
    hide Dec, Number;
    ghost var three := Number(",p=", c.lanes, rest);
    ghost var two := Number(",t=", c.tCost, three);
    ok, pos', dstLen' := PutNumber(dst, pos, dstLen, "$v=", c.version, CostText(c, rest), goal);
    if ok {
      ok, pos', dstLen' := PutNumber(dst, pos', dstLen', "$m=", c.mCost, two, goal);
    }
    if ok {
      ok, pos', dstLen' := PutNumber(dst, pos', dstLen', ",t=", c.tCost, three, goal);
    }
    if ok {
      ok, pos', dstLen' := PutNumber(dst, pos', dstLen', ",p=", c.lanes, rest, goal);
    }
  }

  lemma CostsLength(c: Costs, rest: string)
    ensures |Number("$v=", c.version, CostText(c, rest))| == 12 + |Dec(c.version)| + |Dec(c.mCost)|
      + |Dec(c.tCost)| + |Dec(c.lanes)| + |rest|
    ensures |CostText(c, rest)| == 9 + |Dec(c.mCost)| + |Dec(c.tCost)| + |Dec(c.lanes)| + |rest|
  {
    hide Dec;
  }

  /** The writing part of `encode_string`. */
  method PutFields(dst: array<char>, dstLen: nat, name: string, f: Fields) returns (ok: bool)
    requires dstLen <= dst.Length && f.costs.Words()
    modifies dst
    ensures ok <==> |Text(f, name)| < dstLen
    ensures ok ==> dst[..|Text(f, name)| + 1] == Text(f, name) + [0 as char]
    ensures ok ==> forall j :: |Text(f, name)| < j < dst.Length ==> dst[j] == old(dst[j])
    ensures forall j :: dstLen <= j < dst.Length ==> dst[j] == old(dst[j])
  {
    ghost var goal := Text(f, name);
    ghost var last := Binary(f.out, "");
    ghost var blobs := Binary(f.salt, last);
    ghost var costs := Number("$v=", f.costs.version, Body(f, ""));
    BlobsLength(f);
    hide B64Len, Number, Binary, CostText;
    assert dst[..0] == [];
    var pos, len;
    ok, pos, len := PutText(dst, 0, dstLen, "$", name + costs, goal);
    if ok {
      ok, pos, len := PutText(dst, pos, len, name, costs, goal);
    }
    if ok {
      ok, pos, len := PutCosts(dst, pos, len, f.costs, blobs, goal);
    }
    if ok {
      ok, pos, len := PutBinary(dst, pos, len, f.salt, last, goal);
    }
    if ok {
      ok, pos, len := PutBinary(dst, pos, len, f.out, "", goal);
    }
    if ok {
      assert dst[..pos] + "" == dst[..pos];
      assert dst[..pos + 1] == dst[..pos] + [dst[pos]];
    }
  }

  /** The answer of `encode_string` for a buffer of `dstLen` characters. */
  function EncodeCode(c: Inputs, ty: int, dstLen: nat): Code
    requires c.Covered()
  {
    if TypeString(ty).None? then EncodingFail
    else if ValidateInputs(c) != Ok then ValidateInputs(c)
    else if |Text(FieldsOf(c), TypeString(ty).value)| < dstLen then Ok else EncodingFail
  }

  /** The buffer begins with this C string. */
  predicate HoldsText(a: array<char>, text: string)
    reads a
  {
    |text| < a.Length && a[..|text| + 1] == text + [0 as char]
  }

  /** `encode_string` succeeds exactly if the buffer has room for the text and its terminator. */
  method EncodeString(dst: array<char>, dstLen: nat, ctx: Context, ty: int) returns (code: Code)
    requires dstLen <= dst.Length && ctx.View().Covered()
    modifies dst
    ensures code == EncodeCode(ctx.View(), ty, dstLen)
    ensures code == Ok ==>
      var text := Text(FieldsOf(ctx.View()), TypeString(ty).value);
      HoldsText(dst, text) && forall j :: |text| < j < dst.Length ==> dst[j] == old(dst[j])
    ensures code == Ok ==> Labelled(dst[..], ty)
    ensures forall j :: dstLen <= j < dst.Length ==> dst[j] == old(dst[j])
  {
    hide ValidateInputs, TypeString, Text, Context.View, Labelled, Inputs.Covered;
    var typeString := TypeString(ty);
    var validation := ValidateInputs(ctx.View());
    if typeString.None? {
      return EncodingFail;
    }
    if validation != Ok {
      return validation;
    }
    var ok := PutFields(dst, dstLen, typeString.value, FieldsOf(ctx.View()));
    if !ok {
      return EncodingFail;
    }
    TextLabelled(dst, FieldsOf(ctx.View()), ty);
    return Ok;
  }

  lemma TextLabelled(a: array<char>, f: Fields, ty: int)
    requires TypeString(ty).Some? && HoldsText(a, Text(f, TypeString(ty).value))
    ensures Labelled(a[..], ty)
  {
    hide Text, Labelled;
    var text := Text(f, TypeString(ty).value);
    assert a[..] == text + a[|text|..];
    PrintedLabel(f, ty, a[|text|..]);
  }

  lemma BlobsLength(f: Fields)
    ensures |Binary(f.out, "")| == 1 + B64Len(|f.out|)
    ensures |Binary(f.salt, Binary(f.out, ""))| == 2 + B64Len(|f.salt|) + B64Len(|f.out|)
  {
    hide B64Len;
  }

  // ---- argon2_encodedlen ----

  /** What `argon2_encodedlen` announces; two characters are meant for the version. */
  function AnnouncedLen(tCost: nat, mCost: nat, parallelism: nat, saltlen: nat, hashlen: nat, ty: int): nat
    requires TypeString(ty).Some?
  {
    18 + |TypeString(ty).value| + |Dec(tCost)| + |Dec(mCost)| + |Dec(parallelism)| + B64Len(saltlen) + B64Len(hashlen)
  }

  method EncodedLen(tCost: u32, mCost: u32, parallelism: u32, saltlen: u32, hashlen: u32, ty: int) returns (len: nat)
    requires TypeString(ty).Some?
    ensures len == AnnouncedLen(tCost, mCost, parallelism, saltlen, hashlen, ty)
  {
    hide Dec, B64Len;
    var t := NumLen(tCost);
    var m := NumLen(mCost);
    var p := NumLen(parallelism);
    var v := NumLen(VERSION_13);
    var salt := OutputLength(saltlen);
    var hash := OutputLength(hashlen);
    TwoDigits(19);
    len := |"$$v=$m=,t=,p=$$"| + |TypeString(ty).value| + t + m + p + salt + hash + v + 1;
  }

  lemma TwoDigits(x: nat)
    ensures |Dec(x)| == 2 <==> 10 <= x < 100
  {
    if x >= 100 {
      DecLonger(100, x);
    }
  }

  function AnnouncedFor(c: Inputs, ty: int): nat
    requires TypeString(ty).Some?
  {
    AnnouncedLen(c.tCost, c.mCost, c.lanes, c.saltlen, c.outlen, ty)
  }

  lemma AnnouncedAgainstText(c: Inputs, ty: int)
    requires c.Covered() && TypeString(ty).Some? && InRange(c)
    ensures |Text(FieldsOf(c), TypeString(ty).value)| + 1 == AnnouncedFor(c, ty) + |Dec(c.version)| - 2
  {
    hide Text, Dec, B64Len, TypeString;
    TextLength(FieldsOf(c), TypeString(ty).value);
  }

  /** For a valid context, `encode_string` succeeds exactly with the buffers that are at least as long as
      announced, if and only if the version has two digits, as 0x10 and 0x13 do; the text and its
      terminator then fill exactly that many characters. */
  lemma AnnouncedLenExact(c: Inputs, ty: int)
    requires c.Covered() && TypeString(ty).Some? && ValidateInputs(c) == Ok
    ensures (forall n: nat :: EncodeCode(c, ty, n) == Ok <==> n >= AnnouncedFor(c, ty)) <==> 10 <= c.version < 100
    ensures 10 <= c.version < 100 ==> |Text(FieldsOf(c), TypeString(ty).value)| + 1 == AnnouncedFor(c, ty)
  {
    ValidateIffInRange(c);
    AnnouncedAgainstText(c, ty);
    TwoDigits(c.version);
    hide Text, Dec, AnnouncedFor, TypeString, ValidateInputs;
    var exact := |Text(FieldsOf(c), TypeString(ty).value)| + 1;
    assert EncodeCode(c, ty, exact) == Ok;
    assert EncodeCode(c, ty, exact - 1) != Ok;
  }

  /** A context of version 100 for which the announced buffer is too small. */
  lemma AnnouncedTooSmall() returns (c: Inputs)
    ensures c.Covered() && ValidateInputs(c) == Ok && c.version == 100
    ensures EncodeCode(c, ARGON2_ID, AnnouncedFor(c, ARGON2_ID)) == EncodingFail
  {
    c := Inputs(Some(Zeros(4)), 4, None, 0, Some(Zeros(8)), 8, None, 0, None, 0, 1, 8, 1, 1, 100, false, false, 0);
    ValidateIffInRange(c);
    AnnouncedAgainstText(c, ARGON2_ID);
    DecLonger(100, 100);
    hide Text, AnnouncedFor, ValidateInputs;
    assert |Dec(100)| == 3;
  }

  // ---- decode_string: the macros CC, DECIMAL_U32 and BIN ----

  lemma Advance(src: string, pos: nat, n: nat, m: nat)
    requires pos + n + m <= |src|
    ensures src[pos..][n..][m..] == src[pos + n + m..]
  {
  }

  /** Reading stopped at `end`, if at all, with the value `v`, as the grammar says. */
  predicate ReadTo<T(==)>(step: Step<T>, src: string, end: Option<nat>, v: T) {
    && (end.Some? <==> step.Got?)
    && (end.Some? ==> end.value <= |src| && step == Got(v, src[end.value..]))
  }

  /** A prefix that reads like itself and like nothing else. */
  predicate Plain(prefix: string) { forall i :: 0 <= i < |prefix| ==> 0 < prefix[i] as int < 128 && prefix[i] != '/' }

  lemma PrefixPointwise(prefix: string, t: string, pos: nat)
    requires pos <= |t|
    ensures prefix <= t[pos..] <==>
      pos + |prefix| <= |t| && forall k :: pos <= k < pos + |prefix| ==> t[k] == prefix[k - pos]
  {
    if pos + |prefix| <= |t| {
      assert t[pos..][..|prefix|] == t[pos..pos + |prefix|];
      assert forall k :: pos <= k < pos + |prefix| ==> t[k] == t[pos..pos + |prefix|][k - pos];
    }
  }

  /** strncmp with a prefix. */
  method HasPrefix(src: string, pos: nat, prefix: string) returns (has: bool)
    requires pos <= |src| && CString(src) && Plain(prefix)
    ensures has <==> prefix <= AsRead(src)[pos..]
  {
    has := prefix <= src[pos..];
    PrefixPointwise(prefix, src, pos);
    PrefixPointwise(prefix, AsRead(src), pos);
    assert forall k :: pos <= k < pos + |prefix| && k < |src| ==>
      (src[k] == prefix[k - pos] <==> AsRead(src)[k] == prefix[k - pos]);
  }

  /** CC of a prefix, then DECIMAL_U32. */
  method NextNumber(src: string, pos: nat, prefix: string) returns (end: Option<nat>, v: u32)
    requires pos <= |src| && CString(src) && Plain(prefix)
    ensures ReadTo(ReadNumber(AsRead(src)[pos..], prefix), AsRead(src), end, v)
  {
    hide DigitRun, Minimal, ValueOf, AsRead, Ascii, CString, Plain;
    ghost var t := AsRead(src);
    v := 0;
    var has := HasPrefix(src, pos, prefix);
    if !has {
      return None, 0;
    }
    var x: u64;
    end, x := DecodeDecimal(src, pos + |prefix|);
    assert t[pos..][|prefix|..] == t[pos + |prefix|..];
    if end.None? || x > 0xFFFF_FFFF {
      return None, 0;
    }
    Advance(t, pos, |prefix|, |DigitRun(t[pos + |prefix|..])|);
    v := x;
  }

  /** CC of `$`, then BIN. */
  method NextBinary(dst: array<byte>, cap: u32, src: string, pos: nat) returns (end: Option<nat>, len: u32)
    requires cap <= dst.Length && pos <= |src| && CString(src)
    modifies dst
    ensures len <= cap && ReadTo(ReadBinary(AsRead(src)[pos..], cap), AsRead(src), end, dst[..len])
  {
    hide Run, Canonical, CompleteBytes, AsRead, Ascii, CString;
    ghost var t := AsRead(src);
    len := 0;
    var has := HasPrefix(src, pos, "$");
    if !has {
      return None, 0;
    }
    var binLen;
    end, binLen := FromBase64(dst, cap, src, pos + 1);
    assert t[pos..][1..] == t[pos + 1..];
    if end.None? || binLen > 0xFFFF_FFFF {
      return None, 0;
    }
    Advance(t, pos, 1, |Run(t[pos + 1..])|);
    len := binLen;
  }

  /** The version, or the default one. */
  method NextVersion(src: string, pos: nat) returns (end: Option<nat>, v: u32)
    requires pos <= |src| && CString(src)
    ensures ReadTo(ReadVersion(AsRead(src)[pos..]), AsRead(src), end, v)
  {
    hide ReadNumber, AsRead, Ascii, CString;
    var has := HasPrefix(src, pos, "$v=");
    if has {
      end, v := NextNumber(src, pos, "$v=");
    } else {
      end, v := Some(pos), VERSION_10;
    }
  }

  method NextCosts(ctx: Context, src: string, pos: nat) returns (end: Option<nat>)
    requires pos <= |src| && CString(src)
    modifies ctx`mCost, ctx`tCost, ctx`lanes, ctx`threads
    ensures ReadTo(ReadCosts(AsRead(src)[pos..], ctx.version), AsRead(src), end,
                   Costs(ctx.version, ctx.mCost, ctx.tCost, ctx.lanes))
    ensures end.Some? ==> ctx.threads == ctx.lanes
  {
    hide ReadNumber, AsRead, Ascii, CString;
    var v;
    end, v := NextNumber(src, pos, "$m=");
    if end.None? {
      return;
    }
    ctx.mCost := v;
    end, v := NextNumber(src, end.value, ",t=");
    if end.None? {
      return;
    }
    ctx.tCost := v;
    end, v := NextNumber(src, end.value, ",p=");
    if end.None? {
      return;
    }
    ctx.lanes := v;
    ctx.threads := ctx.lanes;
  }

  /** Salt and output buffers to decode into. */
  predicate Receives(ctx: Context)
    reads ctx
  {
    && ctx.salt != null && ctx.out != null
    && ctx.saltlen <= ctx.salt.Length && ctx.outlen <= ctx.out.Length
  }

  /** The context shows these fields; in one buffer for both, the output has overwritten the salt. */
  predicate Shows(ctx: Context, f: Fields)
    requires Receives(ctx)
    reads ctx, ctx.salt, ctx.out
  {
    && Costs(ctx.version, ctx.mCost, ctx.tCost, ctx.lanes) == f.costs
    && ctx.saltlen == |f.salt| && ctx.outlen == |f.out| && ctx.out[..ctx.outlen] == f.out
    && (ctx.salt != ctx.out ==> ctx.salt[..ctx.saltlen] == f.salt)
  }

  method NextBody(ctx: Context, src: string, pos: nat) returns (end: Option<nat>, ghost f: Fields)
    requires pos <= |src| && CString(src) && Receives(ctx)
    modifies ctx`mCost, ctx`tCost, ctx`lanes, ctx`threads, ctx`saltlen, ctx`outlen, ctx.salt, ctx.out
    ensures Receives(ctx) && ctx.saltlen <= old(ctx.saltlen) && ctx.outlen <= old(ctx.outlen)
    ensures ReadTo(ReadBody(AsRead(src)[pos..], ctx.version, old(ctx.saltlen), old(ctx.outlen)), AsRead(src), end, f)
    ensures end.Some? ==> Shows(ctx, f) && ctx.threads == ctx.lanes
  {
    hide ReadCosts, ReadBinary, AsRead, Ascii, CString;
    f := Fields(Costs(0, 0, 0, 0), [], []);
    var maxsaltlen, maxoutlen, len := ctx.saltlen, ctx.outlen, 0;
    end := NextCosts(ctx, src, pos);
    if end.None? {
      return;
    }
    end, len := NextBinary(ctx.salt, maxsaltlen, src, end.value);
    if end.None? {
      return;
    }
    ctx.saltlen := len;
    ghost var salt := ctx.salt[..len];
    end, len := NextBinary(ctx.out, maxoutlen, src, end.value);
    if end.None? {
      return;
    }
    ctx.outlen := len;
    f := Fields(Costs(ctx.version, ctx.mCost, ctx.tCost, ctx.lanes), salt, ctx.out[..ctx.outlen]);
    assert ctx.salt != ctx.out ==> ctx.salt[..ctx.saltlen] == salt;
  }

  /** The part of `decode_string` that reads the string, `$` and type first. */
  method ParseInto(ctx: Context, src: string, name: string) returns (end: Option<nat>, ghost f: Fields)
    requires CString(src) && Receives(ctx) && Plain(name)
    modifies ctx`version, ctx`mCost, ctx`tCost, ctx`lanes, ctx`threads, ctx`saltlen, ctx`outlen, ctx.salt, ctx.out
    ensures Receives(ctx) && ctx.saltlen <= old(ctx.saltlen) && ctx.outlen <= old(ctx.outlen)
    ensures ReadTo(Parse(AsRead(src), name, old(ctx.saltlen), old(ctx.outlen)), AsRead(src), end, f)
    ensures end.Some? ==> Shows(ctx, f) && ctx.threads == ctx.lanes
  {
    hide ReadVersion, ReadBody, AsRead, Ascii, CString, Shows;
    ghost var t := AsRead(src);
    f := Fields(Costs(0, 0, 0, 0), [], []);
    assert t[0..] == t;
    var has := HasPrefix(src, 0, "$");
    if has {
      has := HasPrefix(src, 1, name);
    }
    if !has {
      return None, f;
    }
    assert t[1..][|name|..] == t[1 + |name|..];
    ctx.version := VERSION_10;
    var v;
    end, v := NextVersion(src, 1 + |name|);
    if end.None? {
      return;
    }
    ctx.version := v;
    end, f := NextBody(ctx, src, end.value);
  }

  /** The fields that `decode_string` resets. */
  predicate Reset(ctx: Context)
    reads ctx
  {
    && ctx.threads == ctx.lanes && ctx.secret == null && ctx.secretlen == 0 && ctx.ad == null && ctx.adlen == 0
    && !ctx.allocateCbk && !ctx.freeCbk && ctx.flags == 0
  }

  method SetDefaults(ctx: Context, ghost f: Fields)
    requires ctx.threads == ctx.lanes && Receives(ctx) && Shows(ctx, f)
    modifies ctx`secret, ctx`secretlen, ctx`ad, ctx`adlen, ctx`allocateCbk, ctx`freeCbk, ctx`flags
    ensures Reset(ctx) && Receives(ctx) && Shows(ctx, f)
  {
    ctx.secret, ctx.secretlen, ctx.ad, ctx.adlen := null, 0, null, 0;
    ctx.allocateCbk, ctx.freeCbk, ctx.flags := false, false, 0;
  }

  /** What `decode_string` answers for what it has read. */
  function DecodeCode(step: Step<Fields>, after: Inputs): Code {
    if step.Fail? then DecodingFail
    else if ValidateInputs(after) != Ok then ValidateInputs(after)
    else if step.rest == "" then Ok else DecodingFail
  }

  lemma PlainName(ty: int)
    requires TypeString(ty).Some?
    ensures Plain(TypeString(ty).value)
  {
  }

  /** `decode_string`. It parses the format, then validates, then asks for the end of the string. */
  method DecodeString(ctx: Context, src: string, ty: int) returns (code: Code)
    requires CString(src) && Receives(ctx)
    modifies ctx, ctx.salt, ctx.out
    ensures ctx.salt == old(ctx.salt) && ctx.out == old(ctx.out)
    ensures ctx.pwd == old(ctx.pwd) && ctx.pwdlen == old(ctx.pwdlen)
    ensures Receives(ctx) && ctx.saltlen <= old(ctx.saltlen) && ctx.outlen <= old(ctx.outlen)
    ensures TypeString(ty).None? ==> code == IncorrectType
    ensures TypeString(ty).Some? ==>
      var step := Parse(AsRead(src), TypeString(ty).value, old(ctx.saltlen), old(ctx.outlen));
      code == DecodeCode(step, ctx.View()) && (step.Got? ==> Shows(ctx, step.value) && Reset(ctx))
    ensures code == Ok ==> Labelled(src, ty)
  {
    hide Parse, ValidateInputs, AsRead, Ascii, CString, Context.View, Shows, Reset, Labelled, TypeString;
    var typeString := TypeString(ty);
    if typeString.None? {
      return IncorrectType;
    }
    PlainName(ty);
    var end, f := ParseInto(ctx, src, typeString.value);
    if end.None? {
      return DecodingFail;
    }
    AcceptedLabel(src, ty, old(ctx.saltlen), old(ctx.outlen));
    SetDefaults(ctx, f);
    var validation := ValidateInputs(ctx.View());
    if validation != Ok {
      return validation;
    }
    code := if end.value == |src| then Ok else DecodingFail;
  }

  // ---- there and back ----

  /** A context that shows the fields of a valid one is valid. */
  lemma DecodedValid(ctx: Context, c: Inputs)
    requires c.Covered() && InRange(c) && Receives(ctx) && Shows(ctx, FieldsOf(c)) && Reset(ctx)
    requires ctx.pwd == null ==> ctx.pwdlen == 0
    ensures ValidateInputs(ctx.View()) == Ok
  {
    ValidateIffInRange(ctx.View());
  }

  /** strlen and the string it measures. */
  method ReadCString(a: array<char>, ghost text: string) returns (s: string)
    requires HoldsText(a, text) && CString(text)
    ensures s == text
  {
    var n := 0;
    assert forall i :: 0 <= i < |text| ==> a[..|text| + 1][i] == text[i];
    assert a[..|text| + 1][|text|] == 0 as char;
    while a[n] != 0 as char
      invariant n <= |text|
      decreases |text| - n
    {
      n := n + 1;
    }
    s := a[..n];
    assert s == a[..|text| + 1][..n];
  }

  /** What `encode_string` has written for a valid context, `decode_string` reads back: it answers OK and
      restores version, costs, salt and output; under any other type it fails. */
  method EncodeThenDecode(ctx: Context, ty: int, dst: array<char>, dstLen: nat, back: Context, other: int)
    returns (encoded: Code, decoded: Code)
    requires dstLen <= dst.Length && ctx.View().Covered() && Receives(back) && back != ctx
    requires {back.salt, back.out} !! {ctx.out, ctx.pwd, ctx.salt, ctx.secret, ctx.ad} && back.salt != back.out
    requires ctx.saltlen <= back.saltlen && ctx.outlen <= back.outlen && (back.pwd == null ==> back.pwdlen == 0)
    modifies dst, back, back.salt, back.out
    ensures encoded == EncodeCode(ctx.View(), ty, dstLen)
    ensures encoded == Ok ==>
      decoded == if other == ty then Ok else if TypeString(other).Some? then DecodingFail else IncorrectType
    ensures encoded == Ok && other == ty ==>
      Receives(back) && Shows(back, FieldsOf(ctx.View())) && back.salt != back.out
  {
    hide Text, Parse, ValidateInputs, AsRead, Ascii, CString, Shows, Reset, EncodeCode, InRange, Context.View,
      TypeString;
    encoded := EncodeString(dst, dstLen, ctx, ty);
    decoded := encoded;
    if encoded != Ok {
      return;
    }
    ghost var c, saltCap, outCap := ctx.View(), back.saltlen, back.outlen;
    EncodedIsValid(c, ty, dstLen);
    ghost var text := Text(FieldsOf(c), TypeString(ty).value);
    PrintedText(c, ty);
    var src := ReadCString(dst, text);
    SizesOfView(ctx);
    decoded := DecodeString(back, src, other);
    PrintedParses(c, ty, saltCap, outCap);
    if other == ty {
      DecodedValid(back, c);
    } else if TypeString(other).Some? {
      OneTypeOnly(text, ty, other, saltCap, outCap, saltCap, outCap);
    }
  }

  lemma EncodedIsValid(c: Inputs, ty: int, dstLen: nat)
    requires c.Covered() && EncodeCode(c, ty, dstLen) == Ok
    ensures TypeString(ty).Some? && InRange(c)
  {
    hide Text;
    ValidateIffInRange(c);
  }

  lemma SizesOfView(ctx: Context)
    ensures ctx.View().saltlen == ctx.saltlen && ctx.View().outlen == ctx.outlen
  {
  }

  lemma PrintedText(c: Inputs, ty: int)
    requires c.Covered() && TypeString(ty).Some?
    ensures var text := Text(FieldsOf(c), TypeString(ty).value); CString(text) && AsRead(text) == text
  {
    hide Text, AsRead;
    assert Ascii(TypeString(ty).value);
    TextAscii(FieldsOf(c), TypeString(ty).value);
  }

  lemma PrintedParses(c: Inputs, ty: int, saltCap: nat, outCap: nat)
    requires c.Covered() && TypeString(ty).Some? && c.saltlen <= saltCap && c.outlen <= outCap
    ensures var text := Text(FieldsOf(c), TypeString(ty).value);
      Parse(text, TypeString(ty).value, saltCap, outCap) == Got(FieldsOf(c), "")
  {
    hide Text, Parse;
    ParseOfText(FieldsOf(c), TypeString(ty).value, saltCap, outCap);
  }
}
