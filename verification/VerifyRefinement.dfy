/** `argon2_hash` and `argon2_verify` against `Reference`: what they hash, write and accept is what RFC 9106
    says, in letters and numbers. */
module VerifyRefinement {
  import opened Words
  import opened Context
  import opened Base64Codec
  import opened EncodedText
  import opened Blake2b
  import opened Tag
  import opened Argon2
  import opened Verify
  import opened TagRefinement
  import opened TextRefinement
  import Reference

  // ---- argon2_hash ----

  /** What a request asks for, under the names of section 3.1 of RFC 9106. */
  function RequestParams(r: Request): Reference.Params
    requires r.Covered() && r.LengthCode() == Ok && 0 <= r.ty
  {
    Reference.Params(r.costs.lanes, r.hashlen, r.costs.mCost, r.costs.tCost, r.costs.version, r.ty,
      Bytes(r.pwd, r.pwdlen), Bytes(r.salt, r.saltlen), [], [])
  }

  lemma TypeInRange(r: Request)
    requires r.Covered() && r.Code() == Ok
    ensures 0 <= r.ty <= 2 && TypeString(r.ty).Some? && r.LengthCode() == Ok
  {
  }

  /** The raw hash is the Argon2 tag. */
  lemma HashIsArgon2<H(!new)>(alg: Alg<H>, r: Request)
    requires alg.Valid() && r.Covered() && r.Code() == Ok
    ensures 0 <= r.ty <= 2 && r.LengthCode() == Ok && RequestParams(r).Valid()
    ensures HashOf(alg, r) == Reference.Tag(alg, RequestParams(r))
  {
    hide TagOf, Reference.Tag, ValidateInputs, InRange, Reference.Params.Valid;
    TypeInRange(r);
    var c := r.ContextWith(Zeros(r.hashlen));
    ValidateIffInRange(c);
    TagIsArgon2(alg, c, r.ty);
  }

  /** The encoded hash is the RFC tag behind its parameters, letter by letter. */
  lemma EncodedHashIsArgon2<H(!new)>(alg: Alg<H>, r: Request)
    requires alg.Valid() && r.Covered() && r.Code() == Ok
    ensures 0 <= r.ty <= 2 && r.LengthCode() == Ok && RequestParams(r).Valid()
    ensures EncodedHash(alg, r) == Reference.Encoded(RequestParams(r), Reference.Tag(alg, RequestParams(r)))
  {
    hide HashOf, Text, Request.Code, Reference.Encoded, Reference.Tag, TypeString, Reference.Params.Valid;
    TypeInRange(r);
    HashIsArgon2(alg, r);
    SameText(Fields(r.costs, Bytes(r.salt, r.saltlen), HashOf(alg, r)), r.ty, RequestParams(r));
  }

  // ---- argon2_verify ----

  /** The parameters an encoded hash can have: the documented ranges, without secret and associated data. */
  predicate Encodable(c: Reference.Params) {
    && 1 <= c.lanes <= 0xFF_FFFF && 8 * c.lanes <= c.memory <= 0xFFFF_FFFF && 1 <= c.passes <= 0xFFFF_FFFF
    && 4 <= c.tagLength <= 0xFFFF_FFFF && 8 <= |c.salt| <= 0xFFFF_FFFF && |c.password| <= 0xFFFF_FFFF
    && c.version <= 0xFFFF_FFFF && c.ty <= 2 && c.secret == [] && c.data == []
  }

  predicate Versioned(src: string) {
    "$argon2d$v=" <= src || "$argon2i$v=" <= src || "$argon2id$v=" <= src
  }

  ghost predicate IsEncodedTag<H(!new)>(alg: Alg<H>, src: string, pwd: seq<byte>, ty: int, c: Reference.Params)
    requires alg.Valid()
  {
    Encodable(c) && c.ty == ty && c.password == pwd && src == Reference.Encoded(c, Reference.Tag(alg, c))
  }

  /** The request for these parameters. */
  function RequestOf(c: Reference.Params): Request {
    Request(Costs(c.version, c.memory, c.passes, c.lanes), c.tagLength, Some(c.password), |c.password|,
      Some(c.salt), |c.salt|, c.ty)
  }

  lemma RequestOfParams(c: Reference.Params)
    requires Encodable(c)
    ensures var r := RequestOf(c); r.Covered() && r.Code() == Ok && RequestParams(r) == c
  {
    ValidateIffInRange(RequestOf(c).ContextWith(Zeros(c.tagLength)));
    assert c.password[..|c.password|] == c.password && c.salt[..|c.salt|] == c.salt;
  }

  lemma ParamsEncodable(r: Request)
    requires r.Covered() && r.Code() == Ok
    ensures 0 <= r.ty && r.LengthCode() == Ok && Encodable(RequestParams(r))
  {
    ValidateIffInRange(r.ContextWith(Zeros(r.hashlen)));
  }

  lemma VersionedPrefix(src: string, ty: int)
    requires Ascii(src) && Versioned(src) && TypeString(ty).Some? && Labelled(src, ty)
    ensures "$" + (TypeString(ty).value + "$v=") <= AsRead(src)
  {
    VersionedLabel(src);
    assert "$" + ("argon2d" + "$v=") == "$argon2d$v=" && "$" + ("argon2i" + "$v=") == "$argon2i$v=";
    assert "$" + ("argon2id" + "$v=") == "$argon2id$v=";
  }

  lemma VersionedLabel(src: string)
    ensures "$argon2d$v=" <= src ==> "$argon2d$" <= src
    ensures "$argon2i$v=" <= src ==> "$argon2i$" <= src
    ensures "$argon2id$v=" <= src ==> "$argon2id$" <= src
  {
    assert "$argon2d$v=" == "$argon2d$" + "v=" && "$argon2i$v=" == "$argon2i$" + "v=";
    assert "$argon2id$v=" == "$argon2id$" + "v=";
  }

  lemma AcceptedParses<H(!new)>(alg: Alg<H>, src: string, pwd: Option<seq<byte>>, pwdlen: nat, ty: int)
    requires alg.Valid() && Covers(pwd, pwdlen) && CString(src) && VerifyCode(alg, Some(src), pwd, pwdlen, ty) == Ok
    ensures TypeString(ty).Some? && Parse(AsRead(src), TypeString(ty).value, |src|, |src|).Got?
  {
    hide Parse, AsRead, TypeString, HashOf, Request.Code;
  }

  /** A versioned string is accepted for a password exactly if it is the encoding of an Argon2 tag of this
      type, computed with this password and the very parameters and salt it states. */
  lemma VerifyIffArgon2<H(!new)>(alg: Alg<H>, src: string, pwd: seq<byte>, ty: int)
    requires alg.Valid() && Ascii(src) && Versioned(src) && |src| <= 0xFFFF_FFFF && |pwd| <= 0xFFFF_FFFF
    ensures VerifyCode(alg, Some(src), Some(pwd), |pwd|, ty) == Ok
       <==> exists c: Reference.Params :: IsEncodedTag(alg, src, pwd, ty, c)
  {
    hide VerifyCode, IsEncodedTag, Versioned, Ascii;
    if VerifyCode(alg, Some(src), Some(pwd), |pwd|, ty) == Ok {
      var c := AcceptedIsArgon2(alg, src, pwd, ty);
    }
    if c: Reference.Params :| IsEncodedTag(alg, src, pwd, ty, c) {
      Argon2IsAccepted(alg, src, pwd, ty, c);
    }
  }

  lemma AcceptedIsArgon2<H(!new)>(alg: Alg<H>, src: string, pwd: seq<byte>, ty: int) returns (c: Reference.Params)
    requires alg.Valid() && Ascii(src) && Versioned(src)
    requires VerifyCode(alg, Some(src), Some(pwd), |pwd|, ty) == Ok
    ensures IsEncodedTag(alg, src, pwd, ty, c)
  {
    hide VerifyCode, EncodedHash, Request.Code, Versioned, Ascii, Reference.Encoded, Reference.Tag, RequestParams,
      Encodable, Reference.Params.Valid;
    var r := AcceptedRequest(alg, src, pwd, ty);
    EncodedHashIsArgon2(alg, r);
    ParamsEncodable(r);
    c := RequestParams(r);
    PasswordOf(r, pwd);
  }

  lemma AcceptedRequest<H(!new)>(alg: Alg<H>, src: string, pwd: seq<byte>, ty: int) returns (r: Request)
    requires alg.Valid() && Ascii(src) && Versioned(src)
    requires VerifyCode(alg, Some(src), Some(pwd), |pwd|, ty) == Ok
    ensures r.Covered() && r.Code() == Ok && r.pwd == Some(pwd) && r.pwdlen == |pwd| && r.ty == ty
    ensures src == EncodedHash(alg, r)
  {
    AsciiIsCString(src);
    hide VerifyCode, EncodedHash, Request.Code, TypeString, Parse, Labelled, Versioned, AsRead, Ascii, CString;
    AcceptedParses(alg, src, Some(pwd), |pwd|, ty);
    AcceptedLabel(src, ty, |src|, |src|);
    VersionedPrefix(src, ty);
    r := AcceptedIsEncodedHash(alg, src, Some(pwd), |pwd|, ty);
  }

  lemma AsciiIsCString(src: string)
    requires Ascii(src)
    ensures CString(src)
  {
  }

  lemma PasswordOf(r: Request, pwd: seq<byte>)
    requires r.Covered() && r.LengthCode() == Ok && 0 <= r.ty && r.pwd == Some(pwd) && r.pwdlen == |pwd|
    ensures RequestParams(r).password == pwd && RequestParams(r).ty == r.ty
  {
    assert pwd[..|pwd|] == pwd;
  }

  lemma Argon2IsAccepted<H(!new)>(alg: Alg<H>, src: string, pwd: seq<byte>, ty: int, c: Reference.Params)
    requires alg.Valid() && |src| <= 0xFFFF_FFFF && IsEncodedTag(alg, src, pwd, ty, c)
    ensures VerifyCode(alg, Some(src), Some(pwd), |pwd|, ty) == Ok
  {
    hide VerifyCode, EncodedHash, Request.Code, Reference.Encoded, Reference.Tag, RequestParams, Encodable;
    RequestOfParams(c);
    EncodedHashIsArgon2(alg, RequestOf(c));
    VerifyAcceptsHash(alg, RequestOf(c));
  }
}
