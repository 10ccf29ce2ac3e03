/** `argon2_context`, its validation (`validate_inputs`) and the sizes `argon2_ctx` derives from it. */
module Context {
  import opened Words
  import opened Indexing

  datatype Code =
    | Ok
    | OutputPtrNull | OutputTooShort | OutputTooLong
    | PwdTooShort | PwdTooLong | SaltTooShort | SaltTooLong | AdTooShort | AdTooLong
    | SecretTooShort | SecretTooLong | TimeTooSmall | TimeTooLarge
    | MemoryTooLittle | MemoryTooMuch | LanesTooFew | LanesTooMany
    | PwdPtrMismatch | SaltPtrMismatch | SecretPtrMismatch | AdPtrMismatch
    | MemoryAllocationError | FreeMemoryCbkNull | AllocateMemoryCbkNull
    | IncorrectParameter | IncorrectType | ThreadsTooFew | ThreadsTooMany
    | EncodingFail | DecodingFail | ThreadFail | VerifyMismatch

  const MAX_U32: int := 0xFFFF_FFFF

  /** The inputs as values: a buffer is NULL or its bytes, of which the first `...len` count. */
  datatype Inputs = Inputs(
    out: Option<seq<byte>>, outlen: u32,
    pwd: Option<seq<byte>>, pwdlen: u32,
    salt: Option<seq<byte>>, saltlen: u32,
    secret: Option<seq<byte>>, secretlen: u32,
    ad: Option<seq<byte>>, adlen: u32,
    tCost: u32, mCost: u32, lanes: u32, threads: u32, version: u32,
    allocateCbk: bool, freeCbk: bool, flags: u32)
  {
    /** Every length is covered by its buffer. */
    predicate Covered() {
      && (out.Some? ==> outlen <= |out.value|) && (pwd.Some? ==> pwdlen <= |pwd.value|)
      && (salt.Some? ==> saltlen <= |salt.value|) && (secret.Some? ==> secretlen <= |secret.value|)
      && (ad.Some? ==> adlen <= |ad.value|)
    }
  }

  function Bytes(buf: Option<seq<byte>>, len: u32): seq<byte>
    requires buf.Some? ==> len <= |buf.value|
  {
    if buf.None? then [] else buf.value[..len]
  }

  /** What a pointer shows: NULL, or the bytes behind it. */
  function Contents(a: array?<byte>): Option<seq<byte>>
    reads a
  {
    if a == null then None else Some(a[..])
  }

  class Context {
    var out: array?<byte>
    var outlen: u32
    var pwd: array?<byte>
    var pwdlen: u32
    var salt: array?<byte>
    var saltlen: u32
    var secret: array?<byte>
    var secretlen: u32
    var ad: array?<byte>
    var adlen: u32
    var tCost: u32
    var mCost: u32
    var lanes: u32
    var threads: u32
    var version: u32
    var allocateCbk: bool
    var freeCbk: bool
    var flags: u32

    /** A context without secret, associated data, callbacks and flags, as `argon2_hash` fills it in. */
    constructor (out: array?<byte>, outlen: u32, pwd: array?<byte>, pwdlen: u32, salt: array?<byte>, saltlen: u32,
                 tCost: u32, mCost: u32, parallelism: u32, version: u32)
      ensures this.out == out && this.pwd == pwd && this.salt == salt && secret == null && ad == null
      ensures View() == Inputs(Contents(out), outlen, Contents(pwd), pwdlen, Contents(salt), saltlen, None, 0, None, 0,
                               tCost, mCost, parallelism, parallelism, version, false, false, 0)
    {
      this.out, this.outlen, this.pwd, this.pwdlen, this.salt, this.saltlen := out, outlen, pwd, pwdlen, salt, saltlen;
      secret, secretlen, ad, adlen := null, 0, null, 0;
      this.tCost, this.mCost, lanes, threads := tCost, mCost, parallelism, parallelism;
      allocateCbk, freeCbk, flags, this.version := false, false, 0, version;
    }

    function View(): Inputs
      reads this, out, pwd, salt, secret, ad
    {
      Inputs(Contents(out), outlen, Contents(pwd), pwdlen, Contents(salt), saltlen, Contents(secret), secretlen,
             Contents(ad), adlen, tCost, mCost, lanes, threads, version, allocateCbk, freeCbk, flags)
    }
  }

  // ---- validate_inputs ----

  /** The checks of `validate_inputs`, in their order. `8 * lanes` is a 32-bit product. */
  function ValidateInputs(c: Inputs): Code {
    if c.out.None? then OutputPtrNull
    else if 4 > c.outlen then OutputTooShort
    else if MAX_U32 < c.outlen then OutputTooLong
    else if c.pwd.None? && c.pwdlen != 0 then PwdPtrMismatch
    else if MAX_U32 < c.pwdlen then PwdTooLong
    else if c.salt.None? && c.saltlen != 0 then SaltPtrMismatch
    else if 8 > c.saltlen then SaltTooShort
    else if MAX_U32 < c.saltlen then SaltTooLong
    else if c.secret.None? && c.secretlen != 0 then SecretPtrMismatch
    else if c.secret.Some? && MAX_U32 < c.secretlen then SecretTooLong
    else if c.ad.None? && c.adlen != 0 then AdPtrMismatch
    else if c.ad.Some? && MAX_U32 < c.adlen then AdTooLong
    else if 8 > c.mCost then MemoryTooLittle
    else if MAX_U32 < c.mCost then MemoryTooMuch
    else if c.mCost < U32(8 * c.lanes) then MemoryTooLittle
    else if 1 > c.tCost then TimeTooSmall
    else if MAX_U32 < c.tCost then TimeTooLarge
    else if 1 > c.lanes then LanesTooFew
    else if 0xFF_FFFF < c.lanes then LanesTooMany
    else if 1 > c.threads then ThreadsTooFew
    else if 0xFF_FFFF < c.threads then ThreadsTooMany
    else if c.allocateCbk && !c.freeCbk then FreeMemoryCbkNull
    else if !c.allocateCbk && c.freeCbk then AllocateMemoryCbkNull
    else Ok
  }

  /** The documented input ranges, over the integers. */
  predicate InRange(c: Inputs) {
    && c.out.Some? && c.salt.Some? && 4 <= c.outlen && 8 <= c.saltlen
    && (c.pwd.None? ==> c.pwdlen == 0) && (c.secret.None? ==> c.secretlen == 0) && (c.ad.None? ==> c.adlen == 0)
    && 1 <= c.lanes <= 0xFF_FFFF && 1 <= c.threads <= 0xFF_FFFF
    && 8 * c.lanes <= c.mCost && 1 <= c.tCost
    && c.allocateCbk == c.freeCbk
  }

  /** Exactly the documented ranges pass, although the product `8 * lanes` may wrap around. */
  lemma ValidateIffInRange(c: Inputs)
    ensures ValidateInputs(c) == Ok <==> InRange(c)
  {
    if c.lanes <= 0xFF_FFFF {
      assert U32(8 * c.lanes) == 8 * c.lanes;
    }
  }

  /** An error names a range that is left; there are no other answers. */
  lemma ErrorMeans(c: Inputs)
    requires ValidateInputs(c) != Ok
    ensures match ValidateInputs(c)
      case OutputPtrNull => c.out.None?
      case OutputTooShort => c.outlen < 4
      case PwdPtrMismatch => c.pwd.None? && c.pwdlen > 0
      case SaltPtrMismatch => c.salt.None? && c.saltlen > 0
      case SaltTooShort => c.saltlen < 8
      case SecretPtrMismatch => c.secret.None? && c.secretlen > 0
      case AdPtrMismatch => c.ad.None? && c.adlen > 0
      case MemoryTooLittle => c.mCost < 8 || c.mCost < 8 * c.lanes
      case TimeTooSmall => c.tCost == 0
      case LanesTooFew => c.lanes == 0
      case LanesTooMany => c.lanes > 0xFF_FFFF
      case ThreadsTooFew => c.threads == 0
      case ThreadsTooMany => c.threads > 0xFF_FFFF
      case FreeMemoryCbkNull => c.allocateCbk && !c.freeCbk
      case AllocateMemoryCbkNull => !c.allocateCbk && c.freeCbk
      case _ => false
  {
    assert U32(8 * c.lanes) <= 8 * c.lanes;
  }

  // ---- the sizes of argon2_ctx ----

  /** Step 2 of `argon2_ctx`: round the memory down to four equal segments in every lane. */
  function MakeInstance(c: Inputs, ty: int): Instance
    requires c.lanes > 0
  {
    var wanted := if c.mCost < U32(8 * c.lanes) then U32(8 * c.lanes) else c.mCost;
    var unit := U32(c.lanes * 4);
    var segmentLength := if unit == 0 then 0 else Quot(wanted, unit);
    Instance(c.version, c.tCost, U32(Times(segmentLength, unit)), segmentLength, U32(segmentLength * 4),
             c.lanes, if c.threads > c.lanes then c.lanes else c.threads, ty)
  }

  /** The segment length for `m` blocks in `lanes` lanes. */
  lemma SegmentSizes(m: u32, lanes: nat)
    requires 1 <= lanes <= 0xFF_FFFF && 8 * lanes <= m
    ensures var seg := Quot(m, 4 * lanes);
      && seg >= 2
      && Times(seg, 4 * lanes) == Times(lanes, 4 * seg) <= m < Times(seg, 4 * lanes) + 4 * lanes
      && 4 * seg < 0x1_0000_0000
  {
    var seg := Quot(m, 4 * lanes);
    QuotRemSplit(m, 4 * lanes);
    SwapFour(seg, lanes);
    TimesMono(1, lanes, 4 * seg);
    TimesSmall(1, 4 * seg);
  }

  lemma SwapFour(a: nat, b: nat)
    ensures Times(a, 4 * b) == Times(b, 4 * a)
  {
    TimesIsProduct(a, 4 * b);
    TimesIsProduct(b, 4 * a);
    assert a * (4 * b) == b * (4 * a);
  }

  /** Every context that passes validation gives an instance with at least two blocks per segment, no
      product having wrapped around, and all of the memory asked for but less than four blocks a lane. */
  lemma InstanceValid(c: Inputs, ty: int)
    requires InRange(c)
    ensures MakeInstance(c, ty).Valid()
    ensures var inst := MakeInstance(c, ty);
      && inst.ty == ty && inst.version == c.version && inst.lanes == c.lanes && inst.passes == c.tCost
      && inst.threads == (if c.threads < c.lanes then c.threads else c.lanes)
    ensures MakeInstance(c, ty).memoryBlocks <= c.mCost < MakeInstance(c, ty).memoryBlocks + 4 * c.lanes
  {
    hide Times, Quot;
    SegmentSizes(c.mCost, c.lanes);
    assert U32(8 * c.lanes) == 8 * c.lanes && U32(c.lanes * 4) == 4 * c.lanes;
  }

  /** Inputs that pass validation and for which some block of the window is never picked: one lane of almost
      2^32 blocks, in the second pass. */
  lemma SomeBlockNeverPicked() returns (c: Inputs)
    ensures InRange(c)
    ensures var inst := MakeInstance(c, ARGON2_D);
      && inst.Valid() && inst.passes == 2
      && Draws(inst.segmentLength, Time(4, 1), true) && 4 * inst.segmentLength < 0x1_0000_0000
      && InWindow(inst.segmentLength, Time(4, 1), true, Time(1, 0))
      && !Hit(inst.segmentLength, Time(4, 1), true, Time(1, 0))
  {
    c := Inputs(Some(Zeros(4)), 4, None, 0, Some(Zeros(8)), 8, None, 0, None, 0, 2, 0xFFFF_FFFF, 1, 1, VERSION_13,
                false, false, 0);
    hide Quot, Times, Instance.Valid, Hit, InWindow, AreaSize;
    InstanceValid(c, ARGON2_D);
    SegmentOfLane(c);
    LargestWindow();
    OntoIffAtMostHalf(0x3FFF_FFFF, Time(4, 1), true);
  }

  lemma SegmentOfLane(c: Inputs)
    requires c.mCost == 0xFFFF_FFFF && c.lanes == 1
    ensures MakeInstance(c, ARGON2_D).segmentLength == 0x3FFF_FFFF
  {
    hide Quot, Times;
    LargestSegment();
  }

  lemma LargestSegment()
    ensures Quot(0xFFFF_FFFF, 4) == 0x3FFF_FFFF
  {
    QuotRemExact(0xFFFF_FFFF, 4);
  }

  lemma LargestWindow()
    ensures Draws(0x3FFF_FFFF, Time(4, 1), true) && AreaSize(0x3FFF_FFFF, Time(4, 1), true) > 0x8000_0000
    ensures Oldest(4) == 1
  {
  }
}
