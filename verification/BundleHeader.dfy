/** The 96-byte header of a bundle (BundleHeader.swift) and the limits of BundleLimits.swift. */
module BundleHeader {
  import opened Words
  import opened Blamka

  datatype BundleError =
    | InvalidHeader
    | UnsupportedVersion(version: nat)
    | UnsupportedKDF(id: nat)
    | ParameterOutOfBounds
    | DecryptionFailed
    | ManifestParseFailed
    | EncodingFailed
    | Truncated(expected: int, actual: int)

  datatype Result<+T> = Ok(value: T) | Err(error: BundleError)

  const MAGIC: seq<byte> := [0x55, 0x4C, 0x4F, 0x43, 0x4B, 0x45, 0x44, 0x31]
  const HEADER_SIZE: nat := 96
  const TAG_SIZE: nat := 16

  // ---- limits ----

  predicate ArgonParamsAllowed(timeCost: nat, memoryKiB: nat, parallelism: nat) {
    1 <= timeCost <= 10 && 8 <= memoryKiB <= 0x4_0000 && 1 <= parallelism <= 8
  }

  predicate ManifestSizeAllowed(size: nat) { 16 <= size <= 0x10_0000 }

  predicate ItemSizeAllowed(size: nat) { 16 <= size <= 0xFA0_0000 }

  predicate FileSizeAllowed(size: nat) { size <= 0x8000_0000 }

  // ---- the header ----

  datatype Header = Header(version: nat, kdfId: byte, timeCost: u32, memoryKiB: u32, parallelism: byte,
                           salt: seq<byte>, manifestNonce: seq<byte>, manifestSize: u32)
  {
    /** What the initializer lets pass. */
    predicate Valid() {
      && version == 1 && kdfId == 1 && |salt| == 16 && |manifestNonce| == 12
      && ArgonParamsAllowed(timeCost, memoryKiB, parallelism) && ManifestSizeAllowed(manifestSize)
    }
  }

  /** The initializer: the first check that fails decides the error. */
  function Make(h: Header): (r: Result<Header>)
    ensures r.Ok? <==> h.Valid()
    ensures r.Ok? ==> r.value == h
    ensures h.Valid() <==>
      && h.version == 1 && h.kdfId == 1 && |h.salt| == 16 && |h.manifestNonce| == 12
      && 1 <= h.timeCost <= 10 && 8 <= h.memoryKiB <= 256 * 1024 && 1 <= h.parallelism <= 8
      && 16 <= h.manifestSize <= 1024 * 1024
    ensures h.version != 1 ==> r == Err(UnsupportedVersion(h.version))
    ensures h.version == 1 && h.kdfId != 1 ==> r == Err(UnsupportedKDF(h.kdfId))
    ensures h.version == 1 && h.kdfId == 1 && (|h.salt| != 16 || |h.manifestNonce| != 12) ==> r == Err(InvalidHeader)
    ensures r.Err? && h.version == 1 && h.kdfId == 1 && |h.salt| == 16 && |h.manifestNonce| == 12 ==>
      r.error == ParameterOutOfBounds
  {
    if h.version != 1 then Err(UnsupportedVersion(h.version))
    else if h.kdfId != 1 then Err(UnsupportedKDF(h.kdfId))
    else if |h.salt| != 16 then Err(InvalidHeader)
    else if |h.manifestNonce| != 12 then Err(InvalidHeader)
    else if !ArgonParamsAllowed(h.timeCost, h.memoryKiB, h.parallelism) then Err(ParameterOutOfBounds)
    else if !ManifestSizeAllowed(h.manifestSize) then Err(ParameterOutOfBounds)
    else Ok(h)
  }

  /** The on-disk form. */
  function HeaderBytes(h: Header): (s: seq<byte>)
    requires h.Valid()
    ensures |s| == HEADER_SIZE
  {
    MAGIC + Le(h.version, 2) + [h.kdfId] + Le(h.timeCost, 4) + Le(h.memoryKiB, 4) + [h.parallelism]
    + h.salt + h.manifestNonce + Le(h.manifestSize, 4) + Zeros(44)
  }

  /** `serialize`: field after field, then padding. */
  method Serialize(h: Header) returns (data: seq<byte>)
    requires h.Valid()
    ensures data == HeaderBytes(h)
  {
    data := MAGIC;
    data := data + Le(h.version, 2);
    data := data + [h.kdfId];
    data := data + Le(h.timeCost, 4);
    data := data + Le(h.memoryKiB, 4);
    data := data + [h.parallelism];
    data := data + h.salt;
    data := data + h.manifestNonce;
    data := data + Le(h.manifestSize, 4);
    var padding := HEADER_SIZE - |data|;
    if padding > 0 {
      data := data + Zeros(padding);
    }
  }

  // ---- readLittleEndian ----

  /** b << 8 * n. */
  function Shifted(b: byte, n: nat): nat { Times(b, Pow2(8 * n)) }

  function Read16(data: seq<byte>, at: nat): nat
    requires at + 2 <= |data|
  {
    Or(data[at], Shifted(data[at + 1], 1))
  }

  function Read32(data: seq<byte>, at: nat): nat
    requires at + 4 <= |data|
  {
    Or(Or(Or(data[at], Shifted(data[at + 1], 1)), Shifted(data[at + 2], 2)), Shifted(data[at + 3], 3))
  }

  /** Or-ing shifted bytes together is reading a little-endian number. */
  lemma ReadIsLittleEndian(data: seq<byte>, at: nat)
    ensures at + 2 <= |data| ==> Read16(data, at) == FromLe(data[at..at + 2])
    ensures at + 4 <= |data| ==> Read32(data, at) == FromLe(data[at..at + 4])
  {
    if at + 2 <= |data| {
      ReadWord(data[at], data[at + 1], 0, 0);
      FromLeFew(data[at..at + 2]);
    }
    if at + 4 <= |data| {
      ReadWord(data[at], data[at + 1], data[at + 2], data[at + 3]);
      FromLeFew(data[at..at + 4]);
    }
  }

  lemma FromLeFew(s: seq<byte>)
    ensures |s| == 2 ==> FromLe(s) == s[0] as nat + 256 * s[1] as nat
    ensures |s| == 4 ==>
      FromLe(s) == s[0] as nat + 256 * s[1] as nat + 0x1_0000 * s[2] as nat + 0x100_0000 * s[3] as nat
  {
    if |s| == 2 {
      assert s[1..][1..] == [];
    } else if |s| == 4 {
      assert FromLe(s) == s[0] + 256 * FromLe(s[1..]);
      assert FromLe(s[1..]) == s[1] + 256 * FromLe(s[1..][1..]);
      assert FromLe(s[1..][1..]) == s[2] + 256 * FromLe(s[1..][1..][1..]);
      assert FromLe(s[1..][1..][1..]) == s[3] + 256 * FromLe(s[1..][1..][1..][1..]);
      assert s[1..][1..][1..][1..] == [];
    }
  }

  lemma ReadWord(a: byte, b: byte, c: byte, d: byte)
    ensures Or(a, Shifted(b, 1)) == a + 256 * b
    ensures Or(Or(Or(a, Shifted(b, 1)), Shifted(c, 2)), Shifted(d, 3)) == a + 256 * b + 0x1_0000 * c + 0x100_0000 * d
  {
    hide Or, Times, Pow2, Shifted;
    ShiftPowers();
    ShiftedByte(b);
    ShiftedByte(c);
    ShiftedByte(d);
    OrShifted(a, b, 1);
    OrShifted(a + 256 * b, c, 2);
    OrShifted(a + 256 * b + 0x1_0000 * c, d, 3);
  }

  lemma ShiftedByte(b: byte)
    ensures Shifted(b, 1) == 256 * b && Shifted(b, 2) == 0x1_0000 * b && Shifted(b, 3) == 0x100_0000 * b
  {
    hide Times, Pow2;
    ShiftPowers();
    TimesIsProduct(b, 256);
    TimesIsProduct(b, 0x1_0000);
    TimesIsProduct(b, 0x100_0000);
  }

  lemma OrShifted(a: nat, b: byte, n: nat)
    requires a < Pow2(8 * n)
    ensures Or(a, Shifted(b, n)) == a + Shifted(b, n)
  {
    hide Or, Times, Pow2;
    OrDisjoint(a, b, 8 * n);
  }

  lemma ShiftPowers()
    ensures Pow2(8) == 256 && Pow2(16) == 0x1_0000 && Pow2(24) == 0x100_0000
  {
    assert Pow2(8) == 256;
    assert Pow2(16) == 0x1_0000;
  }

  // ---- parse ----

  /** The fields found at their places. */
  function FieldsAt(data: seq<byte>): Header
    requires |data| == HEADER_SIZE
  {
    FromLeRoundTrip(data[8..10]);
    FromLeRoundTrip(data[11..15]);
    FromLeRoundTrip(data[15..19]);
    FromLeRoundTrip(data[48..52]);
    PowersOf256();
    Header(FromLe(data[8..10]), data[10], FromLe(data[11..15]), FromLe(data[15..19]), data[19],
           data[20..36], data[36..48], FromLe(data[48..52]))
  }

  function ParseHeader(input: seq<byte>): Result<Header> {
    if |input| < HEADER_SIZE then Err(Truncated(HEADER_SIZE, |input|))
    else
      var data := input[..HEADER_SIZE];
      if data[..8] != MAGIC || data[52..] != Zeros(44) then Err(InvalidHeader)
      else Make(FieldsAt(data))
  }

  lemma FieldsRead(data: seq<byte>)
    requires |data| == HEADER_SIZE
    ensures Read16(data, 8) == FieldsAt(data).version && Read32(data, 11) == FieldsAt(data).timeCost
    ensures Read32(data, 15) == FieldsAt(data).memoryKiB && Read32(data, 48) == FieldsAt(data).manifestSize
  {
    hide Or, FromLe, Le, Read16, Read32;
    ReadIsLittleEndian(data, 8);
    ReadIsLittleEndian(data, 11);
    ReadIsLittleEndian(data, 15);
    ReadIsLittleEndian(data, 48);
  }

  /** The loop over the magic bytes. */
  method HasMagic(data: seq<byte>) returns (magic: bool)
    requires |data| == HEADER_SIZE
    ensures magic <==> data[..8] == MAGIC
  {
    var i := 0;
    while i < |MAGIC|
      invariant i <= |MAGIC| && data[..i] == MAGIC[..i]
    {
      if data[i] != MAGIC[i] {
        assert data[..8][i] != MAGIC[i];
        return false;
      }
      assert data[..i + 1] == data[..i] + [data[i]] && MAGIC[..i + 1] == MAGIC[..i] + [MAGIC[i]];
      i := i + 1;
    }
    assert data[..8] == MAGIC[..8] == MAGIC;
    return true;
  }

  /** `parse`. */
  method Parse(input: seq<byte>) returns (r: Result<Header>)
    ensures r == ParseHeader(input)
  {
    hide FromLe, Read16, Read32;
    if |input| < HEADER_SIZE {
      return Err(Truncated(HEADER_SIZE, |input|));
    }
    var data := input[..HEADER_SIZE];
    var magic := HasMagic(data);
    if !magic {
      return Err(InvalidHeader);
    }
    FieldsRead(data);
    var reserved := data[52..];
    if exists k :: 0 <= k < 44 && reserved[k] != 0 {
      return Err(InvalidHeader);
    }
    assert reserved == Zeros(44);
    r := Make(Header(Read16(data, 8), data[10], Read32(data, 11), Read32(data, 15), data[19],
                     data[20..36], data[36..48], Read32(data, 48)));
  }

  /** Reading back what was written, whatever follows it. */
  lemma ParseSerialized(h: Header, tail: seq<byte>)
    requires h.Valid()
    ensures ParseHeader(HeaderBytes(h) + tail) == Ok(h)
  {
    PowersOf256();
    LeRoundTrip(h.version, 2);
    LeRoundTrip(h.timeCost, 4);
    LeRoundTrip(h.memoryKiB, 4);
    LeRoundTrip(h.manifestSize, 4);
    hide Le, FromLe, Pow256;
    var data := HeaderBytes(h);
    assert (data + tail)[..HEADER_SIZE] == data;
    HeaderSlices(h);
  }

  lemma HeaderSlices(h: Header)
    requires h.Valid()
    ensures var data := HeaderBytes(h);
      && data[..8] == MAGIC && data[8..10] == Le(h.version, 2) && data[10] == h.kdfId
      && data[11..15] == Le(h.timeCost, 4) && data[15..19] == Le(h.memoryKiB, 4) && data[19] == h.parallelism
      && data[20..36] == h.salt && data[36..48] == h.manifestNonce && data[48..52] == Le(h.manifestSize, 4)
      && data[52..] == Zeros(44)
  {
    hide Le;
  }

  /** Writing back what was parsed: an accepted header has no second encoding. */
  lemma SerializeParsed(b: seq<byte>)
    requires ParseHeader(b).Ok?
    ensures ParseHeader(b).value.Valid() && HeaderBytes(ParseHeader(b).value) == b[..HEADER_SIZE]
  {
    var data := b[..HEADER_SIZE];
    FromLeRoundTrip(data[8..10]);
    FromLeRoundTrip(data[11..15]);
    FromLeRoundTrip(data[15..19]);
    FromLeRoundTrip(data[48..52]);
    hide Le, FromLe;
    SliceTogether(data);
  }

  lemma SliceTogether(data: seq<byte>)
    requires |data| == HEADER_SIZE
    ensures data == data[..8] + data[8..10] + [data[10]] + data[11..15] + data[15..19] + [data[19]]
      + data[20..36] + data[36..48] + data[48..52] + data[52..]
  {
  }
}
