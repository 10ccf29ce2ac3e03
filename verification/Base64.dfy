/** The branch-free base64 of encoding.c. Characters are ASCII codes; `unsigned` is 32 bits wide. */
module Base64 {
  import opened Words

  // ---- the comparison macros, and the alphabet ----

  function EQ(x: u32, y: u32): nat { Xor(And(U32(0 - Xor(x, y)) / 256, 0xFF), 0xFF) }
  function GT(x: u32, y: u32): nat { And(U32(y - x) / 256, 0xFF) }
  function GE(x: u32, y: u32): nat { Xor(GT(y, x), 0xFF) }
  function LT(x: u32, y: u32): nat { GT(y, x) }
  function LE(x: u32, y: u32): nat { GE(y, x) }

  function Mask(b: bool): nat { if b then 0xFF else 0 }

  lemma {:induction false} AndZero(x: nat)
    ensures And(0, x) == 0 && And(x, 0) == 0
  {
  }

  /** Masking an n-bit number with n ones keeps it. */
  lemma {:induction false} AndOnes(x: nat, n: nat)
    requires x < Pow2(n)
    ensures And(x, Pow2(n) - 1) == x && And(Pow2(n) - 1, x) == x
  {
    hide And, Pow2;
    PowStep(n);
    if x == 0 {
      AndZero(Pow2(n) - 1);
    } else {
      AndOnes(x / 2, n - 1);
      HalvesOfOnes(n);
      AndStep(x, Pow2(n) - 1);
      AndStep(Pow2(n) - 1, x);
    }
  }

  lemma {:induction false} OnesAndOnes(m: nat, n: nat)
    requires n <= m
    ensures And(Pow2(m) - 1, Pow2(n) - 1) == Pow2(n) - 1
  {
    hide And, Pow2;
    PowStep(m);
    PowStep(n);
    if n == 0 {
      AndZero(Pow2(m) - 1);
    } else {
      OnesAndOnes(m - 1, n - 1);
      AndOdd(Pow2(m - 1), Pow2(n - 1));
    }
  }

  lemma PowStep(n: nat)
    ensures Pow2(n) == if n == 0 then 1 else 2 * Pow2(n - 1)
  {
  }

  lemma AndOdd(p: nat, q: nat)
    requires p > 0 && q > 0
    ensures And(2 * p - 1, 2 * q - 1) == 1 + 2 * And(p - 1, q - 1)
  {
    hide And;
    AndStep(2 * p - 1, 2 * q - 1);
    assert (2 * p - 1) / 2 == p - 1 && (2 * q - 1) / 2 == q - 1;
  }

  lemma HalvesOfOnes(n: nat)
    requires n > 0
    ensures Pow2(n) == 2 * Pow2(n - 1)
    ensures (Pow2(n) - 1) / 2 == Pow2(n - 1) - 1 && (Pow2(n) - 1) % 2 == 1
  {
  }

  lemma AndStep(a: nat, b: nat)
    ensures And(a, b) == (if a % 2 == 1 && b % 2 == 1 then 1 else 0) + 2 * And(a / 2, b / 2)
  {
    AndZero(a / 2);
    AndZero(b / 2);
  }

  lemma AndByte(x: nat)
    requires x < 256
    ensures And(x, 0xFF) == x && And(0xFF, x) == x
  {
    PowersOfTwo();
    AndOnes(x, 8);
  }

  lemma MacrosCompare(x: u32, y: u32)
    requires x < 256 && y < 256
    ensures EQ(x, y) == Mask(x == y) && GT(x, y) == Mask(x > y) && GE(x, y) == Mask(x >= y)
    ensures LT(x, y) == Mask(x < y) && LE(x, y) == Mask(x <= y)
  {
    hide Xor, And;
    PowersOfTwo();
    XorZero(x, y);
    XorBound(x, y, 8);
    MaskDistance(Xor(x, y));
    MaskDifference(x, y);
    MaskDifference(y, x);
    FlipMask();
  }

  lemma FlipMask()
    ensures Xor(0, 0xFF) == 0xFF && Xor(0xFF, 0xFF) == 0
  {
    XorZero(0xFF, 0xFF);
    XorUndo(0, 0xFF);
    XorCommutes(0, 0xFF);
    XorUndo(0xFF, 0xFF);
  }

  lemma MaskDistance(z: u32)
    requires z < 256
    ensures And(U32(0 - z) / 256, 0xFF) == Mask(z != 0)
  {
    hide And;
    if z != 0 {
      HighBytes(z);
    } else {
      AndByte(0);
    }
  }

  /** Shifting a small negative number down by a byte leaves 24 ones. */
  lemma HighBytes(z: u32)
    requires 0 < z < 256
    ensures And(U32(0 - z) / 256, 0xFF) == 0xFF
  {
    hide And;
    assert U32(0 - z) == 0x1_0000_0000 - z;
    assert U32(0 - z) / 256 == 0xFF_FFFF;
    PowersOfTwo();
    assert Pow2(24) == 0x100_0000;
    OnesAndOnes(24, 8);
  }

  lemma MaskDifference(x: u32, y: u32)
    requires x < 256 && y < 256
    ensures And(U32(y - x) / 256, 0xFF) == Mask(x > y)
  {
    hide And;
    if x > y {
      HighBytes(x - y);
      assert U32(y - x) == U32(0 - (x - y));
    } else {
      AndByte(0);
      assert U32(y - x) / 256 == 0;
    }
  }

  /** The value of a base64 character is below 64; this stands for any other character. */
  const INVALID: nat := 0xFF

  /** The base64 alphabet, as ASCII codes. */
  function AlphabetCode(v: nat): (c: nat)
    requires v < 64
    ensures 0 < c < 128
  {
    if v < 26 then v + 65 else if v < 52 then v + 71 else if v < 62 then v - 4 else if v == 62 then 43 else 47
  }

  function AlphabetValue(c: nat): (v: nat)
    ensures v < 64 || v == INVALID
  {
    if 65 <= c <= 90 then c - 65 else if 97 <= c <= 122 then c - 71 else if 48 <= c <= 57 then c + 4
    else if c == 43 then 62 else if c == 47 then 63 else INVALID
  }

  lemma AlphabetInverse()
    ensures forall v: nat :: v < 64 ==> AlphabetValue(AlphabetCode(v)) == v
    ensures forall c: nat :: AlphabetValue(c) < 64 ==> AlphabetCode(AlphabetValue(c)) == c
  {
  }

  /** `b64_byte_to_char`. */
  function ByteToChar(x: u32): nat {
    Or(Or(Or(Or(
      And(LT(x, 26), U32(x + 65)),
      And(And(GE(x, 26), LT(x, 52)), U32(x + 71))),
      And(And(GE(x, 52), LT(x, 62)), U32(x - 4))),
      And(EQ(x, 62), 43)),
      And(EQ(x, 63), 47))
  }

  /** The five terms of `b64_char_to_byte`. */
  function CharCore(c: u32): nat {
    Or(Or(Or(Or(
      And(And(GE(c, 65), LE(c, 90)), U32(c - 65)),
      And(And(GE(c, 97), LE(c, 122)), U32(c - 71))),
      And(And(GE(c, 48), LE(c, 57)), U32(c + 4))),
      And(EQ(c, 43), 62)),
      And(EQ(c, 47), 63))
  }

  /** `b64_char_to_byte`: a zero stands for 'A' or, corrected, for no character of the alphabet. */
  function CharToByte(c: u32): nat {
    Or(CharCore(c), And(EQ(U32(CharCore(c)), 0), Xor(EQ(c, 65), 0xFF)))
  }

  /** A masked term is the term or nothing. */
  lemma Masked(b: bool, x: nat)
    requires b ==> x < 256
    ensures And(Mask(b), x) == if b then x else 0
  {
    hide And;
    if b {
      AndByte(x);
    } else {
      AndZero(x);
    }
  }

  lemma MaskAnd(a: bool, b: bool)
    ensures And(Mask(a), Mask(b)) == Mask(a && b)
  {
    Masked(a, Mask(b));
  }

  /** Five terms of which at most one is not zero. */
  lemma OrOfFive(a: nat, b: nat, c: nat, d: nat, e: nat)
    requires (a == 0 || (b == 0 && c == 0 && d == 0 && e == 0)) && (b == 0 || (c == 0 && d == 0 && e == 0))
    requires (c == 0 || (d == 0 && e == 0)) && (d == 0 || e == 0)
    ensures Or(Or(Or(Or(a, b), c), d), e) == a + b + c + d + e
  {
    hide Or;
    OrWithZero(0);
    OrWithZero(a);
    OrWithZero(b);
    OrWithZero(c);
    OrWithZero(d);
    OrWithZero(e);
  }

  /** `b64_byte_to_char` computes the alphabet. */
  lemma ByteToCharIsAlphabet(x: u32)
    requires x < 64
    ensures ByteToChar(x) == AlphabetCode(x)
  {
    hide And, Or, EQ, GT, GE, LT, LE;
    MacrosCompare(x, 26);
    MacrosCompare(x, 52);
    MacrosCompare(x, 62);
    MacrosCompare(x, 63);
    MaskAnd(x >= 26, x < 52);
    MaskAnd(x >= 52, x < 62);
    Masked(x < 26, U32(x + 65));
    Masked(x >= 26 && x < 52, U32(x + 71));
    Masked(x >= 52 && x < 62, U32(x - 4));
    Masked(x == 62, 43);
    Masked(x == 63, 47);
    OrOfFive(if x < 26 then x + 65 else 0, if x >= 26 && x < 52 then x + 71 else 0,
      if x >= 52 && x < 62 then x - 4 else 0, if x == 62 then 43 else 0, if x == 63 then 47 else 0);
  }

  lemma CharCoreIsAlphabet(c: u32)
    requires c < 128
    ensures CharCore(c) == if AlphabetValue(c) == INVALID then 0 else AlphabetValue(c)
  {
    hide And, Or, EQ, GT, GE, LT, LE;
    MacrosCompare(c, 65);
    MacrosCompare(c, 90);
    MacrosCompare(c, 97);
    MacrosCompare(c, 122);
    MacrosCompare(c, 48);
    MacrosCompare(c, 57);
    MacrosCompare(c, 43);
    MacrosCompare(c, 47);
    MaskAnd(c >= 65, c <= 90);
    MaskAnd(c >= 97, c <= 122);
    MaskAnd(c >= 48, c <= 57);
    Masked(c >= 65 && c <= 90, U32(c - 65));
    Masked(c >= 97 && c <= 122, U32(c - 71));
    Masked(c >= 48 && c <= 57, U32(c + 4));
    Masked(c == 43, 62);
    Masked(c == 47, 63);
    OrOfFive(if c >= 65 && c <= 90 then c - 65 else 0, if c >= 97 && c <= 122 then c - 71 else 0,
      if c >= 48 && c <= 57 then c + 4 else 0, if c == 43 then 62 else 0, if c == 47 then 63 else 0);
  }

  /** The correction: 0xFF for a zero that does not come from 'A'. */
  lemma Correction(x: nat, c: u32)
    requires x < 64 && c < 128
    ensures And(EQ(U32(x), 0), Xor(EQ(c, 65), 0xFF)) == if x == 0 && c != 65 then 0xFF else 0
  {
    hide And, Xor, EQ, GT, GE, LT, LE;
    assert U32(x) == x;
    MacrosCompare(x, 0);
    MacrosCompare(c, 65);
    FlipMask();
    Masked(x == 0, Mask(c != 65));
  }

  /** `b64_char_to_byte` inverts it on ASCII, with 0xFF for all other characters. */
  lemma CharToByteIsAlphabet(c: u32)
    requires c < 128
    ensures CharToByte(c) == AlphabetValue(c)
  {
    CharCoreIsAlphabet(c);
    hide And, Or, Xor, EQ, CharCore, U32;
    var x := CharCore(c);
    Correction(x, c);
    OrWithZero(x);
    OrWithZero(0xFF);
    if x == 0 {
      assert AlphabetValue(c) == if c == 65 then 0 else INVALID;
    }
  }

  // ---- characters above 127, where `char` is signed ----

  /** The `int` that a byte becomes as a signed `char`. */
  function SignedChar(c: nat): int
    requires c < 256
  {
    if c < 128 then c else c - 256
  }

  function ShiftDown(x: nat, n: nat): nat { if n == 0 then x else ShiftDown(x / 2, n - 1) }

  /** Xor with a number of `n` bits leaves the bits above alone. */
  lemma {:induction false} XorHigh(a: nat, b: nat, n: nat)
    requires b < Pow2(n)
    ensures ShiftDown(Xor(a, b), n) == ShiftDown(a, n)
    decreases n
  {
    hide Xor;
    if n == 0 {
      XorNothing(a);
    } else {
      XorHigh(a / 2, b / 2, n - 1);
      XorStep(a, b);
    }
  }

  lemma {:induction false} XorNothing(a: nat)
    ensures Xor(a, 0) == a
  {
    if a != 0 {
      XorNothing(a / 2);
    }
  }

  lemma ShiftSeven(x: nat)
    ensures ShiftDown(x, 7) == x / 128
  {
    ShiftTwoDown(x, 5);
    ShiftTwoDown(x / 4, 3);
    ShiftTwoDown(x / 16, 1);
    assert ShiftDown(x / 64, 1) == x / 64 / 2;
    hide ShiftDown;
    assert x / 4 / 4 == x / 16 && x / 16 / 4 == x / 64 && x / 64 / 2 == x / 128;
  }

  lemma ShiftTwoDown(x: nat, n: nat)
    ensures ShiftDown(x, n + 2) == ShiftDown(x / 4, n)
  {
    assert ShiftDown(x, n + 2) == ShiftDown(x / 2, n + 1) == ShiftDown(x / 2 / 2, n);
  }

  /** EQ takes every negative `char` for every ASCII character, */
  lemma NegativeEquals(c: nat, y: nat)
    requires 128 <= c < 256 && y < 128
    ensures EQ(U32(SignedChar(c)), y) == 0xFF
  {
    hide Xor, And, ShiftDown, U32, SignedChar;
    var x := U32(SignedChar(c));
    HighBitsSet(c);
    HighBitsDiffer(x, y);
    SmallDistance(Xor(x, y));
    AndByte(0);
    FlipMask();
  }

  lemma HighBitsSet(c: nat)
    requires 128 <= c < 256
    ensures U32(SignedChar(c)) / 128 == 0x1FF_FFFF
  {
  }

  lemma HighBitsDiffer(x: u32, y: nat)
    requires y < 128
    ensures Xor(x, y) / 128 == x / 128 && Xor(x, y) < 0x1_0000_0000
  {
    PowersOfTwo();
    assert Pow2(7) == 128;
    hide Xor, Pow2, ShiftDown;
    XorHigh(x, y, 7);
    XorBound(x, y, 32);
    ShiftSeven(x);
    ShiftSeven(Xor(x, y));
  }

  lemma SmallDistance(z: nat)
    requires z / 128 == 0x1FF_FFFF && z < 0x1_0000_0000
    ensures U32(0 - z) / 256 == 0
  {
  }

  /** while GE takes it for smaller. */
  lemma NegativeBelow(c: nat, y: nat)
    requires 128 <= c < 256 && y < 128
    ensures GE(U32(SignedChar(c)), y) == 0
  {
    hide And, Xor, U32;
    NegativeDifference(c, y);
    HighBytes(256 - c + y);
    FlipMask();
  }

  lemma NegativeDifference(c: nat, y: nat)
    requires 128 <= c < 256 && y < 128
    ensures U32(U32(SignedChar(c)) as int - y) == U32(0 - (256 - c + y))
  {
    assert U32(SignedChar(c)) == 0x1_0000_0000 + c - 256;
  }

  lemma OrOfSlash()
    ensures Or(62, 63) == 63 && Or(63, 0) == 63
  {
    assert Or(1, 1) == 1;
    assert Or(3, 3) == 3;
    assert Or(7, 7) == 7;
    assert Or(15, 15) == 15;
    assert Or(31, 31) == 31;
    OrWithZero(63);
  }

  /** So `b64_char_to_byte` reads a negative `char` as it reads '/'. */
  lemma NegativeReadsAsSlash(c: nat)
    requires 128 <= c < 256
    ensures CharToByte(U32(SignedChar(c))) == 63
  {
    hide And, Or, Xor, EQ, GT, GE, LT, LE, U32;
    var x: int := U32(SignedChar(c));
    NegativeBelow(c, 65);
    NegativeBelow(c, 97);
    NegativeBelow(c, 48);
    NegativeEquals(c, 43);
    NegativeEquals(c, 47);
    NegativeEquals(c, 65);
    AndZero(LE(x, 90));
    AndZero(LE(x, 122));
    AndZero(LE(x, 57));
    AndZero(U32(x - 65));
    AndZero(U32(x - 71));
    AndZero(U32(x + 4));
    AndByte(62);
    AndByte(63);
    OrWithZero(0);
    OrWithZero(62);
    OrOfSlash();
    SlashStays(Xor(EQ(x, 65), 0xFF));
  }

  lemma SlashStays(z: nat)
    ensures And(EQ(U32(63), 0), z) == 0
  {
    hide And, EQ, GT, GE, LT, LE;
    assert U32(63) == 63;
    MacrosCompare(63, 0);
    AndZero(z);
  }

  /** What `b64_char_to_byte` makes of a byte, for all bytes: the documented value if and only if the byte
      is ASCII. */
  lemma CharReadIffAscii(c: nat)
    requires c < 256
    ensures CharToByte(U32(SignedChar(c))) == AlphabetValue(c) <==> c < 128
  {
    hide CharToByte;
    if c < 128 {
      assert U32(SignedChar(c)) == c;
      CharToByteIsAlphabet(c);
    } else {
      NegativeReadsAsSlash(c);
    }
  }

  // ---- bytes and sextets ----

  /** `b64len`. */
  function B64Len(n: nat): nat { n / 3 * 4 + (if n % 3 == 0 then 0 else n % 3 + 1) }

  /** Three bytes as four sextets, most significant bits first. */
  function Four(x: byte, y: byte, z: byte): (s: seq<nat>)
    ensures |s| == 4 && forall i :: 0 <= i < 4 ==> s[i] < 64
  {
    [x / 4, x % 4 * 16 + y / 16, y % 16 * 4 + z / 64, z % 64]
  }

  /** Four sextets as three bytes. */
  function Three(s: seq<nat>): (b: seq<byte>)
    requires |s| == 4 && forall i :: 0 <= i < 4 ==> s[i] < 64
    ensures |b| == 3
  {
    [s[0] * 4 + s[1] / 16, s[1] % 16 * 16 + s[2] / 4, s[2] % 4 * 64 + s[3]]
  }

  lemma ThreeFour(x: byte, y: byte, z: byte)
    ensures Three(Four(x, y, z)) == [x, y, z]
  {
  }

  lemma FourThree(s: seq<nat>)
    requires |s| == 4 && forall i :: 0 <= i < 4 ==> s[i] < 64
    ensures Four(Three(s)[0], Three(s)[1], Three(s)[2]) == s
  {
    SextetOfBytes(s[0], s[1]);
    SextetsInside(s[1], s[2], s[3]);
    var f := Four(Three(s)[0], Three(s)[1], Three(s)[2]);
    assert f[0] == s[0] && f[1] == s[1] && f[2] == s[2] && f[3] == s[3];
  }

  lemma SextetOfBytes(x: nat, y: nat)
    requires x < 64 && y < 64
    ensures (x * 4 + y / 16) / 4 == x && (x * 4 + y / 16) % 4 == y / 16
  {
    Split4(x * 4 + y / 16, x, y / 16);
  }

  lemma SextetsInside(y: nat, z: nat, w: nat)
    requires y < 64 && z < 64 && w < 64
    ensures (y % 16 * 16 + z / 4) / 16 == y % 16 && (y % 16 * 16 + z / 4) % 16 == z / 4
    ensures (z % 4 * 64 + w) / 64 == z % 4 && (z % 4 * 64 + w) % 64 == w
  {
    Split16(y % 16 * 16 + z / 4, y % 16, z / 4);
    Split64(z % 4 * 64 + w, z % 4, w);
  }

  /** Section 4 of RFC 4648 without padding: three bytes make four sextets, a tail is filled with zero bits
      and its superfluous sextets are dropped. */
  function Sextets(b: seq<byte>): (s: seq<nat>)
    ensures |s| == B64Len(|b|)
    ensures forall i :: 0 <= i < |s| ==> s[i] < 64
  {
    if |b| == 0 then []
    else if |b| == 1 then Four(b[0], 0, 0)[..2]
    else if |b| == 2 then Four(b[0], b[1], 0)[..3]
    else Four(b[0], b[1], b[2]) + Sextets(b[3..])
  }

  /** The bytes completed by a string of sextets. */
  function CompleteBytes(s: seq<nat>): (b: seq<byte>)
    requires forall i :: 0 <= i < |s| ==> s[i] < 64
    ensures |b| == 6 * |s| / 8
  {
    if |s| <= 1 then []
    else if |s| == 2 then Three([s[0], s[1], 0, 0])[..1]
    else if |s| == 3 then Three([s[0], s[1], s[2], 0])[..2]
    else Three(s[..4]) + CompleteBytes(s[4..])
  }

  /** The length is possible and the bits left over are zero. */
  predicate Canonical(s: seq<nat>) {
    && |s| % 4 != 1
    && (|s| % 4 == 2 ==> s[|s| - 1] % 16 == 0)
    && (|s| % 4 == 3 ==> s[|s| - 1] % 4 == 0)
  }

  lemma ShortTails(x: byte, y: byte)
    ensures Canonical(Four(x, 0, 0)[..2]) && CompleteBytes(Four(x, 0, 0)[..2]) == [x]
    ensures Canonical(Four(x, y, 0)[..3]) && CompleteBytes(Four(x, y, 0)[..3]) == [x, y]
  {
    ThreeFour(x, 0, 0);
    ThreeFour(x, y, 0);
    assert Four(x, 0, 0) == [x / 4, x % 4 * 16, 0, 0];
    assert Four(x, y, 0) == [x / 4, x % 4 * 16 + y / 16, y % 16 * 4, 0];
  }

  lemma CanonicalGroup(q: seq<nat>, t: seq<nat>)
    requires |q| == 4
    ensures Canonical(q + t) <==> Canonical(t)
  {
    var s := q + t;
    assert |s| % 4 == |t| % 4;
    if t != [] {
      assert s[|s| - 1] == t[|t| - 1];
    }
  }

  lemma DecodeGroup(x: byte, y: byte, z: byte, t: seq<nat>)
    requires forall i :: 0 <= i < |t| ==> t[i] < 64
    ensures CompleteBytes(Four(x, y, z) + t) == [x, y, z] + CompleteBytes(t)
  {
    hide Four, Three;
    var s := Four(x, y, z) + t;
    ThreeFour(x, y, z);
    assert s[..4] == Four(x, y, z) && s[4..] == t;
  }

  lemma EncodeGroup(q: seq<nat>, rest: seq<byte>)
    requires |q| == 4 && forall i :: 0 <= i < 4 ==> q[i] < 64
    ensures Sextets(Three(q) + rest) == q + Sextets(rest)
  {
    hide Four, Three;
    var b := Three(q) + rest;
    FourThree(q);
    assert b[0] == Three(q)[0] && b[1] == Three(q)[1] && b[2] == Three(q)[2] && b[3..] == rest;
  }

  /** Decoding undoes encoding. */
  lemma {:induction false} DecodeEncoded(b: seq<byte>)
    ensures Canonical(Sextets(b)) && CompleteBytes(Sextets(b)) == b
  {
    if |b| == 0 {
    } else if |b| <= 2 {
      ShortTails(b[0], b[|b| - 1]);
    } else {
      hide Four, Canonical, CompleteBytes;
      DecodeEncoded(b[3..]);
      DecodeGroup(b[0], b[1], b[2], Sextets(b[3..]));
      CanonicalGroup(Four(b[0], b[1], b[2]), Sextets(b[3..]));
      assert b == [b[0], b[1], b[2]] + b[3..];
    }
  }

  lemma ShortTexts(x: nat, y: nat, z: nat)
    requires x < 64 && y < 64 && z < 64
    ensures y % 16 == 0 ==> Sextets(CompleteBytes([x, y])) == [x, y]
    ensures z % 4 == 0 ==> Sextets(CompleteBytes([x, y, z])) == [x, y, z]
  {
    if y % 16 == 0 {
      FourThree([x, y, 0, 0]);
    }
    if z % 4 == 0 {
      FourThree([x, y, z, 0]);
    }
  }

  /** Encoding undoes decoding: a byte string has one canonical text only. */
  lemma {:induction false} EncodeDecoded(s: seq<nat>)
    requires (forall i :: 0 <= i < |s| ==> s[i] < 64) && Canonical(s)
    ensures Sextets(CompleteBytes(s)) == s
  {
    hide Four, Three, Sextets, Canonical, CompleteBytes;
    if |s| <= 3 {
      EncodeDecodedShort(s);
    } else {
      var q, t := s[..4], s[4..];
      assert s == q + t;
      CanonicalGroup(q, t);
      EncodeDecoded(t);
      EncodeGroup(q, CompleteBytes(t));
      CompleteGroup(q, t);
    }
  }

  lemma EncodeDecodedShort(s: seq<nat>)
    requires |s| <= 3 && (forall i :: 0 <= i < |s| ==> s[i] < 64) && Canonical(s)
    ensures Sextets(CompleteBytes(s)) == s
  {
    CanonicalShort(s);
    hide Four, Three, Sextets, Canonical, CompleteBytes;
    if |s| == 0 {
      NoText();
    } else if |s| == 2 {
      assert s == [s[0], s[1]];
      ShortTexts(s[0], s[1], 0);
    } else {
      assert s == [s[0], s[1], s[2]];
      ShortTexts(s[0], s[1], s[2]);
    }
  }

  lemma NoText()
    ensures Sextets(CompleteBytes([])) == []
  {
  }

  lemma CanonicalShort(s: seq<nat>)
    requires |s| <= 3 && Canonical(s)
    ensures |s| != 1 && (|s| == 2 ==> s[1] % 16 == 0) && (|s| == 3 ==> s[2] % 4 == 0)
  {
  }

  lemma CompleteGroup(q: seq<nat>, t: seq<nat>)
    requires |q| == 4 && (forall i :: 0 <= i < 4 ==> q[i] < 64) && forall i :: 0 <= i < |t| ==> t[i] < 64
    ensures CompleteBytes(q + t) == Three(q) + CompleteBytes(t)
  {
    hide Three;
    var s := q + t;
    assert s[..4] == q && s[4..] == t;
  }

  lemma B64LenAtLeast(n: nat)
    ensures B64Len(n) >= n
  {
  }
}
