/** The loops `to_base64` and `from_base64` of encoding.c: a 32-bit accumulator that wraps around, and its
    count of pending bits. */
module Base64Codec {
  import opened Words
  import opened Base64

  /** Sextets as text. */
  function Chars(s: seq<nat>): (t: string)
    requires forall i :: 0 <= i < |s| ==> s[i] < 64
    ensures |t| == |s|
  {
    seq(|s|, i requires 0 <= i < |s| => AlphabetCode(s[i]) as char)
  }

  // ---- one byte at a time ----

  /** Pending bits after `n` bytes: 0, 2 or 4. */
  function PendingBits(n: nat): nat { n % 3 * 2 }

  /** Their value: the low bits of the last byte. */
  function Pending(b: seq<byte>): (p: nat)
    ensures p < 16 && (|b| % 3 == 1 ==> p < 4) && (|b| % 3 == 0 ==> p == 0)
  {
    if |b| % 3 == 0 then 0 else if |b| % 3 == 1 then b[|b| - 1] % 4 else b[|b| - 1] % 16
  }

  /** The sextets that `b` completes. */
  function Emitted(b: seq<byte>): (s: seq<nat>)
    ensures forall i :: 0 <= i < |s| ==> s[i] < 64
  {
    if |b| % 3 == 0 then Sextets(b) else Sextets(b)[..|Sextets(b)| - 1]
  }

  /** The sextets completed by one more byte `x`, after pending bits `p`. */
  function Completed(r: nat, p: nat, x: byte): seq<nat> {
    if r == 0 then [x / 4] else if r == 1 then [p * 16 + x / 16] else [p * 4 + x / 64, x % 64]
  }

  lemma GroupFirst(b: seq<byte>)
    requires |b| >= 3
    ensures Emitted(b) == Four(b[0], b[1], b[2]) + Emitted(b[3..])
    ensures |b| > 3 ==> Pending(b) == Pending(b[3..])
    ensures |b| % 3 == |b[3..]| % 3
  {
    hide Four;
  }

  lemma {:induction false} EmitByte(b: seq<byte>, x: byte)
    ensures Emitted(b + [x]) == Emitted(b) + Completed(|b| % 3, Pending(b), x)
  {
    hide Four, Completed, Emitted, Pending;
    if |b| >= 3 {
      GroupFirst(b);
      EmitByte(b[3..], x);
      GroupOfAppended(b, x);
      SameSum(Four(b[0], b[1], b[2]), Emitted(b[3..]), Completed(|b| % 3, Pending(b), x));
    } else {
      EmitShort(b, x);
    }
  }

  lemma SameSum(a: seq<nat>, b: seq<nat>, c: seq<nat>)
    ensures a + (b + c) == a + b + c
  {
  }

  lemma GroupOfAppended(b: seq<byte>, x: byte)
    requires |b| >= 3
    ensures Emitted(b + [x]) == Four(b[0], b[1], b[2]) + Emitted(b[3..] + [x])
    ensures Pending(b) == Pending(b[3..])
  {
    hide Four, Emitted, Pending;
    assert (b + [x])[3..] == b[3..] + [x];
    GroupFirst(b + [x]);
    PendingShift(b);
  }

  lemma PendingShift(b: seq<byte>)
    requires |b| >= 3
    ensures Pending(b) == Pending(b[3..])
  {
  }

  lemma EmitShort(b: seq<byte>, x: byte)
    requires |b| < 3
    ensures Emitted(b + [x]) == Emitted(b) + Completed(|b| % 3, Pending(b), x)
  {
    hide Emitted, Pending, Completed;
    if |b| == 0 {
      EmitFirst(x);
      assert b == [] && b + [x] == [x];
    } else if |b| == 1 {
      EmitSecond(b[0], x);
      assert b == [b[0]] && b + [x] == [b[0], x];
    } else {
      EmitThird(b[0], b[1], x);
      assert b == [b[0], b[1]] && b + [x] == [b[0], b[1], x];
    }
  }

  lemma EmitFirst(x: byte)
    ensures Emitted([x]) == Emitted([]) + Completed(0, Pending([]), x)
  {
  }

  lemma EmitSecond(a: byte, x: byte)
    ensures Emitted([a, x]) == Emitted([a]) + Completed(1, Pending([a]), x)
  {
  }

  lemma EmitThird(a: byte, b: byte, x: byte)
    ensures Emitted([a, b, x]) == Emitted([a, b]) + Completed(2, Pending([a, b]), x)
  {
    assert [a, b, x][3..] == [];
  }

  /** The last, filled-up sextet. */
  lemma {:induction false} EmitTail(b: seq<byte>)
    ensures Sextets(b) == Emitted(b)
      + (if |b| % 3 == 0 then [] else if |b| % 3 == 1 then [Pending(b) * 16] else [Pending(b) * 4])
  {
    if |b| >= 3 {
      hide Four, Emitted, Pending;
      EmitTail(b[3..]);
      GroupFirst(b);
      PendingShift(b);
    }
  }

  // ---- the accumulator ----

  /** acc >> n. */
  function Shr(x: nat, n: nat): nat { if n == 0 then x else Shr(x / 2, n - 1) }

  lemma ShrTwo(x: nat, n: nat)
    ensures Shr(x, n + 2) == Shr(x / 4, n)
  {
    assert Shr(x, n + 2) == Shr(x / 2, n + 1) == Shr(x / 2 / 2, n);
  }

  lemma ShrSmall(x: nat)
    ensures Shr(x, 0) == x && Shr(x, 2) == x / 4 && Shr(x, 4) == x / 16 && Shr(x, 6) == x / 64
  {
    ShrTwo(x, 0);
    ShrTwo(x, 2);
    ShrTwo(x / 4, 0);
    ShrTwo(x, 4);
    ShrTwo(x / 4, 2);
    ShrTwo(x / 16, 0);
  }

  /** The `n` low bits of x. */
  function LowBits(x: nat, n: nat): nat { if n == 0 then 0 else x % 2 + 2 * LowBits(x / 2, n - 1) }

  lemma {:induction false} MaskIsLowBits(x: nat, n: nat)
    ensures And(x, Pow2(n) - 1) == LowBits(x, n)
  {
    hide And, Pow2, LowBits;
    LowStep(x, n);
    PowStep(n);
    if n == 0 {
      AndZero(x);
    } else {
      MaskIsLowBits(x / 2, n - 1);
      HalvesOfOnes(n);
      AndStep(x, Pow2(n) - 1);
    }
  }

  lemma LowStep(x: nat, n: nat)
    ensures LowBits(x, n) == if n == 0 then 0 else x % 2 + 2 * LowBits(x / 2, n - 1)
  {
  }

  lemma LowTwo(x: nat, n: nat)
    ensures LowBits(x, n + 2) == x % 4 + 4 * LowBits(x / 4, n)
  {
    assert LowBits(x, n + 2) == x % 2 + 2 * LowBits(x / 2, n + 1);
    assert LowBits(x / 2, n + 1) == x / 2 % 2 + 2 * LowBits(x / 2 / 2, n);
    hide LowBits;
    TwoBits(x);
  }

  lemma TwoBits(x: nat)
    ensures x / 2 / 2 == x / 4 && x % 2 + 2 * (x / 2 % 2) == x % 4
  {
    var q, r := x / 4, x % 4;
    assert x / 2 == 2 * q + r / 2;
  }

  lemma LowSmall(x: nat)
    ensures LowBits(x, 0) == 0 && LowBits(x, 2) == x % 4 && LowBits(x, 4) == x % 16 && LowBits(x, 6) == x % 64
  {
    hide LowBits;
    LowTwo(x, 0);
    LowTwo(x, 2);
    LowTwo(x / 4, 0);
    LowTwo(x, 4);
    LowTwo(x / 4, 2);
    LowTwo(x / 16, 0);
    LowNone(x);
    LowNone(x / 4);
    LowNone(x / 16);
    LowNone(x / 64);
    FourthOfFourth(x);
    DigitsOfFour(x);
  }

  lemma FourthOfFourth(x: nat)
    ensures x / 4 / 4 == x / 16 && x / 16 / 4 == x / 64
  {
  }

  lemma LowPair(x: nat)
    ensures LowBits(x, 2) == x % 4 && Shr(x, 2) == x / 4
  {
    LowSmall(x);
    ShrSmall(x);
  }

  lemma LowQuad(x: nat)
    ensures LowBits(x, 4) == x % 16 && Shr(x, 4) == x / 16
  {
    LowSmall(x);
    ShrSmall(x);
  }

  lemma LowSextet(x: nat)
    ensures LowBits(x, 6) == x % 64
  {
    LowSmall(x);
  }

  lemma DigitsOfFour(x: nat)
    ensures x % 4 + 4 * (x / 4 % 4) == x % 16
    ensures x % 4 + 4 * (x / 4 % 4 + 4 * (x / 16 % 4)) == x % 64
  {
    LowDigit(x, 4);
    LowDigit(x / 4, 4);
    LowDigit(x, 16);
    assert x / 4 / 4 == x / 16;
  }

  lemma LowDigit(x: nat, m: nat)
    requires m == 4 || m == 16
    ensures x % 4 + 4 * (x / 4 % m) == x % (4 * m)
  {
    var y, r := x / 4, x % 4;
    if m == 4 {
      Split16(x, y / 4, 4 * (y % 4) + r);
    } else {
      Split64(x, y / 16, 4 * (y % 16) + r);
    }
  }

  /** acc + one more byte, in 32 bits: only the pending bits of the old value matter. */
  lemma ByteAccumulated(acc: u32, r: nat, p: nat, x: byte)
    requires r < 3 && p == LowBits(acc, 2 * r)
    ensures var acc', s := U32(acc * 256 + x), Completed(r, p, x);
      && |s| == (2 * r + 8) / 6
      && s[0] < 64 && s[0] == Shr(acc', 2 * r + 2) % 64
      && (r == 2 ==> s[1] < 64 && s[1] == Shr(acc', 0) % 64)
      && LowBits(acc', (2 * r + 8) % 6) == (if r == 0 then x % 4 else if r == 1 then x % 16 else 0)
  {
    hide Shr, LowBits, U32;
    var acc' := U32(acc * 256 + x);
    WrapKeepsLow(acc, x);
    if r == 0 {
      LowPair(acc');
    } else if r == 1 {
      LowPair(acc);
      LowQuad(acc');
    } else {
      LowQuad(acc);
      LowThrice(acc');
    }
  }

  lemma LowThrice(x: nat)
    ensures LowBits(x, 0) == 0 && Shr(x, 0) == x && Shr(x, 6) == x / 64
  {
    ShrSmall(x);
  }

  lemma WrapKeepsLow(acc: u32, x: byte)
    ensures U32(acc * 256 + x) % 4 == x % 4 && U32(acc * 256 + x) % 16 == x % 16
    ensures U32(acc * 256 + x) % 64 == x % 64
    ensures U32(acc * 256 + x) / 4 % 64 == x / 4
    ensures U32(acc * 256 + x) / 16 % 64 == acc % 4 * 16 + x / 16
    ensures U32(acc * 256 + x) / 64 % 64 == acc % 16 * 4 + x / 64
  {
    hide U32;
    var a := acc % 0x100_0000;
    WrapByte(acc, x);
    LowOfWord(acc);
    ShiftTwo(a, x);
    ShiftFour(a, x);
    ShiftSix(a, x);
  }

  lemma LowOfWord(acc: u32)
    ensures acc % 0x100_0000 % 4 == acc % 4 && acc % 0x100_0000 % 16 == acc % 16
  {
    var k, a := acc / 0x100_0000, acc % 0x100_0000;
    Split4(acc, 0x40_0000 * k + a / 4, a % 4);
    Split16(acc, 0x10_0000 * k + a / 16, a % 16);
  }

  lemma WrapByte(acc: u32, x: byte)
    ensures U32(acc * 256 + x) == 256 * (acc % 0x100_0000) + x
  {
  }

  lemma ShiftTwo(a: nat, x: byte)
    ensures (256 * a + x) % 4 == x % 4
    ensures (256 * a + x) / 4 % 64 == x / 4
  {
    Split4(256 * a + x, 64 * a + x / 4, x % 4);
    Split64(64 * a + x / 4, a, x / 4);
  }

  lemma ShiftFour(a: nat, x: byte)
    ensures (256 * a + x) % 16 == x % 16
    ensures (256 * a + x) / 16 % 64 == a % 4 * 16 + x / 16
  {
    Split16(256 * a + x, 16 * a + x / 16, x % 16);
    Split64(16 * a + x / 16, a / 4, 16 * (a % 4) + x / 16);
  }

  lemma ShiftSix(a: nat, x: byte)
    ensures (256 * a + x) % 64 == x % 64
    ensures (256 * a + x) / 64 % 64 == a % 16 * 4 + x / 64
  {
    Split64(256 * a + x, 4 * a + x / 64, x % 64);
    Split64(4 * a + x / 64, a / 16, 4 * (a % 16) + x / 64);
  }

  // ---- to_base64 ----

  lemma ByteToCharText(x: nat)
    requires x < 64
    ensures 0 < ByteToChar(x) < 128 && Chars([x]) == [ByteToChar(x) as char]
  {
    ByteToCharIsAlphabet(x);
  }

  /** The inner loop: write out the sextets that `acc` completes. */
  method EmitPending(dst: array<char>, pos: nat, acc: u32, accLen: nat, ghost added: seq<nat>)
    returns (pos': nat, accLen': nat)
    requires 1 <= |added| <= 2 && 6 * |added| <= accLen < 6 * |added| + 6 && pos + |added| <= dst.Length
    requires forall j :: 0 <= j < |added| ==> added[j] < 64 && added[j] == Shr(acc, accLen - 6 * (j + 1)) % 64
    modifies dst
    ensures pos' == pos + |added| && accLen' == accLen - 6 * |added|
    ensures dst[..pos'] == old(dst[..pos]) + Chars(added)
    ensures forall j :: pos' <= j < dst.Length ==> dst[j] == old(dst[j])
  {
    hide ByteToChar, Shr;
    ghost var m := 0;
    pos', accLen' := pos, accLen;
    while accLen' >= 6
      invariant m <= |added| && pos' == pos + m && accLen' == accLen - 6 * m
      invariant dst[..pos'] == old(dst[..pos]) + Chars(added[..m])
      invariant forall j :: pos' <= j < dst.Length ==> dst[j] == old(dst[j])
    {
      accLen' := accLen' - 6;
      ByteToCharText(added[m]);
      ghost var before := dst[..pos'];
      dst[pos'] := ByteToChar(Shr(acc, accLen') % 64) as char;
      assert dst[..pos' + 1] == before + [dst[pos']];
      assert Chars(added[..m + 1]) == Chars(added[..m]) + Chars([added[m]]);
      pos' := pos' + 1;
      m := m + 1;
    }
    assert added[..m] == added;
  }

  lemma EmittedLength(b: seq<byte>, i: nat)
    requires i <= |b|
    ensures |Emitted(b[..i])| + (if i % 3 == 0 then 0 else 1) == B64Len(i) <= B64Len(|b|)
  {
  }

  /** The outer loop body: one more byte. */
  method EncodeByte(dst: array<char>, pos: nat, acc: u32, accLen: nat, x: byte, ghost done: seq<byte>)
    returns (pos': nat, acc': u32, accLen': nat)
    requires accLen == PendingBits(|done|) && LowBits(acc, accLen) == Pending(done)
    requires pos + |Emitted(done + [x])| - |Emitted(done)| <= dst.Length
    modifies dst
    ensures accLen' == PendingBits(|done| + 1) && LowBits(acc', accLen') == Pending(done + [x])
    ensures pos' == pos + |Emitted(done + [x])| - |Emitted(done)|
    ensures dst[..pos'] == old(dst[..pos]) + Chars(Emitted(done + [x])[|Emitted(done)|..])
    ensures forall j :: pos' <= j < dst.Length ==> dst[j] == old(dst[j])
  {
    hide Emitted, LowBits, Shr, Completed, ByteToChar, Chars;
    ghost var r := |done| % 3;
    ghost var added := Completed(r, Pending(done), x);
    ByteAccumulated(acc, r, Pending(done), x);
    EmitByte(done, x);
    assert Emitted(done + [x])[|Emitted(done)|..] == added;
    acc' := U32(acc * 256 + x);
    pos', accLen' := EmitPending(dst, pos, acc', accLen + 8, added);
    assert (|done| + 1) % 3 == (r + 1) % 3;
  }

  /** The outer loop of `to_base64`. */
  method EncodeBytes(dst: array<char>, at: nat, src: seq<byte>) returns (pos: nat, acc: u32, accLen: nat)
    requires at + B64Len(|src|) <= dst.Length
    modifies dst
    ensures accLen == PendingBits(|src|) && LowBits(acc, accLen) == Pending(src)
    ensures pos == at + |Emitted(src)| && dst[..pos] == old(dst[..at]) + Chars(Emitted(src))
    ensures forall j :: pos <= j < dst.Length ==> dst[j] == old(dst[j])
  {
    hide Emitted, LowBits, Pending, Sextets, B64Len, ByteToChar, Chars;
    acc, accLen, pos := 0, 0, at;
    var i := 0;
    EmittedNothing();
    assert src[..0] == [];
    while i < |src|
      invariant i <= |src|
      invariant accLen == PendingBits(i) && LowBits(acc, accLen) == Pending(src[..i])
      invariant pos == at + |Emitted(src[..i])| <= at + B64Len(|src|)
      invariant dst[..pos] == old(dst[..at]) + Chars(Emitted(src[..i]))
      invariant forall j :: pos <= j < dst.Length ==> dst[j] == old(dst[j])
    {
      EmittedLength(src, i + 1);
      assert src[..i + 1] == src[..i] + [src[i]];
      EmitByte(src[..i], src[i]);
      pos, acc, accLen := EncodeByte(dst, pos, acc, accLen, src[i], src[..i]);
      CharsSplit(Emitted(src[..i + 1]), |Emitted(src[..i])|);
      assert Emitted(src[..i + 1])[..|Emitted(src[..i])|] == Emitted(src[..i]);
      i := i + 1;
    }
    assert src[..i] == src;
  }

  method PutChar(dst: array<char>, pos: nat, c: char)
    requires pos < dst.Length
    modifies dst
    ensures dst[..pos + 1] == old(dst[..pos]) + [c]
    ensures forall j :: pos < j < dst.Length ==> dst[j] == old(dst[j])
  {
    ghost var before := dst[..pos];
    dst[pos] := c;
    assert dst[..pos] == before;
  }

  /** After the loop: the pending bits, filled up with zeros. */
  method FlushPending(dst: array<char>, pos: nat, acc: u32, accLen: nat, ghost src: seq<byte>) returns (pos': nat)
    requires accLen == PendingBits(|src|) && LowBits(acc, accLen) == Pending(src)
    requires pos + |Sextets(src)| - |Emitted(src)| <= dst.Length
    modifies dst
    ensures pos' == pos + |Sextets(src)| - |Emitted(src)| >= pos && |Sextets(src)| >= |Emitted(src)|
    ensures dst[..pos'] == old(dst[..pos]) + Chars(Sextets(src)[|Emitted(src)|..])
    ensures Sextets(src) == Emitted(src) + Sextets(src)[|Emitted(src)|..]
    ensures forall j :: pos' <= j < dst.Length ==> dst[j] == old(dst[j])
  {
    hide Emitted, LowBits, Pending, Sextets, B64Len, ByteToChar;
    EmitTail(src);
    pos' := pos;
    if accLen > 0 {
      LastSextet(acc, |src| % 3, Pending(src));
      var last := U32(Times(acc, Pow2(6 - accLen))) % 64;
      ByteToCharText(last);
      PutChar(dst, pos, ByteToChar(last) as char);
      pos' := pos + 1;
    }
  }

  /** `to_base64`: refuse a buffer that cannot hold the text and its terminator, else write both. */
  method ToBase64(dst: array<char>, at: nat, dstLen: nat, src: seq<byte>) returns (olen: int)
    requires at + dstLen <= dst.Length
    modifies dst
    ensures olen == if dstLen <= B64Len(|src|) then -1 else B64Len(|src|)
    ensures olen == -1 ==> dst[..] == old(dst[..])
    ensures olen != -1 ==>
      && dst[..at + olen + 1] == old(dst[..at]) + Chars(Sextets(src)) + [0 as char]
      && forall j :: at + olen < j < dst.Length ==> dst[j] == old(dst[j])
  {
    hide Emitted, LowBits, Pending, PendingBits, Sextets, B64Len, Chars;
    olen := OutputLength(|src|);
    if dstLen <= olen {
      return -1;
    }
    var pos, acc, accLen := EncodeBytes(dst, at, src);
    EmittedLength(src, |src|);
    assert src[..|src|] == src;
    pos := FlushPending(dst, pos, acc, accLen, src);
    CharsSplit(Sextets(src), |Emitted(src)|);
    assert Sextets(src)[..|Emitted(src)|] == Emitted(src);
    PutChar(dst, pos, 0 as char);
  }

  lemma CharsSplit(s: seq<nat>, n: nat)
    requires n <= |s| && forall i :: 0 <= i < |s| ==> s[i] < 64
    ensures Chars(s) == Chars(s[..n]) + Chars(s[n..])
  {
  }

  /** The switch at the head of `to_base64`, and `b64len`. */
  method OutputLength(n: nat) returns (olen: nat)
    ensures olen == B64Len(n)
  {
    olen := n / 3 * 4;
    if n % 3 == 2 {
      olen := olen + 1;
    }
    if n % 3 == 2 || n % 3 == 1 {
      olen := olen + 2;
    }
  }

  lemma EmittedNothing()
    ensures Emitted([]) == [] && Pending([]) == 0 && LowBits(0, 0) == 0
  {
  }

  /** The pending bits, moved to the top of a sextet. */
  lemma LastSextet(acc: u32, r: nat, p: nat)
    requires 1 <= r <= 2 && p == LowBits(acc, 2 * r)
    ensures U32(Times(acc, Pow2(6 - 2 * r))) % 64 == if r == 1 then p * 16 else p * 4
  {
    hide LowBits, U32, Times, Pow2;
    if r == 1 {
      TopOfPair(acc);
    } else {
      TopOfQuad(acc);
    }
  }

  lemma TopOfPair(acc: u32)
    ensures U32(Times(acc, Pow2(4))) % 64 == LowBits(acc, 2) * 16
  {
    LowPair(acc);
    TimesIsProduct(acc, 16);
    assert Pow2(4) == 16;
    hide LowBits, U32, Times, Pow2;
    TopOfSextet(16 * acc);
    Split64(16 * acc, acc / 4, 16 * (acc % 4));
  }

  lemma TopOfQuad(acc: u32)
    ensures U32(Times(acc, Pow2(2))) % 64 == LowBits(acc, 4) * 4
  {
    LowQuad(acc);
    TimesIsProduct(acc, 4);
    assert Pow2(2) == 4;
    hide LowBits, U32, Times, Pow2;
    TopOfSextet(4 * acc);
    Split64(4 * acc, acc / 16, 4 * (acc % 16));
  }

  lemma TopOfSextet(x: nat)
    ensures U32(x) % 64 == x % 64
  {
    var k, w := x / 0x1_0000_0000, x % 0x1_0000_0000;
    Split64(x, 0x400_0000 * k + w / 64, w % 64);
  }

  // ---- from_base64 ----

  /** Pending bits after `n` sextets: 0, 6, 4 or 2. */
  function LeftBits(n: nat): nat { if n % 4 == 0 then 0 else 8 - n % 4 * 2 }

  /** Their value. */
  function Left(s: seq<nat>): (p: nat)
    requires forall i :: 0 <= i < |s| ==> s[i] < 64
  {
    if |s| % 4 == 0 then 0 else if |s| % 4 == 1 then s[|s| - 1]
    else if |s| % 4 == 2 then s[|s| - 1] % 16 else s[|s| - 1] % 4
  }

  /** The byte completed by one more sextet, after pending bits `p`. */
  function Gained(r: nat, p: nat, d: nat): seq<nat> {
    if r == 0 then [] else if r == 1 then [p * 4 + d / 16] else if r == 2 then [p * 16 + d / 4] else [p * 64 + d]
  }

  lemma LeftShift(s: seq<nat>)
    requires |s| >= 4 && forall i :: 0 <= i < |s| ==> s[i] < 64
    ensures |s| > 4 ==> Left(s) == Left(s[4..])
    ensures |s| == 4 ==> Left(s) == 0 == Left(s[4..])
    ensures |s| % 4 == |s[4..]| % 4
  {
  }

  lemma {:induction false} GainByte(s: seq<nat>, d: nat)
    requires d < 64 && forall i :: 0 <= i < |s| ==> s[i] < 64
    ensures CompleteBytes(s + [d]) == CompleteBytes(s) + Gained(|s| % 4, Left(s), d)
  {
    if |s| >= 4 {
      hide Three, Gained, Left, CompleteBytes;
      GainByte(s[4..], d);
      LeftShift(s);
      assert s == s[..4] + s[4..] && s + [d] == s[..4] + (s[4..] + [d]);
      CompleteGroup(s[..4], s[4..]);
      CompleteGroup(s[..4], s[4..] + [d]);
    } else {
      GainShort(s, d);
    }
  }

  lemma GainShort(s: seq<nat>, d: nat)
    requires |s| < 4 && d < 64 && forall i :: 0 <= i < |s| ==> s[i] < 64
    ensures CompleteBytes(s + [d]) == CompleteBytes(s) + Gained(|s| % 4, Left(s), d)
  {
    hide CompleteBytes, Gained, Left;
    BelowFour(|s|);
    if |s| == 0 {
      GainFirst(s, d);
    } else if |s| == 1 {
      GainSecond(s, d);
    } else if |s| == 2 {
      GainThird(s, d);
    } else {
      GainFourth(s, d);
    }
  }

  lemma BelowFour(n: nat)
    ensures n < 4 ==> n % 4 == n
  {
  }

  lemma GainFirst(s: seq<nat>, d: nat)
    requires s == [] && d < 64
    ensures CompleteBytes(s + [d]) == CompleteBytes(s) + Gained(0, Left(s), d)
  {
    hide CompleteBytes, Left;
    NoBytes(s);
    NoBytes(s + [d]);
  }

  lemma GainSecond(s: seq<nat>, d: nat)
    requires |s| == 1 && d < 64 && s[0] < 64
    ensures CompleteBytes(s + [d]) == CompleteBytes(s) + Gained(1, Left(s), d)
  {
    hide CompleteBytes, Left, Gained;
    NoBytes(s);
    TwoSextets(s[0], d);
    assert s == [s[0]] && s + [d] == [s[0], d];
  }

  lemma TwoSextets(x: nat, y: nat)
    requires x < 64 && y < 64
    ensures CompleteBytes([x, y]) == Gained(1, Left([x]), y)
  {
  }

  lemma GainThird(s: seq<nat>, d: nat)
    requires |s| == 2 && d < 64 && s[0] < 64 && s[1] < 64
    ensures CompleteBytes(s + [d]) == CompleteBytes(s) + Gained(2, Left(s), d)
  {
    hide CompleteBytes, Left, Gained;
    ThreeSextets(s[0], s[1], d);
    assert s == [s[0], s[1]] && s + [d] == [s[0], s[1], d];
  }

  lemma ThreeSextets(x: nat, y: nat, z: nat)
    requires x < 64 && y < 64 && z < 64
    ensures CompleteBytes([x, y, z]) == CompleteBytes([x, y]) + Gained(2, Left([x, y]), z)
  {
    hide CompleteBytes, Left, Gained;
    PairBytes(x, y);
    TripleBytes(x, y, z);
    LeftPair(x, y);
    GainedTwo(y % 16, z);
  }

  lemma PairBytes(x: nat, y: nat)
    requires x < 64 && y < 64
    ensures CompleteBytes([x, y]) == [x * 4 + y / 16]
  {
  }

  lemma TripleBytes(x: nat, y: nat, z: nat)
    requires x < 64 && y < 64 && z < 64
    ensures CompleteBytes([x, y, z]) == [x * 4 + y / 16, y % 16 * 16 + z / 4]
  {
  }

  lemma LeftPair(x: nat, y: nat)
    requires x < 64 && y < 64
    ensures Left([x, y]) == y % 16
  {
  }

  lemma GainFourth(s: seq<nat>, d: nat)
    requires |s| == 3 && d < 64 && s[0] < 64 && s[1] < 64 && s[2] < 64
    ensures CompleteBytes(s + [d]) == CompleteBytes(s) + Gained(3, Left(s), d)
  {
    hide CompleteBytes, Left, Gained;
    FourSextets(s[0], s[1], s[2], d);
    assert s == [s[0], s[1], s[2]] && s + [d] == [s[0], s[1], s[2], d];
  }

  lemma FourSextets(x: nat, y: nat, z: nat, w: nat)
    requires x < 64 && y < 64 && z < 64 && w < 64
    ensures CompleteBytes([x, y, z, w]) == CompleteBytes([x, y, z]) + Gained(3, Left([x, y, z]), w)
  {
    assert [x, y, z, w][..4] == [x, y, z, w] && [x, y, z, w][4..] == [];
  }

  lemma NoBytes(s: seq<nat>)
    requires |s| <= 1 && forall i :: 0 <= i < |s| ==> s[i] < 64
    ensures CompleteBytes(s) == []
  {
  }

  /** acc + one more sextet, in 32 bits. */
  lemma SextetAccumulated(acc: u32, r: nat, p: nat, d: nat)
    requires r < 4 && d < 64 && p == LowBits(acc, LeftBits(r))
    ensures r != 0 ==> Gained(r, p, d) == [Shr(U32(acc * 64 + d), LeftBits(r) - 2) % 256]
    ensures LowBits(U32(acc * 64 + d), LeftBits(r + 1))
         == if r == 0 then d else if r == 1 then d % 16 else if r == 2 then d % 4 else 0
  {
    hide LowBits, Shr, U32, Gained;
    if r == 0 {
      AfterNone(acc, d);
    } else if r == 1 {
      AfterOne(acc, p, d);
    } else if r == 2 {
      AfterTwo(acc, p, d);
    } else {
      AfterThree(acc, p, d);
    }
  }

  lemma AfterNone(acc: u32, d: nat)
    requires d < 64
    ensures LowBits(U32(acc * 64 + d), 6) == d
  {
    hide LowBits, U32;
    LowSextet(U32(acc * 64 + d));
    WrapSextet(acc, d);
    SextetShiftZero(acc % 0x400_0000, d);
  }

  lemma AfterOne(acc: u32, p: nat, d: nat)
    requires d < 64 && p == LowBits(acc, 6)
    ensures Gained(1, p, d) == [Shr(U32(acc * 64 + d), 4) % 256] && LowBits(U32(acc * 64 + d), 4) == d % 16
  {
    hide LowBits, Shr, U32, Gained;
    LowSextet(acc);
    LowQuad(U32(acc * 64 + d));
    WrapSextet(acc, d);
    KeepsLow64(acc);
    SextetShiftFour(acc % 0x400_0000, d);
    GainedOne(p, d);
  }

  lemma AfterTwo(acc: u32, p: nat, d: nat)
    requires d < 64 && p == LowBits(acc, 4)
    ensures Gained(2, p, d) == [Shr(U32(acc * 64 + d), 2) % 256] && LowBits(U32(acc * 64 + d), 2) == d % 4
  {
    hide LowBits, Shr, U32, Gained;
    LowQuad(acc);
    LowPair(U32(acc * 64 + d));
    WrapSextet(acc, d);
    KeepsLow16(acc);
    SextetShiftTwo(acc % 0x400_0000, d);
    GainedTwo(p, d);
  }

  lemma AfterThree(acc: u32, p: nat, d: nat)
    requires d < 64 && p == LowBits(acc, 2)
    ensures Gained(3, p, d) == [Shr(U32(acc * 64 + d), 0) % 256] && LowBits(U32(acc * 64 + d), 0) == 0
  {
    LowNone(U32(acc * 64 + d));
    hide LowBits, Shr, U32, Gained;
    LowPair(acc);
    WrapSextet(acc, d);
    KeepsLow4(acc);
    SextetShiftZero(acc % 0x400_0000, d);
    GainedThree(p, d);
  }

  lemma GainedNone(p: nat, d: nat)
    ensures Gained(0, p, d) == []
  {
  }

  lemma GainedOne(p: nat, d: nat)
    ensures Gained(1, p, d) == [p * 4 + d / 16]
  {
  }

  lemma GainedTwo(p: nat, d: nat)
    ensures Gained(2, p, d) == [p * 16 + d / 4]
  {
  }

  lemma GainedThree(p: nat, d: nat)
    ensures Gained(3, p, d) == [p * 64 + d]
  {
  }

  lemma LowNone(x: nat)
    ensures Shr(x, 0) == x && LowBits(x, 0) == 0
  {
  }

  lemma KeepsLow4(acc: u32)
    ensures acc % 0x400_0000 % 4 == acc % 4
  {
    var k, a := acc / 0x400_0000, acc % 0x400_0000;
    Split4(acc, 0x100_0000 * k + a / 4, a % 4);
  }

  lemma KeepsLow16(acc: u32)
    ensures acc % 0x400_0000 % 16 == acc % 16
  {
    var k, a := acc / 0x400_0000, acc % 0x400_0000;
    Split16(acc, 0x40_0000 * k + a / 16, a % 16);
  }

  lemma KeepsLow64(acc: u32)
    ensures acc % 0x400_0000 % 64 == acc % 64
  {
    var k, a := acc / 0x400_0000, acc % 0x400_0000;
    Split64(acc, 0x10_0000 * k + a / 64, a % 64);
  }

  lemma WrapSextet(acc: u32, d: nat)
    requires d < 64
    ensures U32(acc * 64 + d) == 64 * (acc % 0x400_0000) + d
  {
  }

  lemma SextetShiftZero(a: nat, d: nat)
    requires d < 64
    ensures (64 * a + d) % 64 == d && (64 * a + d) % 256 == a % 4 * 64 + d
  {
    Split64(64 * a + d, a, d);
    Split256(64 * a + d, a / 4, 64 * (a % 4) + d);
  }

  lemma SextetShiftTwo(a: nat, d: nat)
    requires d < 64
    ensures (64 * a + d) % 4 == d % 4
    ensures (64 * a + d) / 4 % 256 == a % 16 * 16 + d / 4
  {
    Split4(64 * a + d, 16 * a + d / 4, d % 4);
    Split256(16 * a + d / 4, a / 16, 16 * (a % 16) + d / 4);
  }

  lemma SextetShiftFour(a: nat, d: nat)
    requires d < 64
    ensures (64 * a + d) % 16 == d % 16
    ensures (64 * a + d) / 16 % 256 == a % 64 * 4 + d / 16
  {
    Split16(64 * a + d, 4 * a + d / 16, d % 16);
    Split256(4 * a + d / 16, a / 64, 4 * (a % 64) + d / 16);
  }

  /** A C string, without its terminator: any bytes but zero. */
  predicate CString(s: string) { forall i :: 0 <= i < |s| ==> 0 < s[i] as int < 256 }

  predicate Ascii(s: string) { forall i :: 0 <= i < |s| ==> 0 < s[i] as int < 128 }

  /** Reading a C string, terminator included; `char` is signed. */
  function CharAt(src: string, pos: nat): int
    requires pos <= |src| && CString(src)
  {
    if pos == |src| then 0 else SignedChar(src[pos] as nat)
  }

  /** How the parser takes a string: bytes above 127 count as '/'. */
  function AsRead(s: string): (t: string)
    ensures |t| == |s| && Ascii(t)
    ensures t == s <==> Ascii(s)
  {
    var t := seq(|s|, i requires 0 <= i < |s| => if 0 < s[i] as int < 128 then s[i] else '/');
    assert Ascii(s) ==> t == s;
    t
  }

  /** The ASCII code at a place of a string as it is read. */
  function CodeAt(t: string, pos: nat): (c: nat)
    requires pos <= |t| && Ascii(t)
    ensures c < 128
  {
    if pos == |t| then 0 else t[pos] as nat
  }

  lemma CharCode(src: string, pos: nat)
    requires pos <= |src| && CString(src)
    ensures CharAt(src, pos) >= 0 ==> CharAt(src, pos) == CodeAt(AsRead(src), pos)
    ensures CharAt(src, pos) < 0 ==> CodeAt(AsRead(src), pos) == '/' as nat
    ensures CharToByte(U32(CharAt(src, pos))) == AlphabetValue(CodeAt(AsRead(src), pos))
  {
    hide CharToByte;
    var c := CodeAt(AsRead(src), pos);
    if CharAt(src, pos) < 0 {
      NegativeReadsAsSlash(src[pos] as nat);
    } else {
      CharToByteIsAlphabet(c);
    }
  }

  /** The longest prefix of base64 characters, as sextets. */
  function Run(t: string): (s: seq<nat>)
    ensures |s| <= |t| && forall i :: 0 <= i < |s| ==> s[i] < 64
  {
    if t == "" || AlphabetValue(t[0] as nat) == INVALID then [] else [AlphabetValue(t[0] as nat)] + Run(t[1..])
  }

  lemma RunStep(src: string, pos: nat)
    requires pos <= |src| && Ascii(src)
    ensures AlphabetValue(CodeAt(src, pos)) == INVALID ==> Run(src[pos..]) == []
    ensures AlphabetValue(CodeAt(src, pos)) != INVALID ==>
      pos < |src| && Run(src[pos..]) == [AlphabetValue(CodeAt(src, pos))] + Run(src[pos + 1..])
  {
    if pos < |src| {
      assert src[pos..][1..] == src[pos + 1..];
    }
  }

  /** The run is the text of its sextets. */
  lemma {:induction false} RunIsText(t: string)
    ensures t[..|Run(t)|] == Chars(Run(t))
    ensures |Run(t)| == |t| || AlphabetValue(t[|Run(t)|] as nat) == INVALID
  {
    if t != "" && AlphabetValue(t[0] as nat) != INVALID {
      RunIsText(t[1..]);
      AlphabetInverse();
      hide AlphabetCode, AlphabetValue;
      assert Run(t) == [AlphabetValue(t[0] as nat)] + Run(t[1..]);
      assert t[..|Run(t)|] == [t[0]] + t[1..][..|Run(t[1..])|];
    }
  }

  /** Encoded text is read back up to whatever follows it. */
  lemma {:induction false} RunOfChars(s: seq<nat>, t: string)
    requires forall i :: 0 <= i < |s| ==> s[i] < 64
    ensures Run(Chars(s) + t) == s + Run(t)
  {
    hide Run, AlphabetCode, AlphabetValue;
    if s == [] {
      assert Chars(s) + t == t && s + Run(t) == Run(t);
    } else {
      RunOfChars(s[1..], t);
      RunCons(s[0], Chars(s[1..]) + t);
      assert Chars(s) + t == [AlphabetCode(s[0]) as char] + (Chars(s[1..]) + t);
      assert s + Run(t) == [s[0]] + (s[1..] + Run(t));
    }
  }

  lemma RunCons(v: nat, t: string)
    requires v < 64
    ensures Run([AlphabetCode(v) as char] + t) == [v] + Run(t)
  {
    AlphabetInverse();
    hide AlphabetCode, AlphabetValue;
    assert ([AlphabetCode(v) as char] + t)[1..] == t;
  }

  lemma RunBytesFit(s: seq<nat>, all: seq<nat>, cap: nat)
    requires forall i :: 0 <= i < |s| ==> s[i] < 64
    requires forall i :: 0 <= i < |all| ==> all[i] < 64
    requires |s| <= |all| && |CompleteBytes(s)| > cap
    ensures |CompleteBytes(all)| > cap
  {
  }

  /** The check after the loop. */
  predicate Leftover(acc: u32, accLen: nat) { accLen > 4 || And(acc, Pow2(accLen) - 1) != 0 }

  /** It lets nothing pass but whole bytes and pending zero bits. */
  lemma LeftoverCheck(s: seq<nat>, acc: u32, accLen: nat)
    requires forall i :: 0 <= i < |s| ==> s[i] < 64
    requires accLen == LeftBits(|s|) && LowBits(acc, accLen) == Left(s)
    ensures Leftover(acc, accLen) <==> !Canonical(s)
  {
    hide And, LowBits, Pow2;
    MaskIsLowBits(acc, accLen);
  }

  lemma LeftBitsPeriod(n: nat)
    ensures LeftBits(n) == LeftBits(n % 4) && LeftBits(n + 1) == LeftBits(n % 4 + 1)
    ensures n % 4 == 0 ==> LeftBits(n) == 0 && LeftBits(n + 1) == 6
    ensures n % 4 != 0 ==> LeftBits(n) + 6 == LeftBits(n + 1) + 8
  {
  }

  lemma LeftNext(s: seq<nat>, d: nat)
    requires d < 64 && forall i :: 0 <= i < |s| ==> s[i] < 64
    ensures Left(s + [d])
         == if |s| % 4 == 0 then d else if |s| % 4 == 1 then d % 16 else if |s| % 4 == 2 then d % 4 else 0
  {
  }

  lemma SextetStep(s: seq<nat>, acc: u32, d: nat)
    requires d < 64 && forall i :: 0 <= i < |s| ==> s[i] < 64
    requires LowBits(acc, LeftBits(|s|)) == Left(s)
    ensures LowBits(U32(acc * 64 + d), LeftBits(|s| + 1)) == Left(s + [d])
    ensures LeftBits(|s|) + 6 < 8 ==>
      CompleteBytes(s + [d]) == CompleteBytes(s) && LeftBits(|s|) + 6 == LeftBits(|s| + 1)
    ensures LeftBits(|s|) + 6 >= 8 ==>
      && LeftBits(|s|) + 6 == LeftBits(|s| + 1) + 8
      && CompleteBytes(s + [d]) == CompleteBytes(s) + [Shr(U32(acc * 64 + d), LeftBits(|s| + 1)) % 256]
  {
    hide LowBits, Shr, CompleteBytes, U32, Left, LeftBits, Gained;
    LeftBitsPeriod(|s|);
    LeftNext(s, d);
    SextetAccumulated(acc, |s| % 4, Left(s), d);
    GainByte(s, d);
    GainedNone(Left(s), d);
    assert CompleteBytes(s) + [] == CompleteBytes(s);
  }

  method PutByte(dst: array<byte>, len: nat, x: byte)
    requires len < dst.Length
    modifies dst
    ensures dst[..len + 1] == old(dst[..len]) + [x]
    ensures forall j :: len < j < dst.Length ==> dst[j] == old(dst[j])
  {
    ghost var before := dst[..len];
    dst[len] := x;
    assert dst[..len] == before;
  }

  /** One more sextet: the loop body after the character has been read. */
  method DecodeSextet(dst: array<byte>, cap: nat, len: nat, acc: u32, accLen: nat, d: nat, ghost s: seq<nat>)
    returns (fits: bool, len': nat, acc': u32, accLen': nat)
    requires d < 64 && forall i :: 0 <= i < |s| ==> s[i] < 64
    requires len == |CompleteBytes(s)| <= cap <= dst.Length && dst[..len] == CompleteBytes(s)
    requires accLen == LeftBits(|s|) && LowBits(acc, accLen) == Left(s)
    modifies dst
    ensures fits <==> |CompleteBytes(s + [d])| <= cap
    ensures fits ==> len' == |CompleteBytes(s + [d])| && dst[..len'] == CompleteBytes(s + [d])
    ensures fits ==> accLen' == LeftBits(|s| + 1) && LowBits(acc', accLen') == Left(s + [d])
    ensures forall j :: |CompleteBytes(s + [d])| <= j < dst.Length ==> dst[j] == old(dst[j])
    ensures forall j :: cap <= j < dst.Length ==> dst[j] == old(dst[j])
  {
    hide LowBits, Shr, CompleteBytes, U32, Left, LeftBits;
    SextetStep(s, acc, d);
    acc', accLen', len' := U32(acc * 64 + d), accLen + 6, len;
    if accLen' >= 8 {
      accLen' := accLen' - 8;
      if len >= cap {
        return false, len, acc', accLen';
      }
      PutByte(dst, len, Shr(acc', accLen') % 256);
      len' := len + 1;
    }
    fits := true;
  }

  /** `s` are the sextets read between `pos` and `p`. */
  predicate SextetsRead(t: string, pos: nat, p: nat, s: seq<nat>) {
    && pos <= p <= |t| && p == pos + |s| && (forall i :: 0 <= i < |s| ==> s[i] < 64)
    && s + Run(t[p..]) == Run(t[pos..])
  }

  lemma NextSextet(src: string, pos: nat, p: nat, s: seq<nat>)
    requires CString(src) && SextetsRead(AsRead(src), pos, p, s)
    ensures var d := CharToByte(U32(CharAt(src, p)));
      && (d == 0xFF ==> s == Run(AsRead(src)[pos..]))
      && (d != 0xFF ==>
            p < |src| && d < 64 && SextetsRead(AsRead(src), pos, p + 1, s + [d]) && |s| < |Run(AsRead(src)[pos..])|)
  {
    hide CharToByte, Run, AlphabetValue, Ascii;
    var t := AsRead(src);
    CharCode(src, p);
    RunStep(t, p);
    var d := AlphabetValue(CodeAt(t, p));
    if d != INVALID {
      assert s + ([d] + Run(t[p + 1..])) == s + [d] + Run(t[p + 1..]);
    }
  }

  /** `from_base64`: it succeeds exactly on canonical text whose bytes fit, stops at the first character
      outside the alphabet, and has then written those bytes; bytes above 127 are taken for '/'. */
  method FromBase64(dst: array<byte>, cap: nat, src: string, pos: nat) returns (end: Option<nat>, len: nat)
    requires cap <= dst.Length && pos <= |src| && CString(src)
    modifies dst
    ensures end.Some? <==> Canonical(Run(AsRead(src)[pos..])) && |CompleteBytes(Run(AsRead(src)[pos..]))| <= cap
    ensures end.Some? ==> end.value == pos + |Run(AsRead(src)[pos..])|
    ensures end.Some? ==> len <= cap && dst[..len] == CompleteBytes(Run(AsRead(src)[pos..]))
    ensures end.Some? ==> forall j :: len <= j < dst.Length ==> dst[j] == old(dst[j])
    ensures forall j :: cap <= j < dst.Length ==> dst[j] == old(dst[j])
  {
    hide CompleteBytes, Canonical, Left, LeftBits, LowBits, Run, CharToByte, Leftover, U32, CharAt, AsRead, CString,
      Ascii, SextetsRead;
    ghost var t := AsRead(src);
    ghost var s: seq<nat> := [];
    len := 0;
    var acc: u32, accLen, p := 0, 0, pos;
    NothingLeft();
    NothingRead(t, pos);
    while true
      invariant p <= |src| && SextetsRead(t, pos, p, s)
      invariant forall i :: 0 <= i < |s| ==> s[i] < 64
      invariant p == pos + |s| && |s| <= |Run(t[pos..])|
      invariant len == |CompleteBytes(s)| <= cap && dst[..len] == CompleteBytes(s)
      invariant accLen == LeftBits(|s|) && LowBits(acc, accLen) == Left(s)
      invariant forall j :: len <= j < dst.Length ==> dst[j] == old(dst[j])
      decreases |src| - p
    {
      var d := CharToByte(U32(CharAt(src, p)));
      NextSextet(src, pos, p, s);
      if d == 0xFF {
        break;
      }
      p := p + 1;
      var fits;
      fits, len, acc, accLen := DecodeSextet(dst, cap, len, acc, accLen, d, s);
      s := s + [d];
      if !fits {
        RunBytesFit(s, Run(t[pos..]), cap);
        return None, 0;
      }
    }
    LeftoverCheck(s, acc, accLen);
    if Leftover(acc, accLen) {
      return None, 0;
    }
    end := Some(p);
  }

  lemma NothingRead(t: string, pos: nat)
    requires pos <= |t|
    ensures SextetsRead(t, pos, pos, [])
  {
    hide Run;
    assert [] + Run(t[pos..]) == Run(t[pos..]);
  }

  lemma NothingLeft()
    ensures CompleteBytes([]) == [] && LeftBits(0) == 0 && Left([]) == 0 && LowBits(0, 0) == 0
  {
  }

  /** Decoding is injective on the text it consumes. */
  lemma DecodingInjective(a: string, b: string)
    requires Canonical(Run(a)) && Canonical(Run(b)) && CompleteBytes(Run(a)) == CompleteBytes(Run(b))
    ensures |Run(a)| == |Run(b)| && a[..|Run(a)|] == b[..|Run(b)|]
  {
    hide Canonical, CompleteBytes, Run, Sextets;
    EncodeDecoded(Run(a));
    EncodeDecoded(Run(b));
    RunIsText(a);
    RunIsText(b);
  }

  /** What `to_base64` writes for `bytes` before any text that cannot continue it is accepted by
      `from_base64` wherever the bytes fit, and gives them back. */
  lemma Base64RoundTrip(bytes: seq<byte>, t: string)
    requires Run(t) == []
    ensures var s := Run(Chars(Sextets(bytes)) + t);
      Canonical(s) && CompleteBytes(s) == bytes && |s| == B64Len(|bytes|)
  {
    hide Canonical, CompleteBytes, Run, Sextets, Chars;
    RunOfChars(Sextets(bytes), t);
    DecodeEncoded(bytes);
    assert Sextets(bytes) + [] == Sextets(bytes);
  }
}
