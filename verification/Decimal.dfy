/** Decimal numbers of encoding.c: `sprintf("%lu")`, `decode_decimal` and `numlen`. */
module Decimal {
  import opened Words
  import opened Base64
  import opened Base64Codec

  const ULONG_MAX: nat := 0xFFFF_FFFF_FFFF_FFFF

  predicate IsDigit(c: char) { '0' <= c <= '9' }

  function DigitChar(d: nat): (c: char)
    requires d < 10
    ensures IsDigit(c)
  {
    (48 + d) as char
  }

  function DigitValue(c: char): (d: nat)
    requires IsDigit(c)
    ensures d < 10
  {
    c as nat - 48
  }

  /** The decimal notation of x, most significant digit first. */
  function Dec(x: nat): (t: string)
    ensures t != ""
  {
    if x < 10 then [DigitChar(x)] else Dec(x / 10) + [DigitChar(x % 10)]
  }

  predicate AllDigits(t: string) { forall i :: 0 <= i < |t| ==> IsDigit(t[i]) }

  /** The number a string of digits stands for. */
  function ValueOf(t: string): nat
    requires AllDigits(t)
  {
    if t == "" then 0 else ValueOf(t[..|t| - 1]) * 10 + DigitValue(t[|t| - 1])
  }

  /** At least one digit, and no leading zero. */
  predicate Minimal(t: string) { t != "" && (t[0] == '0' ==> |t| == 1) }

  lemma Appended(t: string, c: char)
    requires AllDigits(t) && IsDigit(c)
    ensures AllDigits(t + [c]) && ValueOf(t + [c]) == ValueOf(t) * 10 + DigitValue(c)
  {
    assert (t + [c])[..|t|] == t;
  }

  /** Printing gives minimal notation, which stands for the number. */
  lemma {:induction false} DecIsMinimal(x: nat)
    ensures AllDigits(Dec(x)) && Minimal(Dec(x)) && ValueOf(Dec(x)) == x
    ensures x > 0 ==> Dec(x)[0] != '0'
  {
    if x >= 10 {
      DecIsMinimal(x / 10);
      Appended(Dec(x / 10), DigitChar(x % 10));
    } else {
      assert Dec(x)[..0] == "";
    }
  }

  /** Minimal notation is what printing gives. */
  lemma {:induction false} MinimalIsDec(t: string)
    requires AllDigits(t) && Minimal(t)
    ensures Dec(ValueOf(t)) == t
    ensures t[0] != '0' ==> ValueOf(t) > 0
  {
    var init, last := t[..|t| - 1], t[|t| - 1];
    assert t == init + [last];
    if init == "" {
      assert t == [last] && DigitChar(DigitValue(last)) == last;
    } else {
      MinimalIsDec(init);
      var v := ValueOf(init) * 10 + DigitValue(last);
      assert v / 10 == ValueOf(init) && v % 10 == DigitValue(last);
    }
  }

  /** More digits never make the number smaller. */
  lemma {:induction false} PrefixValue(a: string, b: string)
    requires AllDigits(a) && AllDigits(a + b)
    ensures ValueOf(a) <= ValueOf(a + b)
  {
    if b == "" {
      assert a + b == a;
    } else {
      assert (a + b)[..|a + b| - 1] == a + b[..|b| - 1];
      PrefixValue(a, b[..|b| - 1]);
    }
  }

  /** The longest prefix of digits. */
  function DigitRun(t: string): (d: string)
    ensures |d| <= |t| && d == t[..|d|] && AllDigits(d)
    ensures |d| < |t| ==> !IsDigit(t[|d|])
  {
    if t == "" || !IsDigit(t[0]) then "" else [t[0]] + DigitRun(t[1..])
  }

  lemma DigitRunStep(src: string, pos: nat)
    requires pos < |src| && IsDigit(src[pos])
    ensures DigitRun(src[pos..]) == [src[pos]] + DigitRun(src[pos + 1..])
  {
    assert src[pos..][1..] == src[pos + 1..];
  }

  /** A number is read back up to whatever follows it. */
  lemma {:induction false} RunOfDigits(d: string, t: string)
    requires AllDigits(d) && DigitRun(t) == ""
    ensures DigitRun(d + t) == d
  {
    if d == "" {
      assert d + t == t;
    } else {
      RunOfDigits(d[1..], t);
      assert (d + t)[1..] == d[1..] + t;
    }
  }

  /** One more digit, with the two overflow checks of the source. */
  method AppendDigit(acc: u64, c: nat) returns (fits: bool, acc': u64)
    requires c < 10
    ensures fits <==> acc * 10 + c <= ULONG_MAX
    ensures fits ==> acc' == acc * 10 + c
  {
    if acc > 0x1999_9999_9999_9999 {
      return false, acc;
    }
    acc' := acc * 10;
    if c > 0xFFFF_FFFF_FFFF_FFFF - acc' {
      return false, acc;
    }
    return true, acc' + c;
  }

  lemma DigitCode(src: string, p: nat)
    requires p <= |src| && CString(src)
    ensures 48 <= CharAt(src, p) <= 57 <==> 48 <= CodeAt(AsRead(src), p) <= 57
    ensures 48 <= CharAt(src, p) <= 57 ==> CharAt(src, p) == CodeAt(AsRead(src), p)
    ensures CharAt(src, p) == 48 <==> CodeAt(AsRead(src), p) == 48
  {
    hide CharToByte, AlphabetValue;
    CharCode(src, p);
  }

  /** `acc` is the number read between `pos` and `p`, and only digits have been passed. */
  predicate Reading(src: string, pos: nat, p: nat, acc: nat) {
    && pos <= p <= |src| && AllDigits(src[pos..p])
    && DigitRun(src[pos..]) == src[pos..p] + DigitRun(src[p..])
    && acc == ValueOf(src[pos..p])
  }

  lemma ReadingStarts(src: string, pos: nat)
    requires pos <= |src|
    ensures Reading(src, pos, pos, 0)
  {
    assert src[pos..pos] == "";
  }

  lemma ReadingStep(src: string, pos: nat, p: nat, acc: nat)
    requires Reading(src, pos, p, acc) && Ascii(src) && 48 <= CodeAt(src, p) <= 57
    ensures p < |src| && Reading(src, pos, p + 1, acc * 10 + (CodeAt(src, p) - 48))
    ensures acc * 10 + (CodeAt(src, p) - 48) <= ValueOf(DigitRun(src[pos..]))
  {
    hide ValueOf, DigitRun, AllDigits;
    DigitRunStep(src, p);
    assert src[pos..p + 1] == src[pos..p] + [src[p]];
    Appended(src[pos..p], src[p]);
    MoreOfRun(DigitRun(src[pos..]), src[pos..p], src[p], DigitRun(src[p + 1..]));
    PrefixValue(src[pos..p + 1], DigitRun(src[p + 1..]));
  }

  lemma MoreOfRun(d: string, a: string, c: char, b: string)
    requires d == a + ([c] + b)
    ensures d == a + [c] + b
  {
  }

  lemma ReadingEnds(src: string, pos: nat, p: nat, acc: nat)
    requires Reading(src, pos, p, acc) && Ascii(src) && !(48 <= CodeAt(src, p) <= 57)
    ensures var d := DigitRun(src[pos..]);
      && |d| == p - pos && ValueOf(d) == acc
      && (Minimal(d) <==> !(p == pos || (CodeAt(src, pos) == 48 && p != pos + 1)))
  {
    assert DigitRun(src[p..]) == "";
    hide DigitRun, ValueOf;
    assert DigitRun(src[pos..]) == src[pos..p];
    MinimalPrefix(src[pos..p], src, pos);
  }

  /** `decode_decimal`: it accepts exactly the minimal notation of a number that fits in 64 bits. */
  method DecodeDecimal(src: string, pos: nat) returns (end: Option<nat>, v: u64)
    requires pos <= |src| && CString(src)
    ensures var d := DigitRun(AsRead(src)[pos..]);
      && (end.Some? <==> Minimal(d) && ValueOf(d) <= ULONG_MAX)
      && (end.Some? ==> end.value == pos + |d| && v == ValueOf(d))
  {
    hide DigitRun, Minimal, ValueOf, CharAt, CodeAt, AsRead, CString, Ascii, Reading;
    ghost var t := AsRead(src);
    var acc: u64, p := 0, pos;
    v := 0;
    ReadingStarts(t, pos);
    while 48 <= CharAt(src, p) <= 57
      invariant pos <= p <= |src| && Reading(t, pos, p, acc)
      decreases |src| - p
    {
      DigitCode(src, p);
      ReadingStep(t, pos, p, acc);
      var fits;
      fits, acc := AppendDigit(acc, CharAt(src, p) - 48);
      if !fits {
        return None, 0;
      }
      p := p + 1;
    }
    DigitCode(src, p);
    DigitCode(src, pos);
    ReadingEnds(t, pos, p, acc);
    if p == pos || (CharAt(src, pos) == 48 && p != pos + 1) {
      return None, 0;
    }
    return Some(p), acc;
  }

  lemma MinimalPrefix(d: string, src: string, pos: nat)
    requires pos + |d| <= |src| && Ascii(src) && d == src[pos..pos + |d|]
    ensures Minimal(d) <==> !(|d| == 0 || (CodeAt(src, pos) == 48 && |d| != 1))
  {
    if d != "" {
      assert d[0] == src[pos];
    }
  }

  /** `numlen`: the length of the notation. */
  method NumLen(num: u32) returns (len: nat)
    ensures len == |Dec(num)|
  {
    len := 1;
    var n := num;
    while n >= 10
      invariant len + |Dec(n)| == |Dec(num)| + 1
    {
      len := len + 1;
      n := n / 10;
    }
  }

  lemma {:induction false} DecLonger(x: nat, y: nat)
    requires x <= y
    ensures |Dec(x)| <= |Dec(y)|
  {
    if x >= 10 {
      DecLonger(x / 10, y / 10);
    }
  }
}
