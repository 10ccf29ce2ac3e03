/** Fixed-width unsigned words as bounded integers, with C's wrap-around written out. */
module Words {

  type byte = x: int | 0 <= x < 256
  type u32 = x: int | 0 <= x < 0x1_0000_0000
  type u64 = x: int | 0 <= x < 0x1_0000_0000_0000_0000

  datatype Option<+T> = None | Some(value: T)

  /** Conversion to uint32_t: the value modulo 2^32, negative operands included. */
  function U32(x: int): u32 { x % 0x1_0000_0000 }

  /** Conversion to uint64_t. */
  function U64(x: int): u64 { x % 0x1_0000_0000_0000_0000 }

  // ---- bitwise operators on natural numbers, bit by bit ----

  function And(a: nat, b: nat): (r: nat)
    ensures r <= a && r <= b
  {
    if a == 0 || b == 0 then 0
    else (if a % 2 == 1 && b % 2 == 1 then 1 else 0) + 2 * And(a / 2, b / 2)
  }

  function Or(a: nat, b: nat): nat
    decreases a + b
  {
    if a == 0 && b == 0 then 0
    else (if a % 2 == 1 || b % 2 == 1 then 1 else 0) + 2 * Or(a / 2, b / 2)
  }

  function Xor(a: nat, b: nat): nat
    decreases a + b
  {
    if a == 0 && b == 0 then 0 else (a + b) % 2 + 2 * Xor(a / 2, b / 2)
  }

  function Pow2(n: nat): (r: nat)
    ensures r > 0
  {
    if n == 0 then 1 else 2 * Pow2(n - 1)
  }

  lemma {:induction false} XorBound(a: nat, b: nat, n: nat)
    requires a < Pow2(n) && b < Pow2(n)
    ensures Xor(a, b) < Pow2(n)
  {
    if a != 0 || b != 0 {
      XorBound(a / 2, b / 2, n - 1);
    }
  }

  lemma {:induction false} OrBound(a: nat, b: nat, n: nat)
    requires a < Pow2(n) && b < Pow2(n)
    ensures Or(a, b) < Pow2(n)
  {
    if a != 0 || b != 0 {
      OrBound(a / 2, b / 2, n - 1);
    }
  }

  lemma {:induction false} XorCommutes(a: nat, b: nat)
    ensures Xor(a, b) == Xor(b, a)
    decreases a + b
  {
    if a != 0 || b != 0 {
      XorCommutes(a / 2, b / 2);
    }
  }

  lemma {:induction false} XorZero(a: nat, b: nat)
    ensures Xor(a, b) == 0 <==> a == b
    decreases a + b
  {
    if a != 0 || b != 0 {
      XorZero(a / 2, b / 2);
      SameHalves(a, b);
    }
  }

  lemma SameHalves(a: nat, b: nat)
    ensures a == b <==> (a / 2 == b / 2 && (a + b) % 2 == 0)
  {
    if a == b {
      SumParity(a / 2, a % 2, a / 2, a % 2);
    } else if a / 2 == b / 2 {
      SumParity(a / 2, a % 2, b / 2, b % 2);
    }
  }

  lemma SumParity(q: nat, r: nat, p: nat, t: nat)
    requires r < 2 && t < 2
    ensures (2 * q + r + (2 * p + t)) % 2 == if r == t then 0 else 1
  {
    if r == t {
      assert 2 * q + r + (2 * p + t) == 2 * (q + p + r);
    } else {
      assert 2 * q + r + (2 * p + t) == 2 * (q + p) + 1;
    }
  }

  lemma {:induction false} OrZero(a: nat, b: nat)
    ensures Or(a, b) == 0 <==> a == 0 && b == 0
    decreases a + b
  {
    if a != 0 || b != 0 {
      OrZero(a / 2, b / 2);
    }
  }

  lemma {:induction false} OrWithZero(x: nat)
    ensures Or(0, x) == x && Or(x, 0) == x
  {
    if x != 0 {
      OrWithZero(x / 2);
    }
  }

  /** Xoring twice with the same word gives the word back. */
  lemma {:induction false} XorUndo(a: nat, b: nat)
    ensures Xor(Xor(a, b), b) == a
    decreases a + b
  {
    hide Xor;
    XorStep(a, b);
    if a != 0 || b != 0 {
      var half, x := Xor(a / 2, b / 2), Xor(a, b);
      XorUndo(a / 2, b / 2);
      Parity(a, b, half);
      assert x == 2 * half + (a + b) % 2;
      XorStep(x, b);
    }
  }

  lemma XorStep(a: nat, b: nat)
    ensures Xor(a, b) == (a + b) % 2 + 2 * Xor(a / 2, b / 2)
  {
  }

  lemma Parity(a: nat, b: nat, half: nat)
    ensures (2 * half + (a + b) % 2) / 2 == half
    ensures (2 * half + (a + b) % 2 + b) % 2 == a % 2
  {
  }

  lemma PowersOfTwo()
    ensures Pow2(8) == 256 && Pow2(24) == 0x100_0000 && Pow2(32) == 0x1_0000_0000 && Pow2(64) == 0x1_0000_0000_0000_0000
  {
    assert Pow2(8) == 256;
    assert Pow2(16) == 65536;
    assert Pow2(24) == 0x100_0000;
    assert Pow2(32) == 0x1_0000_0000;
    assert Pow2(40) == 0x100_0000_0000;
    assert Pow2(48) == 0x1_0000_0000_0000;
    assert Pow2(56) == 0x100_0000_0000_0000;
  }

  // ---- byte strings and little-endian images ----

  function Zeros(n: nat): (z: seq<byte>)
    ensures |z| == n
  {
    seq(n, i => 0)
  }

  /** The `n` low bytes of `x`, least significant first. */
  function Le(x: nat, n: nat): (s: seq<byte>)
    ensures |s| == n
  {
    if n == 0 then [] else [x % 256] + Le(x / 256, n - 1)
  }

  /** The number a little-endian byte string stands for. */
  function FromLe(s: seq<byte>): nat {
    if s == [] then 0 else s[0] + 256 * FromLe(s[1..])
  }

  function Pow256(n: nat): (r: nat)
    ensures r > 0
  {
    if n == 0 then 1 else 256 * Pow256(n - 1)
  }

  lemma {:induction false} LeRoundTrip(x: nat, n: nat)
    requires x < Pow256(n)
    ensures FromLe(Le(x, n)) == x
  {
    if n != 0 {
      LeRoundTrip(x / 256, n - 1);
      assert Le(x, n)[1..] == Le(x / 256, n - 1);
    }
  }

  lemma {:induction false} FromLeRoundTrip(s: seq<byte>)
    ensures FromLe(s) < Pow256(|s|)
    ensures Le(FromLe(s), |s|) == s
  {
    if s != [] {
      FromLeRoundTrip(s[1..]);
      Split256(FromLe(s), FromLe(s[1..]), s[0]);
    }
  }

  lemma PowersOf256()
    ensures Pow256(2) == 0x1_0000 && Pow256(4) == 0x1_0000_0000 && Pow256(8) == 0x1_0000_0000_0000_0000
  {
    assert Pow256(2) == 0x1_0000;
    assert Pow256(4) == 0x1_0000_0000;
    assert Pow256(6) == 0x1_0000_0000_0000;
  }

  // ---- products, quotients and remainders as repeated addition and subtraction ----
  //
  // Definitions use these where both operands vary, so that a proof meets a nonlinear term only
  // where it calls one of the three lemmas that equate them with `*`, `/` and `%`.

  function Times(a: nat, b: nat): nat { if a == 0 then 0 else Times(a - 1, b) + b }

  function Quot(x: nat, m: nat): nat
    requires m > 0
  {
    if x < m then 0 else 1 + Quot(x - m, m)
  }

  function Rem(x: nat, m: nat): (r: nat)
    requires m > 0
    ensures r < m
    ensures x < m ==> r == x
    ensures m <= x < 2 * m ==> r == x - m
  {
    if x < m then x else Rem(x - m, m)
  }

  lemma {:induction false} TimesIsProduct(a: nat, b: nat)
    ensures Times(a, b) == a * b
  {
    if a != 0 {
      TimesIsProduct(a - 1, b);
      assert a * b == (a - 1) * b + b;
    }
  }

  lemma {:induction false} QuotRemSplit(x: nat, m: nat)
    requires m > 0
    ensures x == Times(Quot(x, m), m) + Rem(x, m)
  {
    if x >= m {
      QuotRemSplit(x - m, m);
    }
  }

  lemma QuotRemExact(x: nat, m: nat)
    requires m > 0
    ensures Quot(x, m) == x / m && Rem(x, m) == x % m
  {
    QuotRemSplit(x, m);
    DivModSplit(x, m);
    TimesSplitUnique(m, Quot(x, m), Rem(x, m), x / m, x % m);
  }

  lemma DivModSplit(x: nat, m: nat)
    requires m > 0
    ensures x == Times(x / m, m) + x % m
  {
    TimesIsProduct(x / m, m);
  }

  lemma TimesMono(a: nat, b: nat, c: nat)
    requires a <= b
    ensures Times(a, c) <= Times(b, c)
    ensures Times(c, a) <= Times(c, b)
  {
    TimesIsProduct(a, c);
    TimesIsProduct(b, c);
    TimesIsProduct(c, a);
    TimesIsProduct(c, b);
    MulMono(a, b, c);
  }

  lemma TimesRowsApart(m: nat, q1: nat, r1: nat, q2: nat)
    requires r1 < m && q1 < q2
    ensures Times(q1, m) + r1 < Times(q2, m)
  {
    TimesMono(q1 + 1, q2, m);
  }

  lemma TimesSplitUnique(m: nat, q1: nat, r1: nat, q2: nat, r2: nat)
    requires r1 < m && r2 < m && Times(q1, m) + r1 == Times(q2, m) + r2
    ensures q1 == q2 && r1 == r2
  {
    if q1 < q2 {
      TimesRowsApart(m, q1, r1, q2);
    } else if q2 < q1 {
      TimesRowsApart(m, q2, r2, q1);
    }
  }

  lemma TimesSmall(k: nat, b: nat)
    requires k <= 4
    ensures Times(k, b) == if k == 0 then 0 else if k == 1 then b else if k == 2 then 2 * b
                           else if k == 3 then 3 * b else 4 * b
  {
    TimesIsProduct(k, b);
  }

  lemma QuotBelow(x: nat, m: nat, n: nat)
    requires m > 0 && x < Times(n, m)
    ensures Quot(x, m) < n
  {
    QuotRemSplit(x, m);
    if Quot(x, m) >= n {
      TimesMono(n, Quot(x, m), m);
    }
  }

  // Quotient and remainder by the powers of two the codecs use, from a decomposition.

  lemma Split4(x: nat, q: nat, r: nat)
    requires x == 4 * q + r && r < 4
    ensures x / 4 == q && x % 4 == r
  {
  }

  lemma Split16(x: nat, q: nat, r: nat)
    requires x == 16 * q + r && r < 16
    ensures x / 16 == q && x % 16 == r
  {
  }

  lemma Split64(x: nat, q: nat, r: nat)
    requires x == 64 * q + r && r < 64
    ensures x / 64 == q && x % 64 == r
  {
  }

  lemma Split256(x: nat, q: nat, r: nat)
    requires x == 256 * q + r && r < 256
    ensures x / 256 == q && x % 256 == r
  {
  }

  lemma MulMono(a: nat, b: nat, c: nat)
    requires a <= b
    ensures a * c <= b * c
    ensures c * a <= c * b
  {
  }
}
