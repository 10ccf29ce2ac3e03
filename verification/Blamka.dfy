/** The BlaMka round of blamka-round-ref.h: a permutation of sixteen 64-bit words. */
module Blamka {
  import opened Words

  /** x + y + 2 * lo(x) * lo(y) modulo 2^64. */
  function FBlaMka(x: u64, y: u64): u64 {
    U64(x + y + 2 * Times(x % 0x1_0000_0000, y % 0x1_0000_0000))
  }

  // ---- fBlaMka is invertible in its first argument ----

  function NewtonStep(o: int, x: int): int { x * (2 - o * x) }

  /** The inverse of an odd number modulo 2^32: each Newton step doubles the number of right bits. */
  function InverseOdd(o: nat): u32 {
    NewtonStep(o, NewtonStep(o, NewtonStep(o, NewtonStep(o, o)))) % 0x1_0000_0000
  }

  lemma NewtonDoubles(o: int, x: int, q: int, m: int, m2: int) returns (q2: int)
    requires o * x == 1 + q * m && m2 == m * m
    ensures o * NewtonStep(o, x) == 1 + q2 * m2
  {
    q2 := 0 - q * q;
    Associate(o, x, 2 - o * x);
    DifferenceOfSquares(q * m);
    SquareOfProduct(q, m);
    Negate(q * q, m2);
  }

  lemma Associate(a: int, b: int, c: int)
    ensures a * (b * c) == (a * b) * c
  {
  }

  lemma DifferenceOfSquares(z: int)
    ensures (1 + z) * (1 - z) == 1 - z * z
  {
  }

  lemma SquareOfProduct(q: int, m: int)
    ensures (q * m) * (q * m) == (q * q) * (m * m)
  {
    Associate(q * m, q, m);
    Associate(q, m, q);
    Associate(q, q, m);
    Associate(q * q, m, m);
  }

  lemma Negate(a: int, b: int)
    ensures (0 - a) * b == 0 - a * b
  {
  }

  lemma OddSquare(o: nat) returns (q: nat)
    requires o % 2 == 1
    ensures o * o == 1 + q * 8
  {
    var h := o / 2;
    var e := HalfOfConsecutive(h);
    q := e;
    assert o == 2 * h + 1;
    assert o * o == 4 * (h * h + h) + 1;
  }

  lemma HalfOfConsecutive(h: nat) returns (e: nat)
    ensures h * h + h == 2 * e
  {
    if h % 2 == 0 {
      e := (h / 2) * (h + 1);
      assert h * (h + 1) == 2 * ((h / 2) * (h + 1)) by { assert h == 2 * (h / 2); }
    } else {
      e := h * ((h + 1) / 2);
      assert h * (h + 1) == 2 * (h * ((h + 1) / 2)) by { assert h + 1 == 2 * ((h + 1) / 2); }
    }
  }

  lemma InverseOddRight(o: nat)
    requires o % 2 == 1
    ensures (o * InverseOdd(o)) % 0x1_0000_0000 == 1
  {
    hide NewtonStep;
    var q: int := OddSquare(o);
    q := NewtonDoubles(o, o, q, 8, 64);
    var x := NewtonStep(o, o);
    q := NewtonDoubles(o, x, q, 64, 4096);
    x := NewtonStep(o, x);
    q := NewtonDoubles(o, x, q, 4096, 0x100_0000);
    x := NewtonStep(o, x);
    q := NewtonDoubles(o, x, q, 0x100_0000, 0x1_0000_0000_0000);
    x := NewtonStep(o, x);
    ReduceFactor(o, x);
    ModShift(1, q * 0x1_0000);
  }

  lemma ReduceFactor(o: int, x: int)
    ensures (o * (x % 0x1_0000_0000)) % 0x1_0000_0000 == (o * x) % 0x1_0000_0000
  {
    var k := x / 0x1_0000_0000;
    assert x == k * 0x1_0000_0000 + x % 0x1_0000_0000;
    assert o * x == (o * k) * 0x1_0000_0000 + o * (x % 0x1_0000_0000);
    ModShift(o * (x % 0x1_0000_0000), o * k);
  }

  lemma ModShift(z: int, k: int)
    ensures (k * 0x1_0000_0000 + z) % 0x1_0000_0000 == z % 0x1_0000_0000
  {
  }

  /** The low word of the x with FBlaMka(x, y) == z, from the low words of z - y and y. */
  function InverseLow(diff: u32, ylo: u32): u32 {
    Times(diff, InverseOdd(1 + 2 * ylo)) % 0x1_0000_0000
  }

  /** The x with FBlaMka(x, y) == z. */
  function FBlaMkaInverse(z: u64, y: u64): u64 {
    var ylo := y % 0x1_0000_0000;
    U64(z - y - 2 * Times(InverseLow((z - y) % 0x1_0000_0000, ylo), ylo))
  }

  /** Multiplying by the odd number `o` and then by its inverse gives back any low word, and conversely. */
  lemma UndoOdd(a: u32, o: nat)
    requires o % 2 == 1
    ensures (((a * o) % 0x1_0000_0000) * InverseOdd(o)) % 0x1_0000_0000 == a
    ensures (((a * InverseOdd(o)) % 0x1_0000_0000) * o) % 0x1_0000_0000 == a
  {
    hide InverseOdd;
    var v: u32 := InverseOdd(o);
    InverseOddRight(o);
    UndoFactor(a, o, v);
    Commute(o, v);
    UndoFactor(a, v, o);
  }

  lemma UndoFactor(a: u32, o: nat, v: nat)
    requires (o * v) % 0x1_0000_0000 == 1
    ensures (((a * o) % 0x1_0000_0000) * v) % 0x1_0000_0000 == a
  {
    var k := o * v / 0x1_0000_0000;
    var x := o * v;
    assert x == k * 0x1_0000_0000 + 1;
    Associate(a, o, v);
    Distribute(a, k * 0x1_0000_0000, 1);
    Associate(a, k, 0x1_0000_0000);
    UndoProduct(a, a * o, v, a * k);
  }

  lemma UndoProduct(a: u32, x: nat, v: nat, k: nat)
    requires x * v == k * 0x1_0000_0000 + a
    ensures ((x % 0x1_0000_0000) * v) % 0x1_0000_0000 == a
  {
    ReduceFactor(v, x);
    Commute(v, x);
    Commute(v, x % 0x1_0000_0000);
    ModShift(a, k);
  }

  lemma Commute(a: int, b: int)
    ensures a * b == b * a
  {
  }

  lemma Distribute(a: int, b: int, c: int)
    ensures a * (b + c) == a * b + a * c
  {
  }

  lemma OddMultiple(xlo: u32, ylo: u32)
    ensures xlo + 2 * Times(xlo, ylo) == xlo * (1 + 2 * ylo)
  {
    TimesIsProduct(xlo, ylo);
    Distribute(xlo, 1, 2 * ylo);
    Associate(xlo, 2, ylo);
  }

  lemma InverseLowLeft(xlo: u32, ylo: u32)
    ensures InverseLow((xlo + 2 * Times(xlo, ylo)) % 0x1_0000_0000, ylo) == xlo
  {
    hide InverseOdd, Times;
    OddMultiple(xlo, ylo);
    UndoOdd(xlo, 1 + 2 * ylo);
    TimesIsProduct((xlo * (1 + 2 * ylo)) % 0x1_0000_0000, InverseOdd(1 + 2 * ylo));
  }

  lemma InverseLowRight(diff: u32, ylo: u32)
    ensures (InverseLow(diff, ylo) + 2 * Times(InverseLow(diff, ylo), ylo)) % 0x1_0000_0000 == diff
  {
    hide InverseOdd, Times;
    OddMultiple(InverseLow(diff, ylo), ylo);
    UndoOdd(diff, 1 + 2 * ylo);
    TimesIsProduct(diff, InverseOdd(1 + 2 * ylo));
  }

  lemma LowWord(x: u64, y: u64, p: nat)
    ensures (U64(x + y + 2 * p) - y) % 0x1_0000_0000 == (x % 0x1_0000_0000 + 2 * p) % 0x1_0000_0000
  {
  }

  /** `fBlaMka` is a bijection in its first argument: one direction, */
  lemma FBlaMkaUndo(x: u64, y: u64)
    ensures FBlaMkaInverse(FBlaMka(x, y), y) == x
  {
    hide InverseLow, Times, U64;
    var xlo, ylo := x % 0x1_0000_0000, y % 0x1_0000_0000;
    var p := Times(xlo, ylo);
    LowWord(x, y, p);
    InverseLowLeft(xlo, ylo);
    WrapBack(x, y, p);
    assert FBlaMka(x, y) == U64(x + y + 2 * p);
    assert InverseLow((FBlaMka(x, y) - y) % 0x1_0000_0000, ylo) == xlo;
  }

  lemma WrapBack(x: u64, y: u64, p: nat)
    ensures U64(U64(x + y + 2 * p) - y - 2 * p) == x
  {
  }

  /** and the other. */
  lemma FBlaMkaRedo(z: u64, y: u64)
    ensures FBlaMka(FBlaMkaInverse(z, y), y) == z
  {
    hide InverseLow, Times, U64;
    var ylo, diff := y % 0x1_0000_0000, (z - y) % 0x1_0000_0000;
    var xlo := InverseLow(diff, ylo);
    InverseLowRight(diff, ylo);
    LowWordBack(z, y, xlo, Times(xlo, ylo));
    WrapForth(z, y, Times(xlo, ylo));
  }

  lemma LowWordBack(z: u64, y: u64, xlo: u32, p: nat)
    requires (xlo + 2 * p) % 0x1_0000_0000 == (z - y) % 0x1_0000_0000
    ensures U64(z - y - 2 * p) % 0x1_0000_0000 == xlo
  {
    var n := z - y - 2 * p;
    var q := n / 0x1_0000_0000_0000_0000;
    var q1, q2 := (xlo + 2 * p) / 0x1_0000_0000, (z - y) / 0x1_0000_0000;
    assert n == (q2 - q1) * 0x1_0000_0000 + xlo;
    Remainder32(U64(n), q2 - q1 - 0x1_0000_0000 * q, xlo);
  }

  lemma Remainder32(x: int, q: int, r: u32)
    requires x == q * 0x1_0000_0000 + r
    ensures x % 0x1_0000_0000 == r
  {
  }

  lemma WrapForth(z: u64, y: u64, p: nat)
    ensures U64(U64(z - y - 2 * p) + y + 2 * p) == z
  {
  }

  // ---- xor and rotation ----

  function Xor64(a: u64, b: u64): u64 {
    PowersOfTwo();
    XorBound(a, b, 64);
    Xor(a, b)
  }

  /** `rotr64`: the two shifted images of `w`, or-ed. */
  function Rotr(w: u64, c: nat): (r: u64)
    requires c <= 64
  {
    PowersOfTwo();
    QuotAtMost(w, Pow2(c));
    OrBound(Quot(w, Pow2(c)), U64(Times(w, Pow2(64 - c))), 64);
    Or(Quot(w, Pow2(c)), U64(Times(w, Pow2(64 - c))))
  }

  lemma {:induction false} QuotAtMost(x: nat, m: nat)
    requires m > 0
    ensures Quot(x, m) <= x
  {
    if x >= m {
      QuotAtMost(x - m, m);
    }
  }

  lemma {:induction false} PowSplit(n: nat, c: nat)
    requires c <= n
    ensures Times(Pow2(c), Pow2(n - c)) == Pow2(n)
  {
    if c == 0 {
      TimesSmall(1, Pow2(n));
    } else {
      PowSplit(n - 1, c - 1);
      TimesIsProduct(Pow2(c), Pow2(n - c));
      TimesIsProduct(Pow2(c - 1), Pow2(n - c));
      Associate(2, Pow2(c - 1), Pow2(n - c));
    }
  }

  /** Or-ing two numbers without common bits adds them. */
  lemma {:induction false} OrDisjoint(a: nat, b: nat, n: nat)
    requires a < Pow2(n)
    ensures Or(a, Times(b, Pow2(n))) == a + Times(b, Pow2(n))
  {
    if n == 0 {
      TimesIsProduct(b, 1);
      OrWithZero(b);
    } else {
      hide Or, Times;
      OrDisjoint(a / 2, b, n - 1);
      TimesTwice(b, Pow2(n - 1));
      EvenOr(a, Times(b, Pow2(n - 1)));
    }
  }

  lemma TimesTwice(b: nat, p: nat)
    ensures Times(b, 2 * p) == 2 * Times(b, p)
  {
    TimesIsProduct(b, p);
    TimesIsProduct(b, 2 * p);
    Commute(b, 2 * p);
    Associate(2, p, b);
    Commute(p, b);
  }

  lemma EvenOr(a: nat, h: nat)
    requires Or(a / 2, h) == a / 2 + h
    ensures Or(a, 2 * h) == a + 2 * h
  {
    assert (2 * h) / 2 == h && (2 * h) % 2 == 0;
  }

  /** Rotation moves the low part above the high part. */
  lemma RotrSwapsParts(w: u64, c: nat)
    requires c <= 64
    ensures Rotr(w, c) == Quot(w, Pow2(c)) + Times(Rem(w, Pow2(c)), Pow2(64 - c))
    ensures Quot(w, Pow2(c)) < Pow2(64 - c)
  {
    var p, q := Pow2(c), Pow2(64 - c);
    var hi, lo := Quot(w, p), Rem(w, p);
    PowersOfTwo();
    PowSplit(64, c);
    QuotRemSplit(w, p);
    SwapTimes(p, q);
    QuotBelow(w, p, q);
    ShiftedLow(hi, lo, p, q);
    OrDisjoint(hi, lo, 64 - c);
  }

  lemma SwapTimes(a: nat, b: nat)
    ensures Times(a, b) == Times(b, a)
  {
    TimesIsProduct(a, b);
    TimesIsProduct(b, a);
  }

  lemma ShiftedLow(hi: nat, lo: nat, p: nat, q: nat)
    requires lo < p && Times(p, q) == 0x1_0000_0000_0000_0000
    ensures U64(Times(Times(hi, p) + lo, q)) == Times(lo, q)
  {
    TimesIsProduct(Times(hi, p) + lo, q);
    TimesIsProduct(hi, p);
    TimesIsProduct(lo, q);
    TimesIsProduct(p, q);
    TimesMono(lo + 1, p, q);
    Distribute(q, hi * p, lo);
    Commute(q, hi * p);
    Commute(q, lo);
    Commute(q, hi * p + lo);
    Associate(hi, p, q);
    if q > 0 {
      assert Times(lo + 1, q) == Times(lo, q) + q;
      Wrap(hi, Times(lo, q));
    }
  }

  lemma Wrap(k: nat, z: u64)
    ensures U64(k * 0x1_0000_0000_0000_0000 + z) == z
  {
  }

  /** Rotating by c and then by 64 - c gives the word back. */
  lemma RotrUndo(w: u64, c: nat)
    requires 0 < c < 64
    ensures Rotr(Rotr(w, c), 64 - c) == w
  {
    var p, q := Pow2(c), Pow2(64 - c);
    var hi, lo := Quot(w, p), Rem(w, p);
    var r := Rotr(w, c);
    RotrSwapsParts(w, c);
    QuotRemSplit(w, p);
    QuotRemSplit(r, q);
    TimesSplitUnique(q, lo, hi, Quot(r, q), Rem(r, q));
    RotrSwapsParts(r, 64 - c);
  }

  // ---- the macro G on four words ----

  datatype Quad = Quad(a: u64, b: u64, c: u64, d: u64)

  function HalfG(q: Quad, r: nat, s: nat): Quad
    requires r <= 64 && s <= 64
  {
    var a := FBlaMka(q.a, q.b);
    var d := Rotr(Xor64(q.d, a), r);
    var c := FBlaMka(q.c, d);
    var b := Rotr(Xor64(q.b, c), s);
    Quad(a, b, c, d)
  }

  function G(q: Quad): Quad { HalfG(HalfG(q, 32, 24), 16, 63) }

  function HalfGInverse(q: Quad, r: nat, s: nat): Quad
    requires r <= 64 && s <= 64
  {
    var b := Xor64(Rotr(q.b, 64 - s), q.c);
    var c := FBlaMkaInverse(q.c, q.d);
    var d := Xor64(Rotr(q.d, 64 - r), q.a);
    var a := FBlaMkaInverse(q.a, b);
    Quad(a, b, c, d)
  }

  function GInverse(q: Quad): Quad { HalfGInverse(HalfGInverse(q, 16, 63), 32, 24) }

  lemma MixUndo(x: u64, y: u64, r: nat)
    requires 0 < r < 64
    ensures Xor64(Rotr(Rotr(Xor64(x, y), r), 64 - r), y) == x
  {
    hide Rotr, Xor;
    RotrUndo(Xor64(x, y), r);
    XorUndo(x, y);
  }

  lemma MixRedo(z: u64, y: u64, r: nat)
    requires 0 < r < 64
    ensures Rotr(Xor64(Xor64(Rotr(z, 64 - r), y), y), r) == z
  {
    hide Rotr, Xor;
    RotrUndo(z, 64 - r);
    XorUndo(Rotr(z, 64 - r), y);
  }

  lemma HalfGUndo(q: Quad, r: nat, s: nat)
    requires 0 < r < 64 && 0 < s < 64
    ensures HalfGInverse(HalfG(q, r, s), r, s) == q
  {
    hide FBlaMka, FBlaMkaInverse, Rotr, Xor64;
    var h := HalfG(q, r, s);
    FBlaMkaUndo(q.a, q.b);
    MixUndo(q.d, h.a, r);
    FBlaMkaUndo(q.c, h.d);
    MixUndo(q.b, h.c, s);
  }

  lemma HalfGRedo(q: Quad, r: nat, s: nat)
    requires 0 < r < 64 && 0 < s < 64
    ensures HalfG(HalfGInverse(q, r, s), r, s) == q
  {
    hide FBlaMka, FBlaMkaInverse, Rotr, Xor64;
    var h := HalfGInverse(q, r, s);
    MixRedo(q.b, q.c, s);
    FBlaMkaRedo(q.c, q.d);
    MixRedo(q.d, q.a, r);
    FBlaMkaRedo(q.a, h.b);
  }

  lemma GBijective(q: Quad)
    ensures GInverse(G(q)) == q && G(GInverse(q)) == q
  {
    hide HalfG, HalfGInverse;
    HalfGUndo(HalfG(q, 32, 24), 16, 63);
    HalfGUndo(q, 32, 24);
    HalfGRedo(HalfGInverse(q, 16, 63), 32, 24);
    HalfGRedo(q, 16, 63);
  }

  // ---- the round on sixteen words ----

  /** Four different positions. */
  datatype Four = Four(i: nat, j: nat, k: nat, l: nat) {
    predicate In(n: nat) {
      && i < n && j < n && k < n && l < n
      && i != j && i != k && i != l && j != k && j != l && k != l
    }
  }

  function Pick(v: seq<u64>, p: Four): Quad
    requires p.In(|v|)
  {
    Quad(v[p.i], v[p.j], v[p.k], v[p.l])
  }

  function Put(v: seq<u64>, p: Four, q: Quad): (w: seq<u64>)
    requires p.In(|v|)
    ensures |w| == |v| && Pick(w, p) == q
    ensures forall x :: 0 <= x < |v| && x != p.i && x != p.j && x != p.k && x != p.l ==> w[x] == v[x]
  {
    v[p.i := q.a][p.j := q.b][p.k := q.c][p.l := q.d]
  }

  /** Positions of the eight applications of G in a round: four columns, then four diagonals. */
  function Positions(n: nat): (p: Four)
    ensures p.In(16)
  {
    if n == 0 then Four(0, 4, 8, 12) else if n == 1 then Four(1, 5, 9, 13)
    else if n == 2 then Four(2, 6, 10, 14) else if n == 3 then Four(3, 7, 11, 15)
    else if n == 4 then Four(0, 5, 10, 15) else if n == 5 then Four(1, 6, 11, 12)
    else if n == 6 then Four(2, 7, 8, 13) else Four(3, 4, 9, 14)
  }

  /** The first `n` applications. */
  function Steps(v: seq<u64>, n: nat): (w: seq<u64>)
    requires |v| == 16
    ensures |w| == 16
  {
    if n == 0 then v
    else
      var u := Steps(v, n - 1);
      Put(u, Positions(n - 1), G(Pick(u, Positions(n - 1))))
  }

  function Round(v: seq<u64>): (w: seq<u64>)
    requires |v| == 16
    ensures |w| == 16
  {
    Steps(v, 8)
  }

  function StepsInverse(v: seq<u64>, n: nat): (w: seq<u64>)
    requires |v| == 16
    ensures |w| == 16
    decreases n
  {
    if n == 0 then v
    else StepsInverse(Put(v, Positions(n - 1), GInverse(Pick(v, Positions(n - 1)))), n - 1)
  }

  lemma PutBack(v: seq<u64>, p: Four, q: Quad)
    requires p.In(|v|)
    ensures Put(Put(v, p, q), p, Pick(v, p)) == v
  {
  }

  lemma {:induction false} StepsUndo(v: seq<u64>, n: nat)
    requires |v| == 16
    ensures StepsInverse(Steps(v, n), n) == v
  {
    hide G, GInverse, Put, Positions;
    if n != 0 {
      var u, p := Steps(v, n - 1), Positions(n - 1);
      GBijective(Pick(u, p));
      PutBack(u, p, G(Pick(u, p)));
      StepsUndo(v, n - 1);
    }
  }

  lemma {:induction false} StepsRedo(v: seq<u64>, n: nat)
    requires |v| == 16
    ensures Steps(StepsInverse(v, n), n) == v
    decreases n
  {
    hide G, GInverse, Put, Positions, Pick;
    if n != 0 {
      var p := Positions(n - 1);
      var u := Put(v, p, GInverse(Pick(v, p)));
      GBijective(Pick(v, p));
      PutBack(v, p, GInverse(Pick(v, p)));
      StepsRedo(u, n - 1);
    }
  }

  /** The round is a bijection on sixteen words: `StepsInverse(_, 8)` is its inverse, from both sides. */
  lemma RoundBijective(v: seq<u64>)
    requires |v| == 16
    ensures StepsInverse(Round(v), 8) == v
    ensures Round(StepsInverse(v, 8)) == v
  {
    StepsUndo(v, 8);
    StepsRedo(v, 8);
  }

  // ---- the macros in place ----

  /** The macro G on four cells of an array. */
  method GInPlace(v: array<u64>, p: Four)
    requires p.In(v.Length)
    modifies v
    ensures v[..] == Put(old(v[..]), p, G(Pick(old(v[..]), p)))
  {
    hide FBlaMka, Rotr, Xor64;
    ghost var old0 := v[..];
    v[p.i] := FBlaMka(v[p.i], v[p.j]);
    v[p.l] := Rotr(Xor64(v[p.l], v[p.i]), 32);
    v[p.k] := FBlaMka(v[p.k], v[p.l]);
    v[p.j] := Rotr(Xor64(v[p.j], v[p.k]), 24);
    v[p.i] := FBlaMka(v[p.i], v[p.j]);
    v[p.l] := Rotr(Xor64(v[p.l], v[p.i]), 16);
    v[p.k] := FBlaMka(v[p.k], v[p.l]);
    v[p.j] := Rotr(Xor64(v[p.j], v[p.k]), 63);
    assert Quad(v[p.i], v[p.j], v[p.k], v[p.l]) == G(Pick(old0, p));
  }

  predicate Distinct(x: seq<nat>) { forall i, j :: 0 <= i < j < |x| ==> x[i] != x[j] }

  predicate Inside(x: seq<nat>, n: nat) { forall i :: 0 <= i < |x| ==> x[i] < n }

  function Find(x: seq<nat>, p: nat): (i: nat)
    requires p in x
    ensures i < |x| && x[i] == p
  {
    if x[0] == p then 0 else 1 + Find(x[1..], p)
  }

  function Gather(v: seq<u64>, x: seq<nat>): (w: seq<u64>)
    requires Inside(x, |v|)
    ensures |w| == |x|
  {
    seq(|x|, i requires 0 <= i < |x| => v[x[i]])
  }

  function Scatter(v: seq<u64>, x: seq<nat>, w: seq<u64>): (r: seq<u64>)
    requires |w| == |x|
    ensures |r| == |v|
  {
    seq(|v|, p requires 0 <= p < |v| => if p in x then w[Find(x, p)] else v[p])
  }

  function Spread(x: seq<nat>, p: Four): Four
    requires p.In(|x|)
  {
    Four(x[p.i], x[p.j], x[p.k], x[p.l])
  }

  lemma ScatterAt(v: seq<u64>, x: seq<nat>, w: seq<u64>, i: nat)
    requires |w| == |x| && Distinct(x) && i < |x| && x[i] < |v|
    ensures Scatter(v, x, w)[x[i]] == w[i]
  {
    var f := Find(x, x[i]);
  }

  lemma SpreadIn(x: seq<nat>, p: Four, n: nat)
    requires Distinct(x) && p.In(|x|) && Inside(x, n)
    ensures Spread(x, p).In(n)
  {
  }

  lemma UpdateScattered(v: seq<u64>, x: seq<nat>, w: seq<u64>, i: nat, word: u64)
    requires |w| == |x| && Distinct(x) && Inside(x, |v|) && i < |x|
    ensures Scatter(v, x, w)[x[i] := word] == Scatter(v, x, w[i := word])
  {
    var left, right := Scatter(v, x, w)[x[i] := word], Scatter(v, x, w[i := word]);
    forall c | 0 <= c < |v|
      ensures left[c] == right[c]
    {
      if c in x {
        var f := Find(x, c);
      }
    }
  }

  /** Working on scattered words is scattering the work. */
  lemma PutScattered(v: seq<u64>, x: seq<nat>, w: seq<u64>, p: Four, q: Quad)
    requires |w| == |x| && Distinct(x) && p.In(|x|) && Inside(x, |v|)
    ensures Spread(x, p).In(|v|)
    ensures Pick(Scatter(v, x, w), Spread(x, p)) == Pick(w, p)
    ensures Put(Scatter(v, x, w), Spread(x, p), q) == Scatter(v, x, Put(w, p, q))
  {
    hide Scatter;
    SpreadIn(x, p, |v|);
    ScatterAt(v, x, w, p.i);
    ScatterAt(v, x, w, p.j);
    ScatterAt(v, x, w, p.k);
    ScatterAt(v, x, w, p.l);
    UpdateScattered(v, x, w, p.i, q.a);
    UpdateScattered(v, x, w[p.i := q.a], p.j, q.b);
    UpdateScattered(v, x, w[p.i := q.a][p.j := q.b], p.k, q.c);
    UpdateScattered(v, x, w[p.i := q.a][p.j := q.b][p.k := q.c], p.l, q.d);
  }

  /** A round on the cells `x` of a larger vector. */
  function RoundAt(v: seq<u64>, x: seq<nat>): (r: seq<u64>)
    requires |x| == 16 && Inside(x, |v|)
    ensures |r| == |v|
  {
    Scatter(v, x, Round(Gather(v, x)))
  }

  lemma ScatterGathered(v: seq<u64>, x: seq<nat>)
    requires Inside(x, |v|)
    ensures Scatter(v, x, Gather(v, x)) == v
  {
  }

  /** Step `n` of a round, in place. */
  method StepInPlace(v: array<u64>, x: seq<nat>, ghost n: nat, p: Four, ghost v0: seq<u64>)
    requires |x| == 16 && Distinct(x) && Inside(x, v.Length) && |v0| == v.Length
    requires n < 8 && p == Positions(n)
    requires v[..] == Scatter(v0, x, Steps(Gather(v0, x), n))
    modifies v
    ensures v[..] == Scatter(v0, x, Steps(Gather(v0, x), n + 1))
  {
    hide G, Put, Scatter, Gather, Pick, Positions;
    ghost var w := Steps(Gather(v0, x), n);
    SpreadIn(x, p, v.Length);
    PutScattered(v0, x, w, p, G(Pick(w, p)));
    GInPlace(v, Spread(x, p));
  }

  /** `BLAKE2_ROUND_NOMSG` on sixteen cells of an array. */
  method RoundInPlace(v: array<u64>, x: seq<nat>)
    requires |x| == 16 && Distinct(x) && Inside(x, v.Length)
    modifies v
    ensures v[..] == RoundAt(old(v[..]), x)
  {
    hide Scatter, Gather;
    ghost var v0 := v[..];
    ScatterGathered(v0, x);
    StepInPlace(v, x, 0, Four(0, 4, 8, 12), v0);
    StepInPlace(v, x, 1, Four(1, 5, 9, 13), v0);
    StepInPlace(v, x, 2, Four(2, 6, 10, 14), v0);
    StepInPlace(v, x, 3, Four(3, 7, 11, 15), v0);
    StepInPlace(v, x, 4, Four(0, 5, 10, 15), v0);
    StepInPlace(v, x, 5, Four(1, 6, 11, 12), v0);
    StepInPlace(v, x, 6, Four(2, 7, 8, 13), v0);
    StepInPlace(v, x, 7, Four(3, 4, 9, 14), v0);
  }
}
