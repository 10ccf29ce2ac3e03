/** Argon2 a second time, straight from RFC 9106 and RFC 7693: natural numbers, literal constants, blocks
    named by lane and absolute column. Nothing here is used by the model of the code; the refinement
    modules show that the code computes it. Where both operands vary, `Times`, `Quot` and `Rem` stand for
    product, quotient and remainder. */
module Reference {
  import opened Words
  import Blake2b

  // ---- numbers as bytes ----

  /** LE32 of section 3.1 of RFC 9106. */
  function Le32(x: nat): (s: seq<byte>)
    ensures |s| == 4
  {
    [x % 0x100, x / 0x100 % 0x100, x / 0x1_0000 % 0x100, x / 0x100_0000 % 0x100]
  }

  /** The number four bytes stand for, least significant byte first. */
  function Number32(s: seq<byte>, at: nat): nat
    requires at + 4 <= |s|
  {
    s[at] as nat + 0x100 * s[at + 1] as nat + 0x1_0000 * s[at + 2] as nat + 0x100_0000 * s[at + 3] as nat
  }

  function Le64(x: nat): (s: seq<byte>)
    ensures |s| == 8
  {
    Le32(x) + [x / 0x1_0000_0000 % 0x100, x / 0x100_0000_0000 % 0x100, x / 0x1_0000_0000_0000 % 0x100,
               x / 0x100_0000_0000_0000 % 0x100]
  }

  function Number64(s: seq<byte>, at: nat): nat
    requires at + 8 <= |s|
  {
    Number32(s, at) + 0x1_0000_0000 * Number32(s, at + 4)
  }

  // ---- BLAKE2b, section 3.3 of RFC 7693, block by block from the front ----

  /** Without a key. `count` bytes have been compressed before; the last block may be full. */
  function Absorb<H(!new)>(alg: Blake2b.Alg<H>, h: H, msg: seq<byte>, count: nat): H
    decreases |msg|
  {
    if |msg| <= 128 then
      alg.compress(h, msg + seq(128 - |msg|, i => 0), (count + |msg|) % 0x1_0000_0000_0000_0000,
                   (count + |msg|) / 0x1_0000_0000_0000_0000 % 0x1_0000_0000_0000_0000, true)
    else
      var next := alg.compress(h, msg[..128], (count + 128) % 0x1_0000_0000_0000_0000,
                               (count + 128) / 0x1_0000_0000_0000_0000 % 0x1_0000_0000_0000_0000, false);
      Absorb(alg, next, msg[128..], count + 128)
  }

  /** H^n of section 3.1 of RFC 9106. */
  function Hash<H(!new)>(alg: Blake2b.Alg<H>, n: nat, msg: seq<byte>): (d: seq<byte>)
    requires alg.Valid() && n <= 64
    ensures |d| == n
  {
    alg.image(Absorb(alg, alg.init(n, 0), msg, 0))[..n]
  }

  /** H'^n of section 3.3 of RFC 9106. */
  function VariableHash<H(!new)>(alg: Blake2b.Alg<H>, n: nat, a: seq<byte>): (d: seq<byte>)
    requires alg.Valid()
    ensures |d| == n
  {
    if n <= 64 then Hash(alg, n, Le32(n) + a) else HalfByHalf(alg, n, Hash(alg, 64, Le32(n) + a))
  }

  /** The `n` bytes that are left, from V_i on: half of V_i, and so on with its hash. */
  function HalfByHalf<H(!new)>(alg: Blake2b.Alg<H>, n: nat, v: seq<byte>): (d: seq<byte>)
    requires alg.Valid() && n > 64 && |v| == 64
    ensures |d| == n
  {
    v[..32] + (if n - 32 <= 64 then Hash(alg, n - 32, v) else HalfByHalf(alg, n - 32, Hash(alg, 64, v)))
  }

  // ---- the permutation P, section 3.6 ----

  /** (x + y + 2 * trunc(x) * trunc(y)) mod 2^64. */
  function Plus(x: nat, y: nat): nat {
    (x + y + 2 * ((x % 0x1_0000_0000) * (y % 0x1_0000_0000))) % 0x1_0000_0000_0000_0000
  }

  /** GB on the words at a, b, c and d; the rotations are by 32, 24, 16 and 63 bits to the right. */
  function Mix(v: seq<nat>, a: nat, b: nat, c: nat, d: nat): (w: seq<nat>)
    requires a < |v| && b < |v| && c < |v| && d < |v|
    ensures |w| == |v|
  {
    var a1 := Plus(v[a], v[b]);
    var x1 := Xor(v[d], a1);
    var d1 := x1 / 0x1_0000_0000 + x1 % 0x1_0000_0000 * 0x1_0000_0000;
    var c1 := Plus(v[c], d1);
    var y1 := Xor(v[b], c1);
    var b1 := y1 / 0x100_0000 + y1 % 0x100_0000 * 0x100_0000_0000;
    var a2 := Plus(a1, b1);
    var x2 := Xor(d1, a2);
    var d2 := x2 / 0x1_0000 + x2 % 0x1_0000 * 0x1_0000_0000_0000;
    var c2 := Plus(c1, d2);
    var y2 := Xor(b1, c2);
    var b2 := y2 / 0x8000_0000_0000_0000 + y2 % 0x8000_0000_0000_0000 * 2;
    v[a := a2][b := b2][c := c2][d := d2]
  }

  function P(v: seq<nat>): (w: seq<nat>)
    requires |v| == 16
    ensures |w| == 16
  {
    var v := Mix(Mix(Mix(Mix(v, 0, 4, 8, 12), 1, 5, 9, 13), 2, 6, 10, 14), 3, 7, 11, 15);
    Mix(Mix(Mix(Mix(v, 0, 5, 10, 15), 1, 6, 11, 12), 2, 7, 8, 13), 3, 4, 9, 14)
  }

  // ---- the compression function G, section 3.5 ----

  function XorWords(x: seq<nat>, y: seq<nat>): (z: seq<nat>)
    requires |x| == |y|
    ensures |z| == |x|
  {
    seq(|x|, i requires 0 <= i < |x| => Xor(x[i], y[i]))
  }

  /** Row `i` of the 8x8 matrix of 16-byte registers. */
  function Row(r: seq<nat>, i: nat): (v: seq<nat>)
    requires |r| == 128 && i < 8
    ensures |v| == 16
  {
    r[16 * i..16 * i + 16]
  }

  /** Its column `j`. */
  function Column(r: seq<nat>, j: nat): (v: seq<nat>)
    requires |r| == 128 && j < 8
    ensures |v| == 16
  {
    [r[2 * j], r[2 * j + 1], r[2 * j + 16], r[2 * j + 17], r[2 * j + 32], r[2 * j + 33], r[2 * j + 48], r[2 * j + 49],
     r[2 * j + 64], r[2 * j + 65], r[2 * j + 80], r[2 * j + 81], r[2 * j + 96], r[2 * j + 97], r[2 * j + 112],
     r[2 * j + 113]]
  }

  /** P on every row. */
  function Rows(r: seq<nat>): (q: seq<nat>)
    requires |r| == 128
    ensures |q| == 128
  {
    seq(128, c requires 0 <= c < 128 => P(Row(r, c / 16))[c % 16])
  }

  /** P on every column. */
  function Columns(q: seq<nat>): (z: seq<nat>)
    requires |q| == 128
    ensures |z| == 128
  {
    hide P, Column;
    seq(128, c requires 0 <= c < 128 => var i, k := c / 16, c % 16; P(Column(q, k / 2))[2 * i + k % 2])
  }

  function G(x: seq<nat>, y: seq<nat>): (z: seq<nat>)
    requires |x| == |y| == 128
    ensures |z| == 128
  {
    var r := XorWords(x, y);
    XorWords(Columns(Rows(r)), r)
  }

  // ---- inputs and H_0, sections 3.1 and 3.2 ----

  datatype Params = Params(lanes: nat, tagLength: nat, memory: nat, passes: nat, version: nat, ty: nat,
    password: seq<byte>, salt: seq<byte>, secret: seq<byte>, data: seq<byte>)
  {
    /** At least two blocks a segment, as 8 * lanes <= memory asks for. */
    predicate Valid() { 1 <= lanes && 8 * lanes <= memory && 1 <= passes }

    /** The blocks of a segment: a lane has 4 * SegmentLength() columns, m' is 4 * lanes * SegmentLength(). */
    function SegmentLength(): nat
      requires lanes > 0
    {
      Quot(memory, 4 * lanes)
    }
  }

  function H0<H(!new)>(alg: Blake2b.Alg<H>, c: Params): (h: seq<byte>)
    requires alg.Valid()
    ensures |h| == 64
  {
    Hash(alg, 64,
      Le32(c.lanes) + Le32(c.tagLength) + Le32(c.memory) + Le32(c.passes) + Le32(c.version) + Le32(c.ty)
      + Le32(|c.password|) + c.password + Le32(|c.salt|) + c.salt
      + Le32(|c.secret|) + c.secret + Le32(|c.data|) + c.data)
  }

  /** A field behind its length, and what follows it. */
  function ReadField(s: seq<byte>): Option<(seq<byte>, seq<byte>)> {
    if |s| < 4 then None else
      var n := Number32(s, 0);
      if |s| < 4 + n then None else Some((s[4..4 + n], s[4 + n..]))
  }

  /** What a hashed string says when it is read from left to right: six 32-bit words and four fields. */
  function ReadInputs(s: seq<byte>): Option<Params> {
    if |s| < 24 then None else
      var password := ReadField(s[24..]);
      if password.None? then None else
        var salt := ReadField(password.value.1);
        if salt.None? then None else
          var secret := ReadField(salt.value.1);
          if secret.None? then None else
            var data := ReadField(secret.value.1);
            if data.None? || data.value.1 != [] then None else
              Some(Params(Number32(s, 0), Number32(s, 4), Number32(s, 8), Number32(s, 12), Number32(s, 16),
                Number32(s, 20), password.value.0, salt.value.0, secret.value.0, data.value.0))
  }

  // ---- indexing, section 3.4, by absolute column a = 4n * pass + column ----

  /** The oldest column of the last three finished segments, before column `a`. */
  function Oldest(n: nat, a: nat): int
    requires n > 0
  {
    var start := a - Rem(a, n);
    if start < 3 * n then 0 else start - 3 * n
  }

  /** |W|. */
  function WindowSize(n: nat, a: nat, sameLane: bool): int
    requires n > 0
  {
    (if sameLane then a - 1 else if Rem(a, n) == 0 then a - 1 else a - Rem(a, n)) - Oldest(n, a)
  }

  /** The column J_1 picks from W. */
  function PickedColumn(n: nat, a: nat, sameLane: bool, j1: nat): int
    requires n > 0
  {
    var w := WindowSize(n, a, sameLane);
    if w < 0 then 0 else
      var x := Times(j1, j1) / 0x1_0000_0000;
      var y := Times(w, x) / 0x1_0000_0000;
      Oldest(n, a) + w - 1 - y
  }

  lemma PickedIsOlder(n: nat, a: nat, sameLane: bool, j1: nat)
    requires n >= 2 && a >= 2 && (a < n ==> sameLane) && j1 < 0x1_0000_0000
    ensures 0 <= PickedColumn(n, a, sameLane, j1) < a
  {
    hide Times, Quot, Rem;
    var w := WindowSize(n, a, sameLane);
    SegmentStart(n, a);
    assert 1 <= w && Oldest(n, a) + w <= a;
    var x := Times(j1, j1) / 0x1_0000_0000;
    TimesMono(j1, 0xFFFF_FFFF, j1);
    TimesMono(j1, 0xFFFF_FFFF, 0xFFFF_FFFF);
    TimesIsProduct(0xFFFF_FFFF, 0xFFFF_FFFF);
    TimesMono(x, 0xFFFF_FFFF, w);
    TimesIsProduct(w, 0xFFFF_FFFF);
  }

  lemma SegmentStart(n: nat, a: nat)
    requires n >= 1
    ensures Rem(a, n) <= a && (a >= n ==> a - Rem(a, n) >= n)
  {
    QuotRemSplit(a, n);
    if a >= n {
      TimesMono(1, Quot(a, n), n);
      TimesSmall(1, n);
    }
  }

  /** Addressing is data-independent: Argon2i always, Argon2id in the first half of the first pass. */
  predicate Independent(c: Params, a: nat)
    requires c.lanes > 0
  {
    c.ty == 1 || (c.ty == 2 && a < 2 * c.SegmentLength())
  }

  /** The address block Z, and the word of G(0, G(0, Z)) for column `a`. */
  function AddressWord(c: Params, lane: nat, a: nat): nat
    requires c.Valid() && c.SegmentLength() > 0
  {
    var n := c.SegmentLength();
    var zero := seq(128, i => 0);
    var segment, index := Quot(a, n), Rem(a, n);
    var z := [segment / 4, lane, segment % 4, Times(4 * c.lanes, n), c.passes, c.ty, index / 128 + 1]
             + seq(121, i => 0);
    G(zero, G(zero, z))[index % 128]
  }

  // ---- the memory, section 3.2 ----

  lemma SegmentsLong(c: Params)
    requires c.Valid()
    ensures c.SegmentLength() >= 2
  {
    assert Quot(c.memory, 4 * c.lanes) == 1 + Quot(c.memory - 4 * c.lanes, 4 * c.lanes);
  }

  /** 128 little-endian words. */
  function Block(s: seq<byte>): (b: seq<nat>)
    requires |s| == 1024
    ensures |b| == 128
  {
    seq(128, i requires 0 <= i < 128 => Number64(s, 8 * i))
  }

  function BlockBytes(b: seq<nat>): (s: seq<byte>)
    ensures |s| == 8 * |b|
  {
    if b == [] then [] else Le64(b[0]) + BlockBytes(b[1..])
  }

  /** B[lane][a mod 4n] in pass a div 4n. */
  function B<H(!new)>(alg: Blake2b.Alg<H>, c: Params, lane: nat, a: nat): (b: seq<nat>)
    requires alg.Valid() && c.Valid() && lane < c.lanes
    ensures |b| == 128
    decreases a
  {
    SegmentsLong(c);
    var n := c.SegmentLength();
    if a < 2 then Block(VariableHash(alg, 1024, H0(alg, c) + Le32(a) + Le32(lane)))
    else
      var previous := B(alg, c, lane, a - 1);
      var j := if Independent(c, a) then AddressWord(c, lane, a) else previous[0];
      var l := if a < n then lane else Rem(j / 0x1_0000_0000, c.lanes);
      PickedIsOlder(n, a, l == lane, j % 0x1_0000_0000);
      var block := G(previous, B(alg, c, l, PickedColumn(n, a, l == lane, j % 0x1_0000_0000)));
      if a >= 4 * n && c.version != 0x10 then XorWords(block, B(alg, c, lane, a - 4 * n)) else block
  }

  /** The xor of the last blocks of the first `k` lanes. */
  function C<H(!new)>(alg: Blake2b.Alg<H>, c: Params, k: nat): (b: seq<nat>)
    requires alg.Valid() && c.Valid() && 1 <= k <= c.lanes
    ensures |b| == 128
  {
    SegmentsLong(c);
    var last := B(alg, c, k - 1, LastColumn(c));
    if k == 1 then last else XorWords(C(alg, c, k - 1), last)
  }

  function LastColumn(c: Params): nat
    requires c.Valid()
  {
    SegmentsLong(c);
    TimesMono(1, c.passes, 4 * c.SegmentLength());
    TimesSmall(1, 4 * c.SegmentLength());
    Times(c.passes, 4 * c.SegmentLength()) - 1
  }

  function Tag<H(!new)>(alg: Blake2b.Alg<H>, c: Params): (tag: seq<byte>)
    requires alg.Valid() && c.Valid()
    ensures |tag| == c.tagLength
  {
    VariableHash(alg, c.tagLength, BlockBytes(C(alg, c, c.lanes)))
  }

  // ---- the encoded string ----

  /** Table 1 of RFC 4648. */
  function Letter(v: nat): char
    requires v < 64
  {
    ["ABCDEFGH", "IJKLMNOP", "QRSTUVWX", "YZabcdef", "ghijklmn", "opqrstuv", "wxyz0123", "456789+/"][v / 8][v % 8]
  }

  /** The letters of the base64 digits `x / 64^(n - 1) % 64`, ..., `x % 64`. */
  function Letters(x: nat, n: nat): (t: string)
    ensures |t| == n
  {
    if n == 0 then "" else Letters(x / 64, n - 1) + [Letter(x % 64)]
  }

  /** Base64 of section 4 of RFC 4648 without padding: every three bytes are a number of four digits. */
  function Base64(b: seq<byte>): string {
    if |b| == 0 then ""
    else if |b| == 1 then Letters(0x10 * b[0] as nat, 2)
    else if |b| == 2 then Letters(4 * (0x100 * b[0] as nat + b[1] as nat), 3)
    else Letters(0x1_0000 * b[0] as nat + 0x100 * b[1] as nat + b[2] as nat, 4) + Base64(b[3..])
  }

  function Decimal(x: nat): string { (if x < 10 then "" else Decimal(x / 10)) + ["0123456789"[x % 10]] }

  /** $argon2id$v=19$m=65536,t=3,p=4$<salt>$<tag>, for the three types 0, 1 and 2. */
  function Encoded(c: Params, tag: seq<byte>): string {
    (if c.ty == 0 then "$argon2d$v=" else if c.ty == 1 then "$argon2i$v=" else "$argon2id$v=")
    + Decimal(c.version) + "$m=" + Decimal(c.memory) + ",t=" + Decimal(c.passes) + ",p=" + Decimal(c.lanes)
    + "$" + Base64(c.salt) + "$" + Base64(tag)
  }
}
