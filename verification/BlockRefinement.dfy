/** The BlaMka round and the block compression of the model are P and G of sections 3.5 and 3.6 of RFC 9106
    as `Reference` states them. */
module BlockRefinement {
  import opened Words
  import opened Blamka
  import opened FillBlock
  import Reference

  // ---- GB ----

  lemma SamePlus(x: u64, y: u64)
    ensures FBlaMka(x, y) == Reference.Plus(x, y)
  {
    TimesIsProduct(x % 0x1_0000_0000, y % 0x1_0000_0000);
  }

  lemma Powers()
    ensures Pow2(1) == 2 && Pow2(16) == 0x1_0000 && Pow2(24) == 0x100_0000 && Pow2(32) == 0x1_0000_0000
    ensures Pow2(40) == 0x100_0000_0000 && Pow2(48) == 0x1_0000_0000_0000 && Pow2(63) == 0x8000_0000_0000_0000
  {
    assert Pow2(8) == 256;
    assert Pow2(16) == 0x1_0000;
    assert Pow2(24) == 0x100_0000;
    assert Pow2(32) == 0x1_0000_0000;
    assert Pow2(40) == 0x100_0000_0000;
    assert Pow2(48) == 0x1_0000_0000_0000;
    assert Pow2(56) == 0x100_0000_0000_0000;
  }

  lemma SameRotation(w: u64, c: nat, p: nat, q: nat)
    requires c <= 64 && Pow2(c) == p && Pow2(64 - c) == q
    ensures Rotr(w, c) == w / p + w % p * q
  {
    hide Rotr, Times, Quot, Rem, Pow2;
    RotrSwapsParts(w, c);
    QuotRemExact(w, p);
    TimesIsProduct(w % p, q);
  }

  lemma Rotations(w: u64)
    ensures Rotr(w, 32) == w / 0x1_0000_0000 + w % 0x1_0000_0000 * 0x1_0000_0000
    ensures Rotr(w, 24) == w / 0x100_0000 + w % 0x100_0000 * 0x100_0000_0000
    ensures Rotr(w, 16) == w / 0x1_0000 + w % 0x1_0000 * 0x1_0000_0000_0000
    ensures Rotr(w, 63) == w / 0x8000_0000_0000_0000 + w % 0x8000_0000_0000_0000 * 2
  {
    hide Rotr, Pow2;
    Powers();
    SameRotation(w, 32, 0x1_0000_0000, 0x1_0000_0000);
    SameRotation(w, 24, 0x100_0000, 0x100_0000_0000);
    SameRotation(w, 16, 0x1_0000, 0x1_0000_0000_0000);
    SameRotation(w, 63, 0x8000_0000_0000_0000, 2);
  }

  lemma FirstHalf(q: Quad)
    ensures var h := HalfG(q, 32, 24);
      && h.a == Reference.Plus(q.a, q.b)
      && (var x := Xor(q.d, h.a); h.d == x / 0x1_0000_0000 + x % 0x1_0000_0000 * 0x1_0000_0000)
      && h.c == Reference.Plus(q.c, h.d)
      && (var y := Xor(q.b, h.c); h.b == y / 0x100_0000 + y % 0x100_0000 * 0x100_0000_0000)
  {
    hide FBlaMka, Rotr, Reference.Plus, Xor;
    var h := HalfG(q, 32, 24);
    SamePlus(q.a, q.b);
    Rotations(Xor64(q.d, h.a));
    SamePlus(q.c, h.d);
    Rotations(Xor64(q.b, h.c));
  }

  lemma SecondHalf(q: Quad)
    ensures var h := HalfG(q, 16, 63);
      && h.a == Reference.Plus(q.a, q.b)
      && (var x := Xor(q.d, h.a); h.d == x / 0x1_0000 + x % 0x1_0000 * 0x1_0000_0000_0000)
      && h.c == Reference.Plus(q.c, h.d)
      && (var y := Xor(q.b, h.c); h.b == y / 0x8000_0000_0000_0000 + y % 0x8000_0000_0000_0000 * 2)
  {
    hide FBlaMka, Rotr, Reference.Plus, Xor;
    var h := HalfG(q, 16, 63);
    SamePlus(q.a, q.b);
    Rotations(Xor64(q.d, h.a));
    SamePlus(q.c, h.d);
    Rotations(Xor64(q.b, h.c));
  }

  /** The macro G of the source on four words of a vector is GB. */
  lemma SameMix(v: seq<u64>, p: Four)
    requires p.In(|v|)
    ensures Put(v, p, G(Pick(v, p))) == Reference.Mix(v, p.i, p.j, p.k, p.l)
  {
    hide HalfG, Reference.Plus, Xor;
    var q := Pick(v, p);
    FirstHalf(q);
    SecondHalf(HalfG(q, 32, 24));
  }

  // ---- P ----

  lemma StepsUnfold(v: seq<u64>, n: nat)
    requires |v| == 16 && n > 0
    ensures Steps(v, n) == Put(Steps(v, n - 1), Positions(n - 1), G(Pick(Steps(v, n - 1), Positions(n - 1))))
  {
  }

  lemma SameStep(v: seq<u64>, n: nat, p: Four)
    requires |v| == 16 && n > 0 && Positions(n - 1) == p
    ensures p.In(16) && Steps(v, n) == Reference.Mix(Steps(v, n - 1), p.i, p.j, p.k, p.l)
  {
    hide G, Put, Pick, Steps, Reference.Mix;
    StepsUnfold(v, n);
    SameMix(Steps(v, n - 1), p);
  }

  lemma ColumnSteps(v: seq<u64>)
    requires |v| == 16
    ensures Steps(v, 4)
         == Reference.Mix(Reference.Mix(Reference.Mix(Reference.Mix(v, 0, 4, 8, 12), 1, 5, 9, 13), 2, 6, 10, 14),
                          3, 7, 11, 15)
  {
    assert Steps(v, 0) == v;
    hide Steps, Reference.Mix;
    SameStep(v, 1, Four(0, 4, 8, 12));
    SameStep(v, 2, Four(1, 5, 9, 13));
    SameStep(v, 3, Four(2, 6, 10, 14));
    SameStep(v, 4, Four(3, 7, 11, 15));
  }

  lemma DiagonalSteps(v: seq<u64>)
    requires |v| == 16
    ensures Steps(v, 8)
         == Reference.Mix(Reference.Mix(Reference.Mix(Reference.Mix(Steps(v, 4), 0, 5, 10, 15), 1, 6, 11, 12),
                                        2, 7, 8, 13), 3, 4, 9, 14)
  {
    hide Steps, Reference.Mix;
    SameStep(v, 5, Four(0, 5, 10, 15));
    SameStep(v, 6, Four(1, 6, 11, 12));
    SameStep(v, 7, Four(2, 7, 8, 13));
    SameStep(v, 8, Four(3, 4, 9, 14));
  }

  /** The round is P. */
  lemma SameRound(v: seq<u64>)
    requires |v| == 16
    ensures Round(v) == Reference.P(v)
  {
    hide Steps, Reference.Mix;
    ColumnSteps(v);
    DiagonalSteps(v);
  }

  // ---- the two passes ----

  lemma SameRows(r: Block)
    ensures Pass(r, Columns, Upto(8)) == Reference.Rows(r)
  {
    hide Pass, Round, Reference.P;
    var q := Pass(r, Columns, Upto(8));
    FirstPassMixes(r);
    forall c | 0 <= c < 128
      ensures q[c] == Reference.Rows(r)[c]
    {
      assert Round(Run16(r, c / 16))[c % 16] == q[16 * (c / 16) + c % 16];
      SameRound(Run16(r, c / 16));
    }
  }

  lemma SameColumns(q: Block)
    ensures Pass(q, Rows, Upto(8)) == Reference.Columns(q)
  {
    hide Pass, Round, Pairs, Reference.P, Reference.Column;
    var p := Pass(q, Rows, Upto(8));
    SecondPassMixes(q);
    forall c | 0 <= c < 128
      ensures p[c] == Reference.Columns(q)[c]
    {
      var i, j := c % 16 / 2, 2 * (c / 16) + c % 16 % 2;
      PlaceInColumn(c);
      assert Round(Pairs(q, i))[j] == p[2 * i + 16 * (j / 2) + j % 2];
      SameRound(Pairs(q, i));
      SameColumn(q, i);
    }
  }

  lemma SameColumn(q: Block, i: nat)
    requires i < 8
    ensures Pairs(q, i) == Reference.Column(q, i)
  {
  }

  lemma PlaceInColumn(c: nat)
    requires c < 128
    ensures var i, j := c % 16 / 2, 2 * (c / 16) + c % 16 % 2;
      i < 8 && j < 16 && 2 * i + 16 * (j / 2) + j % 2 == c
  {
  }

  lemma SameXor(a: Block, b: Block)
    ensures XorBlock(a, b) == Reference.XorWords(a, b) == Reference.XorWords(b, a)
  {
    forall i | 0 <= i < 128
      ensures Reference.XorWords(a, b)[i] == Reference.XorWords(b, a)[i]
    {
      XorCommutes(a[i], b[i]);
    }
  }

  /** The block compression is G. */
  lemma SameCompress(x: Block, y: Block)
    ensures Compress(x, y) == Reference.G(x, y)
  {
    hide Pass, XorBlock, Reference.XorWords, Reference.Rows, Reference.Columns;
    var r := XorBlock(y, x);
    SameXor(y, x);
    SameRows(r);
    SameColumns(Pass(r, Columns, Upto(8)));
    SameXor(r, Permute(r));
  }
}
