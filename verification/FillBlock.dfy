/** `fill_block` of ref.c: the compression function of section 3.5 of RFC 9106, in place and safe under
    aliasing, and the concrete kernel of the memory fill. */
module FillBlock {
  import opened Words
  import opened Blamka
  import opened Recurrence

  type Block = b: seq<u64> | |b| == 128 witness seq(128, i => 0)

  function XorBlock(a: Block, b: Block): Block { seq(128, i requires 0 <= i < 128 => Xor64(a[i], b[i])) }

  // ---- the two index families ----

  /** Cell `j` of round `i`: first runs of sixteen words, then pairs sixteen words apart. */
  datatype Family = Columns | Rows {
    function Cell(i: nat, j: nat): nat {
      match this
      case Columns => 16 * i + j
      case Rows => 2 * i + 16 * (j / 2) + j % 2
    }

    /** The round and the place in it of word `c`. */
    function RoundOf(c: nat): nat { if Columns? then c / 16 else c % 16 / 2 }
    function PlaceOf(c: nat): nat { if Columns? then c % 16 else 2 * (c / 16) + c % 2 }

    function Cells(i: nat): (x: seq<nat>)
      ensures |x| == 16
    {
      seq(16, j requires 0 <= j < 16 => Cell(i, j))
    }
  }

  /** Either family cuts the 128 words into eight sets of sixteen: a cell determines its round and its
      place in it, so that all cells are different, */
  lemma CellOfWord(f: Family, i: nat, j: nat)
    requires i < 8 && j < 16
    ensures f.Cell(i, j) < 128 && f.RoundOf(f.Cell(i, j)) == i && f.PlaceOf(f.Cell(i, j)) == j
  {
    if f.Rows? {
      var c := 2 * i + 16 * (j / 2) + j % 2;
      assert c / 16 == j / 2 && c % 16 == 2 * i + j % 2;
    }
  }

  /** and every word is a cell of some round. */
  lemma WordOfCell(f: Family, c: nat)
    requires c < 128
    ensures f.RoundOf(c) < 8 && f.PlaceOf(c) < 16 && f.Cell(f.RoundOf(c), f.PlaceOf(c)) == c
  {
    if f.Rows? {
      var q, r := c / 16, c % 16;
      assert c == 16 * q + r && r % 2 == c % 2;
      assert (2 * q + c % 2) / 2 == q && (2 * q + c % 2) % 2 == c % 2;
    }
  }

  lemma CellsDistinct(f: Family, i: nat)
    requires i < 8
    ensures Distinct(f.Cells(i)) && Inside(f.Cells(i), 128)
  {
    forall j, k | 0 <= j < k < 16
      ensures f.Cells(i)[j] != f.Cells(i)[k]
    {
      CellOfWord(f, i, j);
      CellOfWord(f, i, k);
    }
    forall j | 0 <= j < 16
      ensures f.Cells(i)[j] < 128
    {
      CellOfWord(f, i, j);
    }
  }

  // ---- a pass of eight rounds, in any order ----

  /** The rounds named by `order`, one after the other. */
  function Pass(v: Block, f: Family, order: seq<nat>): Block
    requires forall n :: 0 <= n < |order| ==> order[n] < 8
  {
    if order == [] then v
    else
      var last := order[|order| - 1];
      CellsDistinct(f, last);
      RoundAt(Pass(v, f, order[..|order| - 1]), f.Cells(last))
  }

  /** What one pass does to each word: round `i` maps the sixteen words of its set to each other. */
  function PassWord(v: Block, f: Family, c: nat): u64
    requires c < 128
  {
    WordOfCell(f, c);
    CellsDistinct(f, f.RoundOf(c));
    Round(Gather(v, f.Cells(f.RoundOf(c))))[f.PlaceOf(c)]
  }

  /** A word is changed by the round of its own set only. */
  lemma RoundWord(u: Block, f: Family, i: nat, c: nat)
    requires i < 8 && c < 128
    ensures Inside(f.Cells(i), 128)
    ensures f.RoundOf(c) != i ==> RoundAt(u, f.Cells(i))[c] == u[c]
    ensures f.RoundOf(c) == i ==>
      f.PlaceOf(c) < 16 && RoundAt(u, f.Cells(i))[c] == Round(Gather(u, f.Cells(i)))[f.PlaceOf(c)]
  {
    hide Round, Gather;
    var x := f.Cells(i);
    CellsDistinct(f, i);
    WordOfCell(f, c);
    if f.RoundOf(c) == i {
      assert x[f.PlaceOf(c)] == c;
      ScatterAt(u, x, Round(Gather(u, x)), f.PlaceOf(c));
    } else if c in x {
      CellOfWord(f, i, Find(x, c));
    }
  }

  lemma {:induction false} PassPointwise(v: Block, f: Family, order: seq<nat>, c: nat)
    requires (forall n :: 0 <= n < |order| ==> order[n] < 8) && Distinct(order) && c < 128
    ensures Pass(v, f, order)[c] == if f.RoundOf(c) in order then PassWord(v, f, c) else v[c]
    decreases |order|, 0
  {
    hide Round, Gather, RoundAt, Family.Cells, Family.RoundOf, Family.PlaceOf;
    if order != [] {
      var front, i := order[..|order| - 1], order[|order| - 1];
      assert order == front + [i];
      var u := Pass(v, f, front);
      PassPointwise(v, f, front, c);
      RoundWord(u, f, i, c);
      SetUntouched(v, f, front, i);
    }
  }

  lemma {:induction false} SetUntouched(v: Block, f: Family, order: seq<nat>, i: nat)
    requires (forall n :: 0 <= n < |order| ==> order[n] < 8) && Distinct(order) && i < 8 && i !in order
    ensures Inside(f.Cells(i), 128)
    ensures Gather(Pass(v, f, order), f.Cells(i)) == Gather(v, f.Cells(i))
    decreases |order|, 1
  {
    CellsDistinct(f, i);
    forall j | 0 <= j < 16
      ensures Pass(v, f, order)[f.Cells(i)[j]] == v[f.Cells(i)[j]]
    {
      CellOfWord(f, i, j);
      PassPointwise(v, f, order, f.Cells(i)[j]);
    }
  }

  /** 0, 1, ..., n - 1. */
  function Upto(n: nat): (order: seq<nat>)
    ensures |order| == n && forall i :: 0 <= i < n ==> order[i] == i
  {
    seq(n, i requires 0 <= i < n => i)
  }

  /** The eight rounds of a pass may run in any order. */
  lemma AnyOrder(v: Block, f: Family, order: seq<nat>)
    requires (forall n :: 0 <= n < |order| ==> order[n] < 8) && Distinct(order)
    requires forall i: nat :: i < 8 ==> i in order
    ensures Pass(v, f, order) == Pass(v, f, Upto(8))
  {
    hide PassWord, Pass;
    forall c | 0 <= c < 128
      ensures Pass(v, f, order)[c] == Pass(v, f, Upto(8))[c]
    {
      WordOfCell(f, c);
      PassPointwise(v, f, order, c);
      assert Upto(8)[f.RoundOf(c)] == f.RoundOf(c);
      PassPointwise(v, f, Upto(8), c);
    }
  }

  /** A pass loses nothing. */
  lemma PassInjective(v: Block, w: Block, f: Family)
    ensures Pass(v, f, Upto(8)) == Pass(w, f, Upto(8)) ==> v == w
  {
    hide Pass, Round, Gather;
    forall c | 0 <= c < 128 && Pass(v, f, Upto(8)) == Pass(w, f, Upto(8))
      ensures v[c] == w[c]
    {
      WordOfCell(f, c);
      var i := f.RoundOf(c);
      CellsDistinct(f, i);
      SetsAgree(v, w, f, i);
      RoundBijective(Gather(v, f.Cells(i)));
      RoundBijective(Gather(w, f.Cells(i)));
      GatheredWord(v, f, i, c);
      GatheredWord(w, f, i, c);
    }
  }

  lemma GatheredWord(v: Block, f: Family, i: nat, c: nat)
    requires c < 128 && f.RoundOf(c) == i
    ensures i < 8 && f.PlaceOf(c) < 16 && Inside(f.Cells(i), 128)
    ensures Gather(v, f.Cells(i))[f.PlaceOf(c)] == v[c]
  {
    WordOfCell(f, c);
    CellsDistinct(f, i);
  }

  lemma SetsAgree(v: Block, w: Block, f: Family, i: nat)
    requires i < 8 && Pass(v, f, Upto(8)) == Pass(w, f, Upto(8))
    ensures Inside(f.Cells(i), 128)
    ensures Round(Gather(v, f.Cells(i))) == Round(Gather(w, f.Cells(i)))
  {
    hide Pass, Round, Gather;
    CellsDistinct(f, i);
    forall j | 0 <= j < 16
      ensures Round(Gather(v, f.Cells(i)))[j] == Round(Gather(w, f.Cells(i)))[j]
    {
      var c := f.Cell(i, j);
      CellOfWord(f, i, j);
      assert Upto(8)[i] == i;
      PassPointwise(v, f, Upto(8), c);
      PassPointwise(w, f, Upto(8), c);
    }
  }

  // ---- the compression function ----

  /** The permutation P: a pass over the columns, then one over the rows. */
  function Permute(r: Block): Block { Pass(Pass(r, Columns, Upto(8)), Rows, Upto(8)) }

  lemma PermuteInjective(r: Block, s: Block)
    ensures Permute(r) == Permute(s) ==> r == s
  {
    hide Pass;
    PassInjective(Pass(r, Columns, Upto(8)), Pass(s, Columns, Upto(8)), Rows);
    PassInjective(r, s, Columns);
  }

  /** G(X, Y) of section 3.5 of RFC 9106: R xor P(R), where R = X xor Y. */
  function Compress(prev: Block, ref: Block): Block {
    var r := XorBlock(ref, prev);
    XorBlock(r, Permute(r))
  }

  // ---- word by word ----

  /** Sixteen consecutive words, */
  function Run16(r: Block, i: nat): (v: seq<u64>)
    requires i < 8
    ensures |v| == 16
  {
    r[16 * i..16 * i + 16]
  }

  /** and eight pairs of words, sixteen apart. */
  function Pairs(q: Block, i: nat): (v: seq<u64>)
    requires i < 8
    ensures |v| == 16
  {
    [q[2 * i], q[2 * i + 1], q[2 * i + 16], q[2 * i + 17], q[2 * i + 32], q[2 * i + 33], q[2 * i + 48], q[2 * i + 49],
     q[2 * i + 64], q[2 * i + 65], q[2 * i + 80], q[2 * i + 81], q[2 * i + 96], q[2 * i + 97], q[2 * i + 112],
     q[2 * i + 113]]
  }

  ghost predicate RunsMixed(r: Block, q: Block) {
    forall i: nat, j: nat {:trigger Round(Run16(r, i))[j]} :: i < 8 && j < 16 ==>
      q[16 * i + j] == Round(Run16(r, i))[j]
  }

  ghost predicate PairsMixed(q: Block, p: Block) {
    forall i: nat, j: nat {:trigger Round(Pairs(q, i))[j]} :: i < 8 && j < 16 ==>
      2 * i + 16 * (j / 2) + j % 2 < 128 && p[2 * i + 16 * (j / 2) + j % 2] == Round(Pairs(q, i))[j]
  }

  /** What `fill_block` leaves in the next block, in terms of the round alone: all runs are mixed, then all
      sets of pairs, and the result is xored with what went in and, if asked, with what was there before. */
  ghost predicate FilledFrom(prev: Block, ref: Block, before: Block, withXor: bool, next: Block) {
    var r := XorBlock(ref, prev);
    exists q: Block, p: Block {:trigger PairsMixed(q, p)} ::
      && RunsMixed(r, q) && PairsMixed(q, p)
      && forall c :: 0 <= c < 128 ==>
           next[c] == if withXor then Xor64(Xor64(r[c], p[c]), before[c]) else Xor64(r[c], p[c])
  }

  lemma FirstPassMixes(r: Block)
    ensures RunsMixed(r, Pass(r, Columns, Upto(8)))
  {
    hide Pass, Round, Gather;
    forall i: nat, j: nat | i < 8 && j < 16
      ensures Pass(r, Columns, Upto(8))[16 * i + j] == Round(Run16(r, i))[j]
    {
      CellOfWord(Columns, i, j);
      PassPointwise(r, Columns, Upto(8), 16 * i + j);
      assert Upto(8)[i] == i;
      CellsDistinct(Columns, i);
      RunGathered(r, i);
    }
  }

  lemma RunGathered(r: Block, i: nat)
    requires i < 8
    ensures Inside(Columns.Cells(i), 128) && Gather(r, Columns.Cells(i)) == Run16(r, i)
  {
    CellsDistinct(Columns, i);
  }

  lemma SecondPassMixes(q: Block)
    ensures PairsMixed(q, Pass(q, Rows, Upto(8)))
  {
    hide Pass, Round, Gather;
    forall i: nat, j: nat | i < 8 && j < 16
      ensures 2 * i + 16 * (j / 2) + j % 2 < 128
      ensures Pass(q, Rows, Upto(8))[2 * i + 16 * (j / 2) + j % 2] == Round(Pairs(q, i))[j]
    {
      CellOfWord(Rows, i, j);
      PassPointwise(q, Rows, Upto(8), Rows.Cell(i, j));
      assert Upto(8)[i] == i;
      PairsGathered(q, i);
    }
  }

  lemma PairsGathered(q: Block, i: nat)
    requires i < 8
    ensures Inside(Rows.Cells(i), 128) && Gather(q, Rows.Cells(i)) == Pairs(q, i)
  {
    CellsDistinct(Rows, i);
  }

  lemma CompressFills(prev: Block, ref: Block, before: Block, withXor: bool)
    ensures var filled := Compress(prev, ref);
      FilledFrom(prev, ref, before, withXor, if withXor then XorBlock(filled, before) else filled)
  {
    hide Pass, Xor64, RunsMixed, PairsMixed;
    var r := XorBlock(ref, prev);
    var q := Pass(r, Columns, Upto(8));
    FirstPassMixes(r);
    SecondPassMixes(q);
  }

  /** These words are all there is to it: nothing else is filled from the same blocks. */
  lemma FilledOnce(prev: Block, ref: Block, before: Block, withXor: bool, next: Block)
    requires FilledFrom(prev, ref, before, withXor, next)
    ensures var filled := Compress(prev, ref); next == if withXor then XorBlock(filled, before) else filled
  {
    hide Pass, Xor64, RunsMixed, PairsMixed, XorBlock;
    var r := XorBlock(ref, prev);
    var q: Block, p: Block :| RunsMixed(r, q) && PairsMixed(q, p)
      && forall c :: 0 <= c < 128 ==>
           next[c] == if withXor then Xor64(Xor64(r[c], p[c]), before[c]) else Xor64(r[c], p[c]);
    FirstPassMixes(r);
    MixedOnce(r, q, Pass(r, Columns, Upto(8)), true);
    SecondPassMixes(q);
    MixedOnce(q, p, Pass(q, Rows, Upto(8)), false);
    XorWordwise(r, p, before, withXor, next);
  }

  lemma MixedOnce(r: Block, a: Block, b: Block, runs: bool)
    requires if runs then RunsMixed(r, a) && RunsMixed(r, b) else PairsMixed(r, a) && PairsMixed(r, b)
    ensures a == b
  {
    hide Round;
    forall c | 0 <= c < 128
      ensures a[c] == b[c]
    {
      if runs {
        assert Round(Run16(r, c / 16))[c % 16] == a[16 * (c / 16) + c % 16];
      } else {
        WordOfCell(Rows, c);
        assert Round(Pairs(r, Rows.RoundOf(c)))[Rows.PlaceOf(c)] == a[Rows.Cell(Rows.RoundOf(c), Rows.PlaceOf(c))];
      }
    }
  }

  lemma XorWordwise(r: Block, p: Block, before: Block, withXor: bool, next: Block)
    requires forall c :: 0 <= c < 128 ==>
      next[c] == if withXor then Xor64(Xor64(r[c], p[c]), before[c]) else Xor64(r[c], p[c])
    ensures next == if withXor then XorBlock(XorBlock(r, p), before) else XorBlock(r, p)
  {
    hide Xor64;
  }

  /** The 8x8 matrix of pairs of words, transposed. */
  function Transposed(v: Block): Block {
    seq(128, c requires 0 <= c < 128 => var i, k := c / 16, c % 16; v[16 * (k / 2) + 2 * i + k % 2])
  }

  lemma TransposedWord(v: Block, i: nat, k: nat)
    requires i < 8 && k < 16
    ensures Transposed(v)[16 * i + k] == v[16 * (k / 2) + 2 * i + k % 2]
  {
    Split16(16 * i + k, i, k);
  }

  /** The row pass is the column pass on the transposed matrix. */
  lemma RowsTransposed(v: Block)
    ensures Pass(v, Rows, Upto(8)) == Transposed(Pass(Transposed(v), Columns, Upto(8)))
  {
    hide Pass, Round, Transposed, Pairs, Run16;
    var left, right := Pass(v, Rows, Upto(8)), Pass(Transposed(v), Columns, Upto(8));
    SecondPassMixes(v);
    FirstPassMixes(Transposed(v));
    forall c | 0 <= c < 128
      ensures left[c] == Transposed(right)[c]
    {
      var i, j := c % 16 / 2, 2 * (c / 16) + c % 2;
      PairsTransposed(v, i);
      PlacesMatch(c);
      assert Round(Pairs(v, i))[j] == left[2 * i + 16 * (j / 2) + j % 2];
      assert Round(Run16(Transposed(v), i))[j] == right[16 * i + j];
      TransposedWord(right, c / 16, c % 16);
    }
  }

  lemma PairsTransposed(v: Block, i: nat)
    requires i < 8
    ensures Run16(Transposed(v), i) == Pairs(v, i)
  {
    hide Transposed, Pairs;
    PairsGathered(v, i);
    forall k | 0 <= k < 16
      ensures Run16(Transposed(v), i)[k] == Pairs(v, i)[k]
    {
      TransposedWord(v, i, k);
    }
  }

  lemma PlacesMatch(c: nat)
    requires c < 128
    ensures var i, j := c % 16 / 2, 2 * (c / 16) + c % 2;
      && i < 8 && j < 16 && 2 * i + 16 * (j / 2) + j % 2 == c && 16 * (c / 16) + c % 16 == c
      && 16 * i + j == 16 * (c % 16 / 2) + 2 * (c / 16) + c % 16 % 2
  {
  }

  /** P is T C T C: two column passes, the second on the transposed matrix. */
  lemma PermuteByTransposing(v: Block)
    ensures Permute(v) == Transposed(Pass(Transposed(Pass(v, Columns, Upto(8))), Columns, Upto(8)))
  {
    hide Pass;
    RowsTransposed(Pass(v, Columns, Upto(8)));
  }

  /** For a fixed previous block, no two reference blocks lead to the same R, nor the same P(R). */
  lemma ReferenceMatters(prev: Block, ref: Block, other: Block)
    ensures Permute(XorBlock(ref, prev)) == Permute(XorBlock(other, prev)) ==> ref == other
  {
    hide Permute;
    PermuteInjective(XorBlock(ref, prev), XorBlock(other, prev));
    forall i | 0 <= i < 128 && XorBlock(ref, prev) == XorBlock(other, prev)
      ensures ref[i] == other[i]
    {
      assert XorBlock(ref, prev)[i] == XorBlock(other, prev)[i];
      XorUndo(ref[i], prev[i]);
      XorUndo(other[i], prev[i]);
    }
  }

  lemma {:induction false} XorExchange(a: nat, b: nat, c: nat)
    ensures Xor(Xor(a, b), c) == Xor(Xor(a, c), b)
    decreases a + b + c
  {
    if a != 0 || b != 0 || c != 0 {
      XorExchange(a / 2, b / 2, c / 2);
      XorSum(a, b, c);
      XorSum(a, c, b);
    }
  }

  lemma XorSum(a: nat, b: nat, c: nat)
    ensures Xor(Xor(a, b), c) == (a + b + c) % 2 + 2 * Xor(Xor(a / 2, b / 2), c / 2)
  {
    hide Xor;
    var half := Xor(a / 2, b / 2);
    var x := Xor(a, b);
    XorStep(a, b);
    Parity(a, b, half);
    assert x == 2 * half + (a + b) % 2 && x / 2 == half;
    XorStep(x, c);
    ParitySum(a, b, c, half);
  }

  lemma ParitySum(a: nat, b: nat, c: nat, half: nat)
    ensures ((a + b) % 2 + 2 * half + c) % 2 == (a + b + c) % 2
  {
  }

  lemma XorBlockExchange(a: Block, b: Block, c: Block)
    ensures XorBlock(XorBlock(a, b), c) == XorBlock(XorBlock(a, c), b)
  {
    forall i | 0 <= i < 128
      ensures XorBlock(XorBlock(a, b), c)[i] == XorBlock(XorBlock(a, c), b)[i]
    {
      XorExchange(a[i], b[i], c[i]);
    }
  }

  // ---- in place ----

  method CopyBlock(dst: array<u64>, src: array<u64>)
    requires dst.Length == src.Length == 128
    modifies dst
    ensures dst[..] == old(src[..])
  {
    forall i | 0 <= i < 128 { dst[i] := src[i]; }
  }

  /** `xor_block`. */
  method XorInto(dst: array<u64>, src: array<u64>)
    requires dst.Length == src.Length == 128
    modifies dst
    ensures dst[..] == XorBlock(old(dst[..]), old(src[..]))
  {
    hide Xor64;
    var i := 0;
    while i < 128
      invariant i <= 128
      invariant forall j :: 0 <= j < i ==> dst[j] == Xor64(old(dst[j]), old(src[j]))
      invariant forall j :: i <= j < 128 ==> dst[j] == old(dst[j]) && src[j] == old(src[j])
    {
      dst[i] := Xor64(dst[i], src[i]);
      i := i + 1;
    }
  }

  method PassInPlace(v: array<u64>, f: Family)
    requires v.Length == 128
    modifies v
    ensures v[..] == Pass(old(v[..]), f, Upto(8))
  {
    hide RoundAt;
    ghost var v0 := v[..];
    var i := 0;
    while i < 8
      invariant i <= 8
      invariant v[..] == Pass(v0, f, Upto(i))
    {
      CellsDistinct(f, i);
      RoundInPlace(v, f.Cells(i));
      assert Upto(i + 1)[..i] == Upto(i);
      i := i + 1;
    }
  }

  /** `fill_block`. The next block may be the same as the reference or the previous block. */
  method FillBlock(prev: array<u64>, ref: array<u64>, next: array<u64>, withXor: bool)
    requires prev.Length == ref.Length == next.Length == 128
    modifies next
    ensures next[..] ==
      var filled := Compress(old(prev[..]), old(ref[..]));
      if withXor then XorBlock(filled, old(next[..])) else filled
    ensures FilledFrom(old(prev[..]), old(ref[..]), old(next[..]), withXor, next[..])
  {
    hide XorBlock, Pass, FilledFrom;
    CompressFills(prev[..], ref[..], next[..], withXor);
    var blockR, blockTmp := new u64[128](i => 0), new u64[128](i => 0);
    CopyBlock(blockR, ref);
    XorInto(blockR, prev);
    CopyBlock(blockTmp, blockR);
    ghost var r := blockR[..];
    if withXor {
      XorInto(blockTmp, next);
    }
    PassInPlace(blockR, Columns);
    PassInPlace(blockR, Rows);
    XorBlockExchange(r, next[..], Permute(r));
    CopyBlock(next, blockTmp);
    XorInto(next, blockR);
  }

  // ---- the concrete kernel ----

  function ZeroBlock(): Block { seq(128, i => 0) }

  /** The input block of the address generator, its counter in word 6. */
  function InputBlock(pass: nat, lane: nat, slice: nat, memoryBlocks: nat, passes: nat, ty: int, counter: nat): Block {
    ZeroBlock()[0 := U64(pass)][1 := U64(lane)][2 := U64(slice)][3 := U64(memoryBlocks)][4 := U64(passes)]
      [5 := U64(ty)][6 := U64(counter)]
  }

  function Word(b: Block, i: nat): nat { if i < 128 then b[i] else 0 }

  /** The kernel of Argon2: every theorem about the memory fill holds of it. */
  function Argon2Kernel(): Kernel<Block> { Kernel(Compress, XorBlock, Word, ZeroBlock(), InputBlock) }

  function CountUp(x: u64): u64 { if x == 0xFFFF_FFFF_FFFF_FFFF then 0 else x + 1 }

  /** `next_addresses` on the real blocks, the address block being both reference and result of the
      second compression. */
  method NextAddressesInPlace(addressBlock: array<u64>, inputBlock: array<u64>, zeroBlock: array<u64>)
    requires addressBlock.Length == inputBlock.Length == zeroBlock.Length == 128
    requires addressBlock != inputBlock && addressBlock != zeroBlock && inputBlock != zeroBlock
    modifies addressBlock, inputBlock
    ensures inputBlock[..] == old(inputBlock[..][6 := CountUp(inputBlock[6])])
    ensures addressBlock[..] == Compress(old(zeroBlock[..]), Compress(old(zeroBlock[..]), inputBlock[..]))
  {
    hide Compress;
    inputBlock[6] := CountUp(inputBlock[6]);
    ghost var input := inputBlock[..];
    FillBlock(zeroBlock, inputBlock, addressBlock, false);
    assert inputBlock[..] == input;
    FillBlock(zeroBlock, addressBlock, addressBlock, false);
  }

  /** Counting up word 6 of an input block gives the input block of the next counter. */
  lemma InputBlockCounts(pass: nat, lane: nat, slice: nat, memoryBlocks: nat, passes: nat, ty: int, counter: nat)
    requires counter + 1 < 0x1_0000_0000_0000_0000
    ensures InputBlock(pass, lane, slice, memoryBlocks, passes, ty, counter)[6 := CountUp(U64(counter))]
         == InputBlock(pass, lane, slice, memoryBlocks, passes, ty, counter + 1)
  {
    assert U64(counter) == counter && U64(counter + 1) == counter + 1;
  }
}
