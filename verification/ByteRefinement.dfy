/** Little-endian numbers of the model as `Reference` states them, and its reader of the input of H_0. */
module ByteRefinement {
  import opened Words
  import Reference

  lemma LeStep(x: nat, n: nat)
    ensures Le(x, n + 1) == [x % 256] + Le(x / 256, n)
  {
  }

  lemma Quotients(x: nat)
    ensures x / 0x100 / 0x100 == x / 0x1_0000 && x / 0x1_0000 / 0x100 == x / 0x100_0000
    ensures x / 0x100_0000 / 0x100 == x / 0x1_0000_0000
  {
  }

  lemma LeFour(x: nat)
    ensures Le(x, 4) == Reference.Le32(x)
  {
    assert Le(x / 0x1_0000_0000, 0) == [];
    hide Le;
    Quotients(x);
    LeStep(x, 3);
    LeStep(x / 0x100, 2);
    LeStep(x / 0x1_0000, 1);
    LeStep(x / 0x100_0000, 0);
  }

  lemma LeEight(x: nat)
    ensures Le(x, 8) == Reference.Le64(x)
  {
    hide Le, Reference.Le32;
    Quotients(x);
    LeStep(x, 7);
    LeStep(x / 0x100, 6);
    LeStep(x / 0x1_0000, 5);
    LeStep(x / 0x100_0000, 4);
    LeFour(x / 0x1_0000_0000);
    FourBytes(x);
    UpperBytes(x);
  }

  lemma FourBytes(x: nat)
    ensures Reference.Le32(x) == [x % 0x100, x / 0x100 % 0x100, x / 0x1_0000 % 0x100, x / 0x100_0000 % 0x100]
  {
  }

  lemma UpperBytes(x: nat)
    ensures Reference.Le32(x / 0x1_0000_0000)
         == [x / 0x1_0000_0000 % 0x100, x / 0x100_0000_0000 % 0x100, x / 0x1_0000_0000_0000 % 0x100,
             x / 0x100_0000_0000_0000 % 0x100]
  {
    var h := x / 0x1_0000_0000;
    assert h / 0x100 == x / 0x100_0000_0000;
    assert h / 0x1_0000 == x / 0x1_0000_0000_0000;
    assert h / 0x100_0000 == x / 0x100_0000_0000_0000;
  }

  lemma FromLeStep(s: seq<byte>, at: nat, n: nat)
    requires at + n < |s|
    ensures FromLe(s[at..at + n + 1]) == s[at] + 256 * FromLe(s[at + 1..at + 1 + n])
  {
    assert s[at..at + n + 1][1..] == s[at + 1..at + 1 + n];
  }

  lemma FromLeFour(s: seq<byte>, at: nat, n: nat)
    requires at + 4 + n <= |s|
    ensures FromLe(s[at..at + 4 + n]) == Reference.Number32(s, at) + 0x1_0000_0000 * FromLe(s[at + 4..at + 4 + n])
  {
    hide FromLe;
    FromLeStep(s, at, n + 3);
    FromLeStep(s, at + 1, n + 2);
    FromLeStep(s, at + 2, n + 1);
    FromLeStep(s, at + 3, n);
  }

  lemma FromLeEight(s: seq<byte>, at: nat)
    requires at + 8 <= |s|
    ensures FromLe(s[at..at + 8]) == Reference.Number64(s, at)
  {
    FromLeFour(s, at, 4);
    FromLeFour(s, at + 4, 0);
    assert FromLe(s[at + 8..at + 8]) == 0;
  }

  lemma NumberOfBytes(x: nat, rest: seq<byte>)
    requires x < 0x1_0000_0000
    ensures Reference.Number32(Reference.Le32(x) + rest, 0) == x
  {
    var a, b, c := x / 0x100, x / 0x1_0000, x / 0x100_0000;
    assert x == x % 0x100 + 0x100 * a && a == a % 0x100 + 0x100 * b && b == b % 0x100 + 0x100 * c by { Quotients(x); }
  }

  lemma NumberAt(s: seq<byte>, at: nat, x: nat)
    requires x < 0x1_0000_0000 && at + 4 <= |s| && s[at..at + 4] == Reference.Le32(x)
    ensures Reference.Number32(s, at) == x
  {
    NumberOfBytes(x, []);
    var w := Reference.Le32(x);
    hide Reference.Le32;
    assert w + [] == w;
    assert s[at] == s[at..at + 4][0] && s[at + 1] == s[at..at + 4][1];
    assert s[at + 2] == s[at..at + 4][2] && s[at + 3] == s[at..at + 4][3];
  }

  lemma FieldRead(b: seq<byte>, rest: seq<byte>)
    requires |b| < 0x1_0000_0000
    ensures Reference.ReadField(Reference.Le32(|b|) + b + rest) == Some((b, rest))
  {
    hide Reference.Le32, Reference.Number32;
    var s := Reference.Le32(|b|) + b + rest;
    assert s[0..4] == Reference.Le32(|b|);
    NumberAt(s, 0, |b|);
    assert s[4..4 + |b|] == b && s[4 + |b|..] == rest;
  }

  lemma LastFieldRead(b: seq<byte>)
    requires |b| < 0x1_0000_0000
    ensures Reference.ReadField(Reference.Le32(|b|) + b) == Some((b, []))
  {
    hide Reference.Le32, Reference.ReadField;
    FieldRead(b, []);
    assert Reference.Le32(|b|) + b + [] == Reference.Le32(|b|) + b;
  }

  lemma HeadRead(lanes: nat, tagLength: nat, memory: nat, passes: nat, version: nat, ty: nat, rest: seq<byte>)
    requires lanes < 0x1_0000_0000 && tagLength < 0x1_0000_0000 && memory < 0x1_0000_0000
    requires passes < 0x1_0000_0000 && version < 0x1_0000_0000 && ty < 0x1_0000_0000
    ensures var s := Reference.Le32(lanes) + Reference.Le32(tagLength) + Reference.Le32(memory)
        + Reference.Le32(passes) + Reference.Le32(version) + Reference.Le32(ty) + rest;
      && Reference.Number32(s, 0) == lanes && Reference.Number32(s, 4) == tagLength
      && Reference.Number32(s, 8) == memory && Reference.Number32(s, 12) == passes
      && Reference.Number32(s, 16) == version && Reference.Number32(s, 20) == ty && s[24..] == rest
  {
    hide Reference.Le32, Reference.Number32;
    var s := Reference.Le32(lanes) + Reference.Le32(tagLength) + Reference.Le32(memory)
        + Reference.Le32(passes) + Reference.Le32(version) + Reference.Le32(ty) + rest;
    assert s[0..4] == Reference.Le32(lanes) && s[4..8] == Reference.Le32(tagLength);
    assert s[8..12] == Reference.Le32(memory) && s[12..16] == Reference.Le32(passes);
    assert s[16..20] == Reference.Le32(version) && s[20..24] == Reference.Le32(ty);
    NumberAt(s, 0, lanes);
    NumberAt(s, 4, tagLength);
    NumberAt(s, 8, memory);
    NumberAt(s, 12, passes);
    NumberAt(s, 16, version);
    NumberAt(s, 20, ty);
  }
}
