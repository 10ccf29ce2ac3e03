/** The text of an encoded hash, character by character, against `Reference`. */
module TextRefinement {
  import opened Words
  import opened Base64
  import opened Base64Codec
  import opened Decimal
  import opened EncodedText
  import Reference

  // ---- decimals ----

  lemma DigitLetter(d: nat)
    requires d < 10
    ensures "0123456789"[d] == DigitChar(d)
  {
  }

  lemma {:induction false} SameDecimal(x: nat)
    ensures Dec(x) == Reference.Decimal(x)
  {
    hide DigitChar;
    DigitLetter(x % 10);
    if x >= 10 {
      SameDecimal(x / 10);
    }
  }

  // ---- base64 ----

  /** The alphabet of the source is that of RFC 4648. */
  lemma SameLetter(v: nat)
    requires v < 64
    ensures AlphabetCode(v) as char == Reference.Letter(v)
  {
    var row, j := v / 8, v % 8;
    assert v == 8 * row + j;
    if row < 4 {
      UpperRows(row, j);
    } else {
      LowerRows(row, j);
    }
  }

  lemma UpperRows(row: nat, j: nat)
    requires row < 4 && j < 8
    ensures ["ABCDEFGH", "IJKLMNOP", "QRSTUVWX", "YZabcdef"][row][j] == AlphabetCode(8 * row + j) as char
  {
  }

  lemma LowerRows(row: nat, j: nat)
    requires 4 <= row < 8 && j < 8
    ensures ["ghijklmn", "opqrstuv", "wxyz0123", "456789+/"][row - 4][j] == AlphabetCode(8 * row + j) as char
  {
  }

  lemma LettersStep(x: nat, n: nat)
    ensures Reference.Letters(x, n + 1) == Reference.Letters(x / 64, n) + [Reference.Letter(x % 64)]
  {
  }

  lemma NoLetters(x: nat)
    ensures Reference.Letters(x, 0) == ""
  {
  }

  lemma Letter(v: nat)
    requires v < 64
    ensures Chars([v]) == [Reference.Letter(v)]
  {
    SameLetter(v);
  }

  lemma {:induction false} SameLetters(s: seq<nat>, x: nat, n: nat)
    requires |s| == n && forall i :: 0 <= i < |s| ==> s[i] < 64
    requires x == Digits(s)
    ensures Chars(s) == Reference.Letters(x, n)
  {
    hide Chars, AlphabetCode, Reference.Letters;
    if n == 0 {
      assert s == [];
      NoLetters(x);
      assert |Chars(s)| == 0;
    } else {
      var front, last := s[..n - 1], s[n - 1];
      Split64(x, Digits(front), last);
      SameLetters(front, x / 64, n - 1);
      LettersStep(x, n - 1);
      CharsSplit(s, n - 1);
      assert s[n - 1..] == [last];
      Letter(last);
    }
  }

  /** The number that sextets stand for, most significant first. */
  function Digits(s: seq<nat>): nat { if s == [] then 0 else 64 * Digits(s[..|s| - 1]) + s[|s| - 1] }

  lemma FourDigits(a: byte, b: byte, c: byte)
    ensures Digits(Four(a, b, c)) == 0x1_0000 * a + 0x100 * b + c
  {
    var s := Four(a, b, c);
    DigitsStep(s);
    DigitsStep(s[..3]);
    DigitsStep(s[..2]);
    DigitsStep(s[..1]);
    assert s[..3][..2] == s[..2] && s[..2][..1] == s[..1] && s[..1][..0] == [];
    hide Digits, Four;
    assert Digits(s) == 64 * (64 * (64 * (a / 4) + (a % 4 * 16 + b / 16)) + (b % 16 * 4 + c / 64)) + c % 64 by {
      FourAre(a, b, c);
      NoDigits();
    }
  }

  lemma FourAre(a: byte, b: byte, c: byte)
    ensures Four(a, b, c) == [a / 4, a % 4 * 16 + b / 16, b % 16 * 4 + c / 64, c % 64]
  {
  }

  lemma NoDigits()
    ensures Digits([]) == 0
  {
  }

  lemma DigitsStep(s: seq<nat>)
    requires s != []
    ensures Digits(s) == 64 * Digits(s[..|s| - 1]) + s[|s| - 1]
  {
  }

  lemma TwoDigits(a: byte)
    ensures Digits(Four(a, 0, 0)[..2]) == 0x10 * a
  {
    var s := Four(a, 0, 0)[..2];
    DigitsStep(s);
    DigitsStep(s[..1]);
    NoDigits();
    assert s[..1][..0] == [] && s == [a / 4, a % 4 * 16];
    hide Digits, Four;
  }

  lemma ThreeDigits(a: byte, b: byte)
    ensures Digits(Four(a, b, 0)[..3]) == 4 * (0x100 * a + b)
  {
    var s := Four(a, b, 0)[..3];
    DigitsStep(s);
    DigitsStep(s[..2]);
    DigitsStep(s[..1]);
    NoDigits();
    assert s[..2][..1] == s[..1] && s[..1][..0] == [] && s == [a / 4, a % 4 * 16 + b / 16, b % 16 * 4];
    hide Digits, Four;
  }

  /** The base64 text of the source, bits moved from byte to byte, is that of numbers of three bytes. */
  lemma {:induction false} SameBase64(b: seq<byte>)
    ensures Chars(Sextets(b)) == Reference.Base64(b)
  {
    hide Chars, Four, Digits, Reference.Letters;
    if |b| == 0 {
      assert |Chars(Sextets(b))| == 0;
    } else if |b| == 1 {
      TwoDigits(b[0]);
      SameLetters(Four(b[0], 0, 0)[..2], 0x10 * b[0] as nat, 2);
    } else if |b| == 2 {
      ThreeDigits(b[0], b[1]);
      SameLetters(Four(b[0], b[1], 0)[..3], 4 * (0x100 * b[0] as nat + b[1] as nat), 3);
    } else {
      var group := Four(b[0], b[1], b[2]);
      FourDigits(b[0], b[1], b[2]);
      SameLetters(group, 0x1_0000 * b[0] as nat + 0x100 * b[1] as nat + b[2] as nat, 4);
      SameBase64(b[3..]);
      CharsSplit(Sextets(b), 4);
      assert Sextets(b)[..4] == group && Sextets(b)[4..] == Sextets(b[3..]);
    }
  }

  // ---- the whole text ----

  lemma Reassociated(a: string, b: string, c: string, d: string, e: string, f: string, n: string)
    ensures "$" + (n + ("$v=" + (a + ("$m=" + (b + (",t=" + (c + (",p=" + (d + ("$" + (e + ("$" + (f + "")))))))))))))
         == ("$" + n + "$v=") + a + "$m=" + b + ",t=" + c + ",p=" + d + "$" + e + "$" + f
  {
  }

  lemma Labels(ty: int)
    requires TypeString(ty).Some?
    ensures 0 <= ty <= 2
    ensures "$" + TypeString(ty).value + "$v="
         == if ty == 0 then "$argon2d$v=" else if ty == 1 then "$argon2i$v=" else "$argon2id$v="
  {
  }

  /** The text of a hash is the encoded string of its parameters and tag. */
  lemma SameText(f: Fields, ty: int, c: Reference.Params)
    requires TypeString(ty).Some? && c.ty == ty && c.salt == f.salt
    requires f.costs == Costs(c.version, c.memory, c.passes, c.lanes)
    ensures Text(f, TypeString(ty).value) == Reference.Encoded(c, f.out)
  {
    hide Dec, Chars, Sextets, Reference.Decimal, Reference.Base64, TypeString;
    Labels(ty);
    SameDecimal(c.version);
    SameDecimal(c.memory);
    SameDecimal(c.passes);
    SameDecimal(c.lanes);
    SameBase64(f.salt);
    SameBase64(f.out);
    Reassociated(Dec(c.version), Dec(c.memory), Dec(c.passes), Dec(c.lanes), Chars(Sextets(f.salt)),
      Chars(Sextets(f.out)), TypeString(ty).value);
  }
}
