/** The format of an encoded hash: its printed text and its grammar, and that they are inverse.

    $argon2<type>[$v=<num>]$m=<num>,t=<num>,p=<num>$<salt>$<output> */
module EncodedText {
  import opened Words
  import opened Indexing
  import opened Base64
  import opened Base64Codec
  import opened Decimal

  /** `argon2_type2string` in lower case. */
  function TypeString(ty: int): Option<string> {
    if ty == ARGON2_D then Some("argon2d")
    else if ty == ARGON2_I then Some("argon2i")
    else if ty == ARGON2_ID then Some("argon2id")
    else None
  }

  datatype Costs = Costs(version: nat, mCost: nat, tCost: nat, lanes: nat)
  {
    predicate Words() {
      version <= 0xFFFF_FFFF && mCost <= 0xFFFF_FFFF && tCost <= 0xFFFF_FFFF && lanes <= 0xFFFF_FFFF
    }
  }

  datatype Fields = Fields(costs: Costs, salt: seq<byte>, out: seq<byte>)

  // ---- printing, each piece in front of what follows it ----

  function Number(prefix: string, x: nat, rest: string): string { prefix + (Dec(x) + rest) }

  function Binary(b: seq<byte>, rest: string): string { "$" + (Chars(Sextets(b)) + rest) }

  function CostText(c: Costs, rest: string): string {
    Number("$m=", c.mCost, Number(",t=", c.tCost, Number(",p=", c.lanes, rest)))
  }

  /** From the costs on. */
  function Body(f: Fields, rest: string): string { CostText(f.costs, Binary(f.salt, Binary(f.out, rest))) }

  function Text(f: Fields, name: string): string { "$" + (name + Number("$v=", f.costs.version, Body(f, ""))) }

  /** The older format has no version number; version 0x10 is meant. */
  function OldText(f: Fields, name: string): string { "$" + (name + Body(f, "")) }

  // ---- the grammar ----

  datatype Step<+T> = Fail | Got(value: T, rest: string)

  /** A prefix and a number of 32 bits. */
  function ReadNumber(t: string, prefix: string): Step<nat> {
    if !(prefix <= t) then Fail else
      var r := t[|prefix|..];
      var d := DigitRun(r);
      if Minimal(d) && ValueOf(d) <= 0xFFFF_FFFF then Got(ValueOf(d), r[|d|..]) else Fail
  }

  /** `$` and base64 of at most `cap` bytes. */
  function ReadBinary(t: string, cap: nat): Step<seq<byte>> {
    if !("$" <= t) then Fail else
      var r := t[1..];
      var s := Run(r);
      if Canonical(s) && |CompleteBytes(s)| <= cap then Got(CompleteBytes(s), r[|s|..]) else Fail
  }

  function ReadVersion(t: string): Step<nat> {
    if "$v=" <= t then ReadNumber(t, "$v=") else Got(VERSION_10, t)
  }

  function ReadCosts(t: string, version: nat): Step<Costs> {
    var m := ReadNumber(t, "$m=");
    if m.Fail? then Fail else
      var n := ReadNumber(m.rest, ",t=");
      if n.Fail? then Fail else
        var p := ReadNumber(n.rest, ",p=");
        if p.Fail? then Fail else Got(Costs(version, m.value, n.value, p.value), p.rest)
  }

  function ReadBody(t: string, version: nat, saltCap: nat, outCap: nat): Step<Fields> {
    var c := ReadCosts(t, version);
    if c.Fail? then Fail else
      var salt := ReadBinary(c.rest, saltCap);
      if salt.Fail? then Fail else
        var out := ReadBinary(salt.rest, outCap);
        if out.Fail? then Fail else Got(Fields(c.value, salt.value, out.value), out.rest)
  }

  function Parse(t: string, name: string, saltCap: nat, outCap: nat): Step<Fields> {
    if !("$" <= t && name <= t[1..]) then Fail else
      var v := ReadVersion(t[1..][|name|..]);
      if v.Fail? then Fail else ReadBody(v.rest, v.value, saltCap, outCap)
  }

  // ---- printed pieces are read back ----

  /** What may follow a number or a chunk of base64. */
  predicate Stops(t: string) { DigitRun(t) == "" && Run(t) == [] }

  lemma StopsBefore(t: string)
    requires t == "" || t[0] == '$' || t[0] == ','
    ensures Stops(t)
  {
  }

  lemma ReadPrinted(prefix: string, x: nat, rest: string)
    requires x <= 0xFFFF_FFFF && Stops(rest)
    ensures ReadNumber(Number(prefix, x, rest), prefix) == Got(x, rest)
  {
    DecIsMinimal(x);
    hide Dec, DigitRun, Minimal, ValueOf, Run;
    RunOfDigits(Dec(x), rest);
    assert Number(prefix, x, rest)[|prefix|..] == Dec(x) + rest;
  }

  lemma ReadEncoded(b: seq<byte>, rest: string, cap: nat)
    requires |b| <= cap && Stops(rest)
    ensures ReadBinary(Binary(b, rest), cap) == Got(b, rest)
  {
    hide Chars, Sextets, Run, CompleteBytes, Canonical, DigitRun;
    Base64RoundTrip(b, rest);
    RunOfChars(Sextets(b), rest);
    assert Binary(b, rest)[1..] == Chars(Sextets(b)) + rest;
  }

  lemma ReadCostText(c: Costs, rest: string)
    requires c.Words() && Stops(rest)
    ensures ReadCosts(CostText(c, rest), c.version) == Got(c, rest)
  {
    var three := Number(",p=", c.lanes, rest);
    var two := Number(",t=", c.tCost, three);
    StopsBefore(two);
    StopsBefore(three);
    hide Number, ReadNumber, Stops;
    ReadPrinted("$m=", c.mCost, two);
    ReadPrinted(",t=", c.tCost, three);
    ReadPrinted(",p=", c.lanes, rest);
  }

  lemma ReadBodyText(f: Fields, saltCap: nat, outCap: nat)
    requires f.costs.Words() && |f.salt| <= saltCap && |f.out| <= outCap
    ensures ReadBody(Body(f, ""), f.costs.version, saltCap, outCap) == Got(f, "")
  {
    var last := Binary(f.out, "");
    StopsBefore("");
    StopsBefore(last);
    StopsBefore(Binary(f.salt, last));
    hide Binary, ReadBinary, CostText, ReadCosts, Stops;
    ReadCostText(f.costs, Binary(f.salt, last));
    ReadEncoded(f.salt, last, saltCap);
    ReadEncoded(f.out, "", outCap);
  }

  /** The parser undoes the printer. */
  lemma ParseOfText(f: Fields, name: string, saltCap: nat, outCap: nat)
    requires f.costs.Words() && |f.salt| <= saltCap && |f.out| <= outCap
    ensures Parse(Text(f, name), name, saltCap, outCap) == Got(f, "")
  {
    var body := Body(f, "");
    var versioned := Number("$v=", f.costs.version, body);
    assert "$v=" <= versioned;
    StopsBefore(body);
    ReadPrinted("$v=", f.costs.version, body);
    ReadBodyText(f, saltCap, outCap);
    hide Body, Number, ReadNumber, ReadBody, Stops;
    TypeStripped(name, versioned);
  }

  lemma TypeStripped(name: string, rest: string)
    ensures var t := "$" + (name + rest); "$" <= t && name <= t[1..] && t[1..][|name|..] == rest
  {
    assert ("$" + (name + rest))[1..] == name + rest;
  }

  lemma ParseOfOldText(f: Fields, name: string, saltCap: nat, outCap: nat)
    requires f.costs.Words() && |f.salt| <= saltCap && |f.out| <= outCap && f.costs.version == VERSION_10
    ensures Parse(OldText(f, name), name, saltCap, outCap) == Got(f, "")
  {
    var body := Body(f, "");
    BodyStart(f);
    ReadBodyText(f, saltCap, outCap);
    hide Body, ReadBody;
    TypeStripped(name, body);
  }

  /** No version number where the costs begin. */
  lemma BodyStart(f: Fields)
    ensures "$m=" <= Body(f, "") && !("$v=" <= Body(f, ""))
  {
    hide Dec, Binary;
    assert Body(f, "")[1] == 'm';
  }

  // ---- what is read is what is printed ----

  lemma NumberRead(t: string, prefix: string)
    requires ReadNumber(t, prefix).Got?
    ensures var x := ReadNumber(t, prefix); x.value <= 0xFFFF_FFFF && t == Number(prefix, x.value, x.rest)
  {
    hide Dec, DigitRun, Minimal, ValueOf, AllDigits;
    var r := t[|prefix|..];
    var d := DigitRun(r);
    MinimalIsDec(d);
    assert r == d + r[|d|..];
    assert t == prefix + r;
  }

  lemma BinaryRead(t: string, cap: nat)
    requires ReadBinary(t, cap).Got?
    ensures var b := ReadBinary(t, cap); |b.value| <= cap && t == Binary(b.value, b.rest)
  {
    hide Chars, Sextets, Run, CompleteBytes, Canonical;
    var r := t[1..];
    EncodeDecoded(Run(r));
    RunIsText(r);
    assert r == Chars(Run(r)) + r[|Run(r)|..];
    assert t == "$" + r;
  }

  lemma CostsRead(t: string, version: nat)
    requires version <= 0xFFFF_FFFF && ReadCosts(t, version).Got?
    ensures var c := ReadCosts(t, version);
      c.value.Words() && c.value.version == version && t == CostText(c.value, c.rest)
  {
    hide Number, ReadNumber;
    var m := ReadNumber(t, "$m=");
    NumberRead(t, "$m=");
    var n := ReadNumber(m.rest, ",t=");
    NumberRead(m.rest, ",t=");
    NumberRead(n.rest, ",p=");
  }

  lemma BodyRead(t: string, version: nat, saltCap: nat, outCap: nat)
    requires version <= 0xFFFF_FFFF && ReadBody(t, version, saltCap, outCap).Got?
    ensures var f := ReadBody(t, version, saltCap, outCap);
      && f.value.costs.Words() && f.value.costs.version == version
      && |f.value.salt| <= saltCap && |f.value.out| <= outCap && t == Body(f.value, f.rest)
  {
    hide Binary, ReadBinary, CostText, ReadCosts;
    var c := ReadCosts(t, version);
    CostsRead(t, version);
    var salt := ReadBinary(c.rest, saltCap);
    BinaryRead(c.rest, saltCap);
    BinaryRead(salt.rest, outCap);
  }

  /** What is read fits the capacities and 32 bits. */
  lemma ParsedFits(t: string, name: string, saltCap: nat, outCap: nat)
    requires Parse(t, name, saltCap, outCap).Got?
    ensures var f := Parse(t, name, saltCap, outCap).value;
      f.costs.Words() && |f.salt| <= saltCap && |f.out| <= outCap
  {
    hide Body, ReadBody, Number, ReadNumber;
    var v := t[1..][|name|..];
    if "$v=" <= v {
      NumberRead(v, "$v=");
    }
    BodyRead(ReadVersion(v).rest, ReadVersion(v).value, saltCap, outCap);
  }

  lemma PrefixPart(t: string, name: string)
    requires "$" <= t && name <= t[1..]
    ensures t == "$" + (name + t[1..][|name|..])
  {
  }

  /** The accepted strings are the printed ones: parsing all of `t` as `f` means that `t` is the text of
      `f`, or its text without the version number where that number is the default one. */
  lemma ParseIffPrinted(t: string, name: string, f: Fields, saltCap: nat, outCap: nat)
    ensures Parse(t, name, saltCap, outCap) == Got(f, "") <==>
      && f.costs.Words() && |f.salt| <= saltCap && |f.out| <= outCap
      && (t == Text(f, name) || (t == OldText(f, name) && f.costs.version == VERSION_10))
  {
    if Parse(t, name, saltCap, outCap) == Got(f, "") {
      ParsedIsPrinted(t, name, saltCap, outCap);
    } else if f.costs.Words() && |f.salt| <= saltCap && |f.out| <= outCap {
      hide Parse, Text, OldText;
      if t == Text(f, name) {
        ParseOfText(f, name, saltCap, outCap);
      } else if t == OldText(f, name) && f.costs.version == VERSION_10 {
        ParseOfOldText(f, name, saltCap, outCap);
      }
    }
  }

  lemma ParsedIsPrinted(t: string, name: string, saltCap: nat, outCap: nat)
    requires Parse(t, name, saltCap, outCap).Got? && Parse(t, name, saltCap, outCap).rest == ""
    ensures var f := Parse(t, name, saltCap, outCap).value;
      && f.costs.Words() && |f.salt| <= saltCap && |f.out| <= outCap
      && (t == Text(f, name) || (t == OldText(f, name) && f.costs.version == VERSION_10))
    ensures "$v=" <= t[1..][|name|..] ==> t == Text(Parse(t, name, saltCap, outCap).value, name)
  {
    PrefixPart(t, name);
    hide Body, ReadBody, Number, ReadNumber;
    var v := t[1..][|name|..];
    if "$v=" <= v {
      NumberRead(v, "$v=");
    }
    BodyRead(ReadVersion(v).rest, ReadVersion(v).value, saltCap, outCap);
  }

  /** Re-encoding an accepted string that carries a version number gives the same string. */
  lemma ReEncode(t: string, ty: int, saltCap: nat, outCap: nat)
    requires TypeString(ty).Some?
    ensures var p := Parse(t, TypeString(ty).value, saltCap, outCap);
      p.Got? && p.rest == "" && "$" + (TypeString(ty).value + "$v=") <= t ==> Text(p.value, TypeString(ty).value) == t
  {
    hide Parse, Text, OldText, TypeString;
    var name := TypeString(ty).value;
    var p := Parse(t, name, saltCap, outCap);
    if p.Got? && p.rest == "" && "$" + (name + "$v=") <= t {
      assert "$v=" <= t[1..][|name|..];
      ParsedIsPrinted(t, name, saltCap, outCap);
    }
  }

  /** For any C string that is accepted and carries a version number, this gives the same string if and
      only if it is ASCII. */
  lemma ReEncodeIffAscii(src: string, ty: int, saltCap: nat, outCap: nat)
    requires TypeString(ty).Some? && CString(src)
    ensures var p := Parse(AsRead(src), TypeString(ty).value, saltCap, outCap);
      p.Got? && p.rest == "" && "$" + (TypeString(ty).value + "$v=") <= AsRead(src) ==>
        && Text(p.value, TypeString(ty).value) == AsRead(src)
        && (Text(p.value, TypeString(ty).value) == src <==> Ascii(src))
  {
    hide Parse, Text, TypeString;
    ReEncode(AsRead(src), ty, saltCap, outCap);
  }

  lemma NumberAppend(prefix: string, x: nat, a: string, b: string)
    ensures Number(prefix, x, a) + b == Number(prefix, x, a + b)
  {
    hide Dec;
    assert prefix + (Dec(x) + a) + b == prefix + (Dec(x) + (a + b));
  }

  /** The text up to the salt. */
  lemma TextFromSalt(f: Fields, name: string) returns (head: string)
    ensures Text(f, name) == head + Binary(f.salt, Binary(f.out, ""))
  {
    hide Number, Binary;
    var tail := Binary(f.salt, Binary(f.out, ""));
    NumberAppend(",p=", f.costs.lanes, "", tail);
    NumberAppend(",t=", f.costs.tCost, Number(",p=", f.costs.lanes, ""), tail);
    NumberAppend("$m=", f.costs.mCost, Number(",t=", f.costs.tCost, Number(",p=", f.costs.lanes, "")), tail);
    NumberAppend("$v=", f.costs.version, CostText(f.costs, ""), tail);
    assert "" + tail == tail;
    head := "$" + (name + Number("$v=", f.costs.version, CostText(f.costs, "")));
    assert head + tail == "$" + (name + (Number("$v=", f.costs.version, CostText(f.costs, "")) + tail));
  }

  lemma SlashFirst(b: seq<byte>, rest: string)
    requires b != [] && b[0] == 0xFF
    ensures |Binary(b, rest)| > 1 && Binary(b, rest)[1] == '/'
  {
    SextetsBegin(b);
  }

  lemma SextetsBegin(b: seq<byte>)
    requires b != []
    ensures |Sextets(b)| > 0 && Sextets(b)[0] == b[0] / 4
  {
  }

  /** A string that is accepted, and is not the text of what it is accepted for: one '/' of the text is
      replaced by the byte 0xFF. */
  lemma OtherSpelling(name: string) returns (f: Fields, src: string)
    requires Ascii(name)
    ensures f.costs.Words() && |f.salt| == 8 && |f.out| == 4
    ensures CString(src) && src != Text(f, name) && AsRead(src) == Text(f, name)
    ensures Parse(AsRead(src), name, 8, 4) == Got(f, "")
  {
    var salt: seq<byte> := [0xFF, 0xFF, 0xFF, 0xFF, 0xFF, 0xFF, 0xFF, 0xFF];
    f := Fields(Costs(19, 8, 1, 1), salt, Zeros(4));
    hide Text, Binary, Parse, AsRead, Ascii, CString;
    ParseOfText(f, name, 8, 4);
    TextAscii(f, name);
    var text := Text(f, name);
    var head := TextFromSalt(f, name);
    SlashFirst(f.salt, Binary(f.out, ""));
    src := Respelled(text, |head| + 1);
  }

  lemma Respelled(text: string, i: nat) returns (src: string)
    requires Ascii(text) && i < |text| && text[i] == '/'
    ensures CString(src) && src != text && AsRead(src) == text
  {
    src := text[i := 255 as char];
    assert src[i] != text[i];
    assert forall j :: 0 <= j < |text| ==> AsRead(src)[j] == text[j];
  }

  // ---- no string is accepted under two types ----

  lemma DollarFirst(v: string, saltCap: nat, outCap: nat)
    requires ReadVersion(v).Got? && ReadBody(ReadVersion(v).rest, ReadVersion(v).value, saltCap, outCap).Got?
    ensures v != "" && v[0] == '$'
  {
    hide ReadBinary, DigitRun, Minimal, ValueOf;
    assert "$v=" <= v || "$m=" <= v;
  }

  lemma WithDollar(t: string, name: string, v: string)
    requires "$" <= t && name <= t[1..] && v == t[1..][|name|..] && v != "" && v[0] == '$'
    ensures "$" + (name + "$") <= t
    ensures |t| > 1 + |name|
  {
    PrefixPart(t, name);
    assert v == "$" + v[1..];
    assert t == ("$" + (name + "$")) + v[1..];
  }

  /** The name of the type ends at the next `$`. */
  lemma NameEnds(t: string, name: string, saltCap: nat, outCap: nat)
    requires Parse(t, name, saltCap, outCap).Got?
    ensures |t| > 1 + |name| && "$" + (name + "$") <= t
  {
    var v := t[1..][|name|..];
    DollarFirst(v, saltCap, outCap);
    hide ReadVersion, ReadBody, Parse;
    WithDollar(t, name, v);
  }

  lemma NamesDiffer(t: string, ty: int, other: int)
    requires ty != other && TypeString(ty).Some? && TypeString(other).Some?
    requires "$" + (TypeString(ty).value + "$") <= t
    ensures !("$" + (TypeString(other).value + "$") <= t)
  {
    var a, b := "$" + (TypeString(ty).value + "$"), "$" + (TypeString(other).value + "$");
    assert a[7] != b[7] || a[8] != b[8];
    assert t[7] == a[7] && t[8] == a[8];
  }

  /** What is accepted under one type is rejected under any other, `argon2i` and `argon2id` included. */
  lemma OneTypeOnly(t: string, ty: int, other: int, cap1: nat, cap2: nat, cap3: nat, cap4: nat)
    requires ty != other && TypeString(ty).Some? && TypeString(other).Some?
    ensures Parse(t, TypeString(ty).value, cap1, cap2).Got? ==> Parse(t, TypeString(other).value, cap3, cap4) == Fail
  {
    hide Parse;
    var name, wrong := TypeString(ty).value, TypeString(other).value;
    if Parse(t, name, cap1, cap2).Got? {
      NameEnds(t, name, cap1, cap2);
      NamesDiffer(t, ty, other);
      if Parse(t, wrong, cap3, cap4).Got? {
        NameEnds(t, wrong, cap3, cap4);
      }
    }
  }

  // ---- the type, in letters ----

  /** Exactly types 0, 1 and 2 stand at the head of a string, as argon2d, argon2i and argon2id. */
  predicate Labelled(s: string, ty: int) {
    && 0 <= ty <= 2
    && ("$argon2d$" <= s <==> ty == 0) && ("$argon2i$" <= s <==> ty == 1) && ("$argon2id$" <= s <==> ty == 2)
  }

  /** Reading changes only bytes above 127, into '/'. */
  lemma PrefixAsRead(src: string, p: string)
    requires Ascii(p) && forall i :: 0 <= i < |p| ==> p[i] != '/'
    ensures p <= src <==> p <= AsRead(src)
  {
    var t := AsRead(src);
    if p <= t {
      assert forall i :: 0 <= i < |p| ==> t[i] == p[i] == src[i];
    }
  }

  lemma OneLabel(t: string)
    ensures !("$argon2d$" <= t && "$argon2i$" <= t) && !("$argon2d$" <= t && "$argon2id$" <= t)
    ensures !("$argon2i$" <= t && "$argon2id$" <= t)
  {
    var d, i, id := "$argon2d$", "$argon2i$", "$argon2id$";
    assert d[7] == 'd' && i[7] == 'i' && i[8] == '$' && id[7] == 'i' && id[8] == 'd';
  }

  lemma LabelHolds(t: string, ty: int)
    requires TypeString(ty).Some? && "$" + (TypeString(ty).value + "$") <= t
    ensures Labelled(t, ty)
  {
    assert "$" + ("argon2d" + "$") == "$argon2d$" && "$" + ("argon2i" + "$") == "$argon2i$";
    assert "$" + ("argon2id" + "$") == "$argon2id$";
    OneLabel(t);
  }

  lemma LabelAsRead(src: string, ty: int)
    ensures Labelled(src, ty) <==> Labelled(AsRead(src), ty)
  {
    hide AsRead;
    PrefixAsRead(src, "$argon2d$");
    PrefixAsRead(src, "$argon2i$");
    PrefixAsRead(src, "$argon2id$");
  }

  /** What is accepted bears the label of its type. */
  lemma AcceptedLabel(src: string, ty: int, saltCap: nat, outCap: nat)
    requires TypeString(ty).Some? && Parse(AsRead(src), TypeString(ty).value, saltCap, outCap).Got?
    ensures Labelled(src, ty)
  {
    hide Parse, AsRead, TypeString, Labelled;
    NameEnds(AsRead(src), TypeString(ty).value, saltCap, outCap);
    LabelHolds(AsRead(src), ty);
    LabelAsRead(src, ty);
  }

  /** So does what is printed. */
  lemma PrintedLabel(f: Fields, ty: int, rest: string)
    requires TypeString(ty).Some?
    ensures Labelled(Text(f, TypeString(ty).value) + rest, ty)
  {
    hide Text, TypeString, Labelled;
    LabelFirst(TypeString(ty).value, f, rest);
    LabelHolds(Text(f, TypeString(ty).value) + rest, ty);
  }

  lemma LabelFirst(name: string, f: Fields, rest: string)
    ensures "$" + (name + "$") <= Text(f, name) + rest
  {
    hide Dec, Body;
    assert "$v=" == "$" + "v=";
    assert Text(f, name) + rest == "$" + (name + "$") + ("v=" + (Dec(f.costs.version) + Body(f, "")) + rest);
  }

  // ---- the texts are ASCII, and their length ----

  lemma {:induction false} AsciiConcat(a: string, b: string)
    requires Ascii(a) && Ascii(b)
    ensures Ascii(a + b)
  {
  }

  lemma PiecesAscii(prefix: string, x: nat, b: seq<byte>, rest: string)
    requires Ascii(prefix) && Ascii(rest)
    ensures Ascii(Number(prefix, x, rest)) && Ascii(Binary(b, rest))
  {
    DecIsMinimal(x);
    assert Ascii(Dec(x));
    assert Ascii(Chars(Sextets(b)));
    hide Dec, Chars, Sextets;
    AsciiConcat(Dec(x), rest);
    AsciiConcat(prefix, Dec(x) + rest);
    AsciiConcat(Chars(Sextets(b)), rest);
    AsciiConcat("$", Chars(Sextets(b)) + rest);
  }

  lemma TypeNameAscii(ty: int)
    requires TypeString(ty).Some?
    ensures Ascii(TypeString(ty).value)
  {
  }

  lemma TextAscii(f: Fields, name: string)
    requires Ascii(name)
    ensures Ascii(Text(f, name))
  {
    hide Number, Binary;
    var last := Binary(f.out, "");
    PiecesAscii("", 0, f.out, "");
    PiecesAscii("", 0, f.salt, last);
    var blobs := Binary(f.salt, last);
    PiecesAscii(",p=", f.costs.lanes, [], blobs);
    var three := Number(",p=", f.costs.lanes, blobs);
    PiecesAscii(",t=", f.costs.tCost, [], three);
    var two := Number(",t=", f.costs.tCost, three);
    PiecesAscii("$m=", f.costs.mCost, [], two);
    PiecesAscii("$v=", f.costs.version, [], Body(f, ""));
    AsciiConcat(name, Number("$v=", f.costs.version, Body(f, "")));
    AsciiConcat("$", name + Number("$v=", f.costs.version, Body(f, "")));
  }

  lemma TextLength(f: Fields, name: string)
    ensures |Text(f, name)| == 15 + |name| + |Dec(f.costs.version)| + |Dec(f.costs.mCost)| + |Dec(f.costs.tCost)|
      + |Dec(f.costs.lanes)| + B64Len(|f.salt|) + B64Len(|f.out|)
  {
    hide Dec, B64Len;
  }
}
