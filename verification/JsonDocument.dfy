/** What JSON.stringify prints is a document of RFC 8259 for the value, its strings as short as they can be. */
module JsonDocument {
  import opened Options
  import opened Json
  import opened JsonPrinter
  import opened JsonImage
  import opened JsonStrings
  import opened JsonTokens
  import opened RfcTokens
  import opened JsonGrammar
  import opened DecimalText
  import DecimalLiterals
  import Binary64
  import DecimalDigits
  import Dtoa
  import FreeFormat
  import NumberToString
  import JsonNumbers

  // ---------- strings ----------

  /** Section 2.1 of RFC 2781: the 16-bit units of a code point. */
  function UnitsOf(c: Point): (u: seq<nat>)
    ensures |u| > 0
  {
    if c < 0x10000 then [c] else [0xD800 + (c - 0x10000) / 0x400, 0xDC00 + (c - 0x10000) % 0x400]
  }

  function Units(w: seq<Point>): seq<nat> { if w == [] then [] else UnitsOf(w[0]) + Units(w[1..]) }

  /** The two halves of a code point, put together, give it back. */
  lemma HalvesJoin(c: Point)
    requires c >= 0x10000
    ensures var u := UnitsOf(c); IsHigh(u[0]) && IsLow(u[1]) && Astral(u[0], u[1]) == c
  {}

  lemma JoinedHalves(high: Point, low: Point)
    requires IsHigh(high) && IsLow(low)
    ensures UnitsOf(Astral(high, low)) == [high, low]
  {}

  lemma {:induction false} UnitsJoin(a: seq<Point>, b: seq<Point>)
    ensures Units(a + b) == Units(a) + Units(b)
  {
    if a == [] {
      assert a + b == b;
    } else {
      assert (a + b)[1..] == a[1..] + b;
      UnitsJoin(a[1..], b);
    }
  }

  /** Joining strings joins their 16-bit units. */
  lemma ConcatUnits(a: JsString, b: JsString)
    ensures Units(Concat(a, b)) == Units(a) + Units(b)
  {
    hide UnitsOf;
    if Meet(a, b) {
      var n := |a| - 1;
      var c := Astral(a[n], b[0]);
      JoinedHalves(a[n], b[0]);
      OneUnit(a[n]);
      OneUnit(b[0]);
      UnitsJoin(a[..n], [a[n]]);
      assert a == a[..n] + [a[n]];
      assert Units([a[n]]) == [a[n]] by { assert [a[n]][1..] == []; }
      assert Units([c]) == [a[n], b[0]] by { assert [c][1..] == []; }
      UnitsJoin(a[..n], [c]);
      UnitsJoin(a[..n] + [c], b[1..]);
    } else {
      UnitsJoin(a, b);
    }
  }

  lemma OneUnit(c: Point)
    requires c < 0x10000
    ensures UnitsOf(c) == [c]
  {}

  /** No two strings have the same units. */
  lemma {:induction false} UnitsOnce(a: JsString, b: JsString)
    requires Units(a) == Units(b)
    ensures a == b
  {
    hide UnitsOf;
    if a != [] && b != [] {
      TailFormed(a);
      TailFormed(b);
      FirstUnit(a, b);
      var u := UnitsOf(a[0]);
      assert Units(a)[|u|..] == Units(a[1..]) && Units(b)[|u|..] == Units(b[1..]);
      UnitsOnce(a[1..], b[1..]);
      assert a == [a[0]] + a[1..] && b == [b[0]] + b[1..];
    }
  }

  lemma FirstUnit(a: JsString, b: JsString)
    requires a != [] && b != [] && Units(a) == Units(b)
    ensures a[0] == b[0]
  {
    hide Units;
    StartUnits(a);
    StartUnits(b);
    if a[0] >= 0x10000 { HalvesJoin(a[0]); }
    if b[0] >= 0x10000 { HalvesJoin(b[0]); }
  }

  /** The units of a string begin with those of its first character, and a high surrogate alone has no low one behind it. */
  lemma StartUnits(a: JsString)
    requires a != []
    ensures var u := UnitsOf(a[0]);
            && |u| <= |Units(a)| && Units(a)[..|u|] == u && Units(a)[0] == u[0]
            && (IsHigh(a[0]) && |Units(a)| > 1 ==> !IsLow(Units(a)[1]))
            && (a[0] >= 0x10000 ==> Units(a)[1] == u[1])
  {
    if |a| > 1 {
      var v := UnitsOf(a[1]);
      assert a[1..][0] == a[1];
      assert Units(a) == UnitsOf(a[0]) + (v + Units(a[1..][1..]));
    } else {
      assert a[1..] == [];
    }
  }

  /** A character is printed as itself or escaped. */
  lemma CharTextMeans(c: Point)
    ensures CharMeans(CharText(c), c)
  {
    if EscapeLetter(c).None? && (c < 32 || IsSurrogate(c)) {
      var w := CharText(c);
      assert w[2..] == Hex4(c);
      Hex4Means(c);
    }
  }

  lemma Hex4Means(n: nat)
    requires n < 0x10000
    ensures IsHex(Hex4(n)) && HexNumber(Hex4(n)) == n
  {
    hide HexOf, HexValue, HexDigit, HexNumber;
    var h := Hex4(n);
    Hex4Value(n);
    forall k | 0 <= k < 4 ensures HexOf(h[k]).Some? { HexAgrees(h[k]); }
    HexNumberOf(h);
  }

  /** What stands between the quotes. */
  lemma {:induction false} QuoteInner(w: seq<Point>) returns (inner: string)
    ensures Quote(w) == inner + "\"" && CharsMean(inner, w)
  {
    hide CharText, CharMeans;
    if w == [] {
      inner := [];
    } else {
      var rest := QuoteInner(w[1..]);
      var x := CharText(w[0]);
      inner := x + rest;
      CharTextMeans(w[0]);
      assert inner[..|x|] == x && inner[|x|..] == rest;
      assert x + (rest + "\"") == x + rest + "\"";
    }
  }

  lemma {:induction false} PairedAlready(w: JsString)
    ensures Paired(w) == w
  {
    if w != [] {
      TailFormed(w);
      PairedAlready(w[1..]);
      assert [w[0]] + w[1..] == w;
    }
  }

  /** The text of a string is a string of section 7 that means it. */
  lemma QuotedMeans(v: JsString)
    ensures StringToken("\"" + Quote(v), v)
  {
    hide CharsMean, Paired, Quote;
    var inner := QuoteInner(v);
    var w := "\"" + Quote(v);
    assert w == "\"" + inner + "\"";
    assert w[1..|w| - 1] == inner;
    PairedAlready(v);
  }

  lemma CharShortest(x: string, c: Point)
    requires CharMeans(x, c)
    ensures |CharText(c)| <= |x|
  {
    hide HexNumber;
    if |x| == 2 { EscapesShort(x[1], c); }
  }

  lemma EscapesShort(e: char, c: Point)
    requires EscapeOf(e) == Some(c)
    ensures |CharText(c)| <= 2
  {}

  /** Joining a character makes no longer text. */
  lemma JoinedShort(c: Point, w: JsString)
    ensures |Quote(Concat([c], w))| <= |CharText(c)| + |Quote(w)|
  {
    var v := Concat([c], w);
    if Meet([c], w) {
      assert v == [Astral(c, w[0])] + w[1..];
      assert v[0] == Astral(c, w[0]) && v[1..] == w[1..];
      assert |CharText(v[0])| == 1;
    } else {
      assert v[0] == c && v[1..] == w;
    }
  }

  lemma {:induction false} InnerShortest(inner: string, codes: seq<Point>)
    requires CharsMean(inner, codes)
    ensures |Quote(Paired(codes))| <= |inner| + 1
    decreases |codes|
  {
    hide CharMeans, CharText, Concat;
    if codes != [] {
      var k: nat :| k <= |inner| && CharMeans(inner[..k], codes[0]) && CharsMean(inner[k..], codes[1..]);
      InnerShortest(inner[k..], codes[1..]);
      CharShortest(inner[..k], codes[0]);
      JoinedShort(codes[0], Paired(codes[1..]));
    }
  }

  /** No string of RFC 8259 that means the same is shorter. */
  lemma QuotedShortest(v: JsString, w: string)
    requires StringToken(w, v)
    ensures |"\"" + Quote(v)| <= |w|
  {
    hide CharsMean, Paired, Quote;
    var codes :| CharsMean(w[1..|w| - 1], codes) && v == Paired(codes);
    InnerShortest(w[1..|w| - 1], codes);
  }

  // ---------- numbers ----------

  lemma ZeroesRead(n: int)
    requires n >= 0
    ensures AllDigits(Dtoa.Zeros(n)) && (n > 0 ==> Dtoa.Zeros(n) != [])
  {}

  lemma DigitsJoin(a: string, b: string)
    requires AllDigits(a) && AllDigits(b)
    ensures AllDigits(a + b)
  {}

  /** The exponent part of a text of section 9.8.1 is one of RFC 8259. */
  lemma ExponentSpelled(e: nat, negative: bool)
    ensures DecimalLiterals.IsExponent(NumberToString.ExponentPart(e, negative))
  {
    hide DecimalDigits.Dec, Num;
    DecimalDigits.DecNum(e);
    var w := NumberToString.ExponentPart(e, negative);
    var sign: string := if negative then "-" else "+";
    assert w == "e" + sign + DecimalDigits.Dec(e);
    assert w[2..] == DecimalDigits.Dec(e) && w[1..][0] == sign[0];
  }

  lemma NoExponentPart()
    ensures DecimalLiterals.IsExponent([])
  {}

  /** A text of section 9.8.1 is a number of RFC 8259. */
  lemma ToStringSpelled(negative: bool, d: string, n: int)
    requires NumberToString.Significant(d)
    ensures IsNumberToken(Dtoa.Sign(negative) + NumberToString.ToStringText(d, n))
  {
    hide DecimalLiterals.IsExponent, IsNumberToken, NumberToString.Significant, NumberToString.WithExponent;
    var k, minus := |d|, Dtoa.Sign(negative);
    if k <= n <= 21 {
      WholeSpelled(minus, d, n);
    } else if 0 < n <= 21 {
      PointSpelled(minus, d, n);
    } else if -6 < n <= 0 {
      SmallSpelled(minus, d, n);
    } else {
      ScientificSpelled(minus, d, n);
    }
  }

  lemma WholeSpelled(minus: string, d: string, n: int)
    requires NumberToString.Significant(d) && (minus == [] || minus == "-") && |d| <= n
    ensures IsNumberToken(minus + (d + Dtoa.Zeros(n - |d|)))
  {
    hide DecimalLiterals.IsExponent, IsNumberToken;
    NoExponentPart();
    ZeroesRead(n - |d|);
    DigitsJoin(d, Dtoa.Zeros(n - |d|));
    SpelledAs(Spelling(minus, d + Dtoa.Zeros(n - |d|), [], []));
  }

  lemma PointSpelled(minus: string, d: string, n: int)
    requires NumberToString.Significant(d) && (minus == [] || minus == "-") && 0 < n < |d|
    ensures IsNumberToken(minus + (d[..n] + "." + d[n..]))
  {
    hide DecimalLiterals.IsExponent, IsNumberToken;
    NoExponentPart();
    assert ("." + d[n..])[1..] == d[n..];
    assert d[..n] + "." + d[n..] == d[..n] + ("." + d[n..]);
    SpelledAs(Spelling(minus, d[..n], "." + d[n..], []));
  }

  lemma SmallSpelled(minus: string, d: string, n: int)
    requires NumberToString.Significant(d) && (minus == [] || minus == "-") && n <= 0
    ensures IsNumberToken(minus + ("0." + Dtoa.Zeros(-n) + d))
  {
    hide DecimalLiterals.IsExponent, IsNumberToken;
    NoExponentPart();
    ZeroesRead(-n);
    DigitsJoin(Dtoa.Zeros(-n), d);
    var frac := "." + (Dtoa.Zeros(-n) + d);
    assert frac[1..] == Dtoa.Zeros(-n) + d;
    assert "0." + Dtoa.Zeros(-n) + d == "0" + frac;
    SpelledAs(Spelling(minus, "0", frac, []));
  }

  lemma ScientificSpelled(minus: string, d: string, n: int)
    requires NumberToString.Significant(d) && (minus == [] || minus == "-")
    ensures IsNumberToken(minus + NumberToString.WithExponent(d, n))
  {
    hide DecimalLiterals.IsExponent, IsNumberToken, NumberToString.ExponentPart;
    var exp := if n - 1 < 0 then NumberToString.ExponentPart(1 - n, true) else NumberToString.ExponentPart(n - 1, false);
    if n - 1 < 0 { ExponentSpelled(1 - n, true); } else { ExponentSpelled(n - 1, false); }
    assert d == [d[0]] + d[1..];
    var frac: string := if |d| == 1 then [] else "." + d[1..];
    assert |d| > 1 ==> frac[1..] == d[1..];
    var whole := [d[0]];
    assert whole == (if |d| == 1 then d else [d[0]]);
    SpelledAs(Spelling(minus, whole, frac, exp));
    assert |d| == 1 ==> whole + [] == d;
    assert NumberToString.WithExponent(d, n) == whole + frac + exp;
  }

  lemma SpelledAs(x: Spelling)
    requires IsNumber(x)
    ensures IsNumberToken(x.minus + (x.whole + x.frac + x.exp))
    ensures x.frac == [] && x.exp == [] ==> IsNumberToken(x.minus + x.whole)
    ensures x.exp == [] ==> IsNumberToken(x.minus + (x.whole + x.frac))
  {
    hide DecimalLiterals.IsExponent, IsFraction, IsInteger;
    assert Written(x) == x.minus + (x.whole + x.frac + x.exp);
    if x.exp == [] { assert Written(x) == x.minus + (x.whole + x.frac); }
    if x.frac == [] && x.exp == [] { assert Written(x) == x.minus + x.whole; }
  }

  lemma PrintedSpelled(w: string, n: Bits64)
    requires IsFinite(n) && JsonNumbers.IsNumberText(w, n)
    ensures IsNumberToken(w)
  {
    hide IsNumberToken, NumberToString.ToStringText, NumberToString.Significant, Dtoa.FreeText, Dtoa.IsTextOf, FreeFormat.FloatOf;
    var mag := JsonNumbers.Magnitude(n);
    if mag == 0 {
      NumberToString.FreeLayout("0", 1);
      ZeroSpelled();
    } else {
      var d, e := NumberToString.ToStringExact(w, JsonNumbers.IsNegative(n), mag);
      ToStringSpelled(JsonNumbers.IsNegative(n), d, e);
    }
  }

  lemma ZeroSpelled()
    ensures IsNumberToken(NumberToString.ToStringText("0", 1))
  {
    hide IsNumberToken;
    NoExponentPart();
    assert NumberToString.ToStringText("0", 1) == "0" + Dtoa.Zeros(0) == "0";
    SpelledAs(Spelling([], "0", [], []));
    assert [] + "0" == "0";
  }

  /** The text of a finite number is a number of section 6 that means it; minus zero means zero. */
  lemma PrintedMeans(w: string, n: Bits64)
    requires IsFinite(n) && JsonNumbers.IsNumberText(w, n)
    ensures NumberToken(w, if IsMinusZero(n) then 0 else n)
  {
    hide IsNumberToken, NumberToken, JsonNumbers.IsNumberText, JsonNumbers.NumberAt;
    PrintedSpelled(w, n);
    assert w[0..0 + |w|] == w;
    JsonNumbers.NumberReadsBack(w, n, w, 0);
    NumberRead(w, 0, if IsMinusZero(n) then 0 else n, |w|);
  }

  // ---------- documents ----------

  /** Where the text of a plain value stands, the grammar derives the value, without a blank in front. */
  lemma {:induction false} TextDerives(t: Tokens, v: Value, s: string, p: nat)
    requires OfEngine(t) && RoundTripping(t) && Plain(v) && Here(s, p, Text(t, v))
    ensures Derives(s, p, v, p + |Text(t, v)|)
    decreases v, 1
  {
    hide OfEngine, RoundTripping, ElemsText, MembersText, ElemsDerive, MembersDerive, Here;
    var q: nat := p + |Text(t, v)|;
    FirstChar(t, v);
    HereFirst(s, p, Text(t, v));
    match v {
      case Arr(elems) =>
        Json.ArrText(t, elems, s, p);
        if elems == [] { ClosedAt(s, p + 1, ']'); } else { ElemsTextDerive(t, elems, s, p + 1); }
      case Obj(members) =>
        Json.ObjText(t, members, s, p);
        if members == [] { ClosedAt(s, p + 1, '}'); } else { MembersTextDerive(t, members, s, p + 1); }
      case _ => ScalarDerives(t, v, s, p);
    }
    StandsAt(s, p, v, q);
  }

  lemma StandsAt(s: string, p: nat, v: Value, q: nat)
    requires Derived(s, p, v, q)
    ensures Derives(s, p, v, q)
  {
    hide Derived;
    assert p <= |s| by { DerivedInside(s, p, v, q); }
    assert Blank(s, p, p);
  }

  lemma DerivedInside(s: string, p: nat, v: Value, q: nat)
    requires Derived(s, p, v, q)
    ensures p < |s|
  {}

  lemma ClosedAt(s: string, p: nat, c: char)
    requires Json.At(s, p) == c && (c == ']' || c == '}' || c == ',' || c == ':')
    ensures p < |s| && Mark(s, p, c, p + 1)
  {}

  lemma ScalarDerives(t: Tokens, v: Value, s: string, p: nat)
    requires OfEngine(t) && Plain(v) && !v.Arr? && !v.Obj? && Here(s, p, Text(t, v)) && Text(t, v) != []
    ensures Derived(s, p, v, p + |Text(t, v)|)
  {
    hide NumberToken, StringToken, JsonNumbers.IsNumberText, ReadByEngine, JsonNumbers.TextFor;
    var w := Text(t, v);
    assert s[p..p + |w|] == w;
    match v
    case Number(n) =>
      Writing(t, n);
      PrintedMeans(w, n);
    case Str(c) => QuotedMeans(c);
    case _ =>
  }

  lemma {:induction false} ElemsTextDerive(t: Tokens, elems: seq<Value>, s: string, p: nat)
    requires OfEngine(t) && RoundTripping(t) && elems != [] && forall k :: 0 <= k < |elems| ==> Plain(elems[k])
    requires Here(s, p, ElemsText(t, elems, true) + "]")
    ensures ElemsDerive(s, p, elems, p + |ElemsText(t, elems, true)| + 1)
    decreases elems, 0
  {
    hide OfEngine, RoundTripping, Text, ElemsText, Derives, Mark, Here, Plain, MembersDerive;
    var rest, m := elems[1..], p + |Text(t, elems[0])|;
    FirstElem(t, elems, s, p);
    TextDerives(t, elems[0], s, p);
    TailOfElems(t, rest, s, m);
    ClosedAt(s, m, Json.At(s, m));
    assert After(|elems|, ']') == Json.At(s, m);
    if rest != [] { ElemsTextDerive(t, rest, s, m + 1); }
  }

  lemma {:induction false} MembersTextDerive(t: Tokens, members: seq<Member>, s: string, p: nat)
    requires OfEngine(t) && RoundTripping(t) && members != [] && forall k :: 0 <= k < |members| ==> Plain(members[k].value)
    requires Here(s, p, MembersText(t, members, true) + "}")
    ensures MembersDerive(s, p, members, p + |MembersText(t, members, true)| + 1)
    decreases members, 0
  {
    hide OfEngine, RoundTripping, Text, MembersText, Derives, KeyDerives, Mark, Here, Plain, ElemsDerive;
    var m0, rest := members[0], members[1..];
    assert Plain(m0.value) && m0 in members;
    FirstMember(t, members, s, p);
    var i := p + |t.strText(m0.key)| + 1;
    var m := i + |Text(t, m0.value)|;
    KeyTextDerives(t, m0.key, s, p);
    TextDerives(t, m0.value, s, i);
    TailOfMembers(t, rest, s, m);
    ClosedAt(s, m, Json.At(s, m));
    assert After(|members|, '}') == Json.At(s, m);
    if rest != [] { MembersTextDerive(t, rest, s, m + 1); }
  }

  lemma KeyTextDerives(t: Tokens, key: JsString, s: string, p: nat)
    requires OfEngine(t) && Here(s, p, t.strText(key) + ":")
    ensures KeyDerives(s, p, key, p + |t.strText(key)| + 1)
  {
    hide StringToken, ReadByEngine, Mark, Here;
    var w := t.strText(key);
    QuotedMeans(key);
    HereParts(s, p, w, ":");
    HereFirst(s, p + |w|, ":");
    ClosedAt(s, p + |w|, ':');
    HereIs(s, p, w);
    KeyStands(s, p, p, p + |w|, key, p + |w| + 1);
  }

  lemma HereIs(s: string, p: nat, w: string)
    requires Here(s, p, w)
    ensures p + |w| <= |s| && s[p..p + |w|] == w && Blank(s, p, p)
  {}

  /** What JSON.stringify prints is a document of RFC 8259 for the image of the value. */
  lemma StringifyIsDocument(t: Tokens, v: Value)
    requires OfEngine(t) && KeyedOnce(v)
    ensures IsDocument(Text(t, v), Image(v)) && Merged(Image(v)) == Image(v)
  {
    hide OfEngine, RoundTripping, Text, Plain, Image, KeyedOnce, Derives, Merged, ParseText, Spelled, ReadByEngine, Here, IsDocument;
    var s := Text(t, v);
    EngineRoundTrips(t);
    ZerosAlike(t);
    ImageText(t, v);
    ImagePlain(v);
    assert Here(s, 0, s) by { WholeHere(s); }
    TextDerives(t, Image(v), s, 0);
    DocumentAtEnd(s, Image(v));
    EngineReadsItself(t, v);
    OfReader(t);
    DocumentExact(t, s, Merged(Image(v)));
  }

  lemma OfReader(t: Tokens)
    requires OfEngine(t)
    ensures ReadByEngine(t)
  {
    hide ReadByEngine;
  }

  lemma WholeHere(s: string)
    ensures Here(s, 0, s)
  {
    assert s[0..|s|] == s;
  }

  lemma DocumentAtEnd(s: string, r: Value)
    requires Derives(s, 0, r, |s|)
    ensures IsDocument(s, r)
  {
    hide Derives;
    assert Blank(s, |s|, |s|);
  }

  // ---------- no blanks of its own ----------

  function Blanks(s: string): nat {
    if s == [] then 0 else (if IsBlank(s[0]) then 1 else 0) + Blanks(s[1..])
  }

  /** The spaces in the strings and keys that are printed. */
  function SpacesIn(w: seq<Point>): nat {
    if w == [] then 0 else (if w[0] == 32 then 1 else 0) + SpacesIn(w[1..])
  }

  function OwnSpaces(v: Value): nat {
    match v
    case Str(w) => SpacesIn(w)
    case Arr(elems) => ElemSpaces(elems)
    case Obj(members) => MemberSpaces(members)
    case _ => 0
  }

  function ElemSpaces(elems: seq<Value>): nat {
    if elems == [] then 0 else OwnSpaces(elems[0]) + ElemSpaces(elems[1..])
  }

  function MemberSpaces(members: seq<Member>): nat {
    if members == [] then 0
    else (if members[0].value.Undefined? then 0 else SpacesIn(members[0].key) + OwnSpaces(members[0].value)) + MemberSpaces(members[1..])
  }

  lemma {:induction false} BlanksJoin(a: string, b: string)
    ensures Blanks(a + b) == Blanks(a) + Blanks(b)
  {
    if a == [] {
      assert a + b == b;
    } else {
      assert (a + b)[1..] == a[1..] + b;
      BlanksJoin(a[1..], b);
    }
  }

  lemma {:induction false} NoBlanks(s: string)
    requires forall k :: 0 <= k < |s| ==> !IsBlank(s[k])
    ensures Blanks(s) == 0
  {
    if s != [] { NoBlanks(s[1..]); }
  }

  lemma CharBlanks(c: Point)
    ensures Blanks(CharText(c)) == if c == 32 then 1 else 0
  {
    var x := CharText(c);
    if EscapeLetter(c).Some? {
      NoBlanks(x);
    } else if c < 32 || IsSurrogate(c) {
      NoBlanks(x);
    } else {
      assert x[1..] == [];
    }
  }

  lemma {:induction false} QuoteBlanks(w: seq<Point>)
    ensures Blanks(Quote(w)) == SpacesIn(w)
  {
    hide CharText;
    if w == [] {
      assert "\""[1..] == [];
    } else {
      CharBlanks(w[0]);
      QuoteBlanks(w[1..]);
      BlanksJoin(CharText(w[0]), Quote(w[1..]));
    }
  }

  /** No number of RFC 8259 has a blank. */
  lemma TokenBlanks(w: string)
    requires IsNumberToken(w)
    ensures Blanks(w) == 0
  {
    hide Num;
    var x :| IsNumber(x) && w == Written(x);
    forall k | 0 <= k < |x.exp| ensures !IsBlank(x.exp[k]) { ExponentChars(x.exp, k); }
    forall k | 0 <= k < |x.frac| ensures !IsBlank(x.frac[k]) { if k > 0 { assert IsDigit(x.frac[1..][k - 1]); } }
    forall k | 0 <= k < |x.whole| ensures !IsBlank(x.whole[k]) { assert IsDigit(x.whole[k]); }
    NoBlanks(x.minus);
    NoBlanks(x.whole);
    NoBlanks(x.frac);
    NoBlanks(x.exp);
    BlanksJoin(x.minus, x.whole);
    BlanksJoin(x.minus + x.whole, x.frac);
    BlanksJoin(x.minus + x.whole + x.frac, x.exp);
  }

  lemma ExponentChars(e: string, k: nat)
    requires DecimalLiterals.IsExponent(e) && k < |e|
    ensures !IsBlank(e[k])
  {
    if k > 0 {
      if DecimalLiterals.IsSigned(e[1..]) {
        assert e[1..][0] == e[1];
        if k > 1 { assert IsDigit(e[2..][k - 2]); }
      } else {
        assert IsDigit(e[1..][k - 1]);
      }
    }
  }

  /** JSON.stringify prints no blanks but those in strings. */
  lemma {:induction false} OnlyOwnBlanks(t: Tokens, v: Value)
    requires OfEngine(t)
    ensures Blanks(Text(t, v)) == OwnSpaces(v)
    decreases v, 1
  {
    hide OfEngine, ElemsText, MembersText, ElemSpaces, MemberSpaces, Blanks;
    match v
    case Number(n) =>
      if IsFinite(n) { NumberBlanks(t, n); } else { NoBlanks("null"); }
    case Str(w) => StringBlanks(t, w);
    case Arr(elems) =>
      ElemsBlanks(t, elems, true);
      Wrapped("[", ElemsText(t, elems, true), "]");
    case Obj(members) =>
      MembersBlanks(t, members, true);
      Wrapped("{", MembersText(t, members, true), "}");
    case _ => NoBlanks(Text(t, v));
  }

  lemma Wrapped(a: string, s: string, b: string)
    requires |a| <= 1 && |b| <= 1 && (a != [] ==> !IsBlank(a[0])) && (b != [] ==> !IsBlank(b[0]))
    ensures Blanks(a + s + b) == Blanks(s)
  {
    BlanksJoin(a + s, b);
    BlanksJoin(a, s);
    NoBlanks(a);
    NoBlanks(b);
  }

  lemma NumberBlanks(t: Tokens, n: Bits64)
    requires OfEngine(t) && IsFinite(n)
    ensures Blanks(t.numText(n)) == 0
  {
    hide JsonNumbers.IsNumberText, IsNumberToken, Blanks, ReadByEngine;
    Writing(t, n);
    PrintedSpelled(t.numText(n), n);
    TokenBlanks(t.numText(n));
  }

  lemma StringBlanks(t: Tokens, w: JsString)
    requires OfEngine(t)
    ensures Blanks(t.strText(w)) == SpacesIn(w)
  {
    hide ReadByEngine, Quote, SpacesIn, Blanks;
    QuoteBlanks(w);
    Wrapped("\"", Quote(w), []);
    assert "\"" + Quote(w) + [] == "\"" + Quote(w);
  }

  lemma {:induction false} ElemsBlanks(t: Tokens, elems: seq<Value>, first: bool)
    requires OfEngine(t)
    ensures Blanks(ElemsText(t, elems, first)) == ElemSpaces(elems)
    decreases elems, 0
  {
    hide OfEngine, Text, OwnSpaces, Blanks;
    if elems == [] {
      NoBlanks([]);
    } else {
      var sep, x, rest: string := if first then [] else ",", Text(t, elems[0]), ElemsText(t, elems[1..], false);
      OnlyOwnBlanks(t, elems[0]);
      ElemsBlanks(t, elems[1..], false);
      Wrapped(sep, x, []);
      assert sep + x + [] == sep + x;
      BlanksJoin(sep + x, rest);
    }
  }

  lemma {:induction false} MembersBlanks(t: Tokens, members: seq<Member>, first: bool)
    requires OfEngine(t)
    ensures Blanks(MembersText(t, members, first)) == MemberSpaces(members)
    decreases members, 0
  {
    hide OfEngine, Text, OwnSpaces, SpacesIn, Blanks;
    if members == [] {
      NoBlanks([]);
    } else if members[0].value.Undefined? {
      MembersBlanks(t, members[1..], first);
    } else {
      var sep, k, x, rest: string := if first then [] else ",", t.strText(members[0].key), Text(t, members[0].value), MembersText(t, members[1..], false);
      assert members[0] in members;
      StringBlanks(t, members[0].key);
      OnlyOwnBlanks(t, members[0].value);
      MembersBlanks(t, members[1..], false);
      Wrapped(sep, k, ":");
      BlanksJoin(sep + k + ":", x);
      BlanksJoin(sep + k + ":" + x, rest);
    }
  }
}
