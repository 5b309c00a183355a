/** The decimal literals of ECMA-262 (section 9.3.1), and which of them js_atod reads at the start of a text. */
module DecimalLiterals {
  import opened DecimalText

  predicate IsSigned(w: string) { w != [] && (w[0] == '+' || w[0] == '-') }

  /** Nothing, or an exponent indicator and a signed integer. */
  predicate IsExponent(w: string) {
    w == [] || (|w| > 1 && (w[0] == 'e' || w[0] == 'E')
                && var d := if IsSigned(w[1..]) then w[2..] else w[1..]; d != [] && AllDigits(d))
  }

  function ExponentValue(w: string): int
    requires IsExponent(w)
  {
    if w == [] then 0
    else if IsSigned(w[1..]) then if w[1] == '-' then 0 - Num(w[2..]) else Num(w[2..])
    else Num(w[1..])
  }

  // ---------- the grammar ----------

  /** A sign, digits, a point and digits behind it, and an exponent. */
  datatype Parts = Parts(sign: string, whole: string, point: bool, frac: string, exp: string)

  /** A StrDecimalLiteral other than Infinity: a point may stand alone on one side of the digits, not on both. */
  predicate IsLiteral(x: Parts) {
    && (x.sign == [] || x.sign == "+" || x.sign == "-") && AllDigits(x.whole) && AllDigits(x.frac) && IsExponent(x.exp)
    && (x.whole != [] || x.frac != []) && (x.frac != [] ==> x.point)
  }

  function Spelled(x: Parts): string { x.sign + x.whole + (if x.point then "." else []) + x.frac + x.exp }

  predicate IsInfinity(w: string) { w == "Infinity" || w == "+Infinity" || w == "-Infinity" }

  ghost predicate IsLiteralText(w: string) { IsInfinity(w) || exists x :: IsLiteral(x) && w == Spelled(x) }

  /** After a sign, digits and perhaps a point, s has an exponent indicator without digits. */
  predicate DanglingExponent(s: string) {
    var start := SignLength(s, 0);
    && start <= |s| && MantissaEnd(s, start, false) > start
    && var m := MantissaEnd(s, start, false); ExponentMark(s, m, false) && ExponentRun(s, m) == 0
  }

  // ---------- a literal in place ----------

  /** The parts of a literal that begins s. */
  lemma InPlace(s: string, x: Parts)
    requires IsLiteral(x) && |Spelled(x)| <= |s| && s[..|Spelled(x)|] == Spelled(x)
    ensures var start := |x.sign|;
            var i := start + |x.whole|;
            var j := i + if x.point then 1 else 0;
            var m := j + |x.frac|;
            && m + |x.exp| == |Spelled(x)| && s[start..i] == x.whole && (x.point ==> s[i] == '.')
            && s[j..m] == x.frac && s[m..m + |x.exp|] == x.exp && s[..start] == x.sign
  {
    hide AllDigits, IsExponent;
    var w := Spelled(x);
    var start := |x.sign|;
    var i := start + |x.whole|;
    var j := i + if x.point then 1 else 0;
    var m := j + |x.frac|;
    Slice(s, w, 0, start);
    Slice(s, w, start, i);
    Slice(s, w, j, m);
    Slice(s, w, m, |w|);
    if x.point { assert s[i] == s[..|w|][i] == w[i]; }
  }

  lemma Slice(s: string, w: string, i: nat, j: nat)
    requires i <= j <= |w| <= |s| && s[..|w|] == w
    ensures s[i..j] == w[i..j]
  {
    assert s[..|w|][i..j] == s[i..j];
  }

  lemma RunAtLeast(s: string, i: nat, j: nat)
    requires i <= j <= |s| && AllDigits(s[i..j])
    ensures i + DigitRun(s, i) >= j
    ensures i + DigitRun(s, i) > j ==> IsDigit(At(s, j))
  {
    var e := i + DigitRun(s, i);
    forall k | i <= k < j ensures IsDigit(s[k]) { assert s[i..j][k - i] == s[k]; }
    forall k | i <= k < e ensures IsDigit(s[k]) { assert s[i..e][k - i] == s[k]; }
  }

  /** The sign of a literal in place is the one js_atod skips, and what follows is a digit or a point before one. */
  lemma SignInPlace(s: string, x: Parts)
    requires IsLiteral(x) && |Spelled(x)| <= |s| && s[..|Spelled(x)|] == Spelled(x)
    ensures SignLength(s, 0) == |x.sign| && (At(s, 0) == '-' <==> x.sign == "-")
    ensures |x.sign| < |s| && (IsDigit(s[|x.sign|]) || s[|x.sign|] == '.')
  {
    hide AllDigits, IsExponent;
    var w := Spelled(x);
    assert s[0] == s[..|w|][0] == w[0];
    assert s[|x.sign|] == s[..|w|][|x.sign|] == w[|x.sign|];
    if x.whole != [] { DigitFirst(x.whole); assert w[|x.sign|] == x.whole[0]; }
  }

  lemma DigitFirst(d: string)
    requires d != [] && AllDigits(d)
    ensures IsDigit(d[0])
  {}

  /** Where the mantissa of a literal in place ends; an exponent in place follows it at once. */
  lemma MantissaInPlace(s: string, x: Parts)
    requires IsLiteral(x) && |Spelled(x)| <= |s| && s[..|Spelled(x)|] == Spelled(x)
    ensures var start := |x.sign|;
            && MantissaEnd(s, start, false) > start
            && |Spelled(x)| - |x.exp| <= MantissaEnd(s, start, false)
            && (x.exp != [] ==> |Spelled(x)| - |x.exp| == MantissaEnd(s, start, false))
  {
    hide AllDigits, IsExponent, DigitRun, Spelled, MantissaEnd;
    InPlace(s, x);
    var start := |x.sign|;
    var i := start + |x.whole|;
    var j := i + if x.point then 1 else 0;
    var m := j + |x.frac|;
    if x.exp != [] { MarkInPlace(s, m, x.exp); }
    MantissaSpan(s, start, i, j, m, x.exp != []);
  }

  /** Digits from start to i, perhaps a point there, digits from j to m, and perhaps an exponent indicator. */
  lemma MantissaSpan(s: string, start: nat, i: nat, j: nat, m: nat, exp: bool)
    requires start <= i <= j <= m <= |s| && (j == i || (j == i + 1 && s[i] == '.')) && (j == i ==> m == j)
    requires AllDigits(s[start..i]) && AllDigits(s[j..m]) && (i > start || m > j)
    requires exp ==> m < |s| && (s[m] == 'e' || s[m] == 'E')
    ensures MantissaEnd(s, start, false) > start && m <= MantissaEnd(s, start, false)
    ensures exp ==> m == MantissaEnd(s, start, false)
  {
    hide AllDigits, DigitRun;
    RunAtLeast(s, start, i);
    if start + DigitRun(s, start) == i && j == i + 1 {
      RunAtLeast(s, j, m);
      if m > j {
        DigitFirst(s[j..m]);
        assert s[j] == s[j..m][0];
      }
    }
  }

  lemma MarkInPlace(s: string, m: nat, exp: string)
    requires exp != [] && IsExponent(exp) && m + |exp| <= |s| && s[m..m + |exp|] == exp
    ensures m < |s| && (s[m] == 'e' || s[m] == 'E')
  {
    hide AllDigits;
    assert s[m] == s[m..m + |exp|][0];
  }

  /** An exponent in place is within the one js_atod reads. */
  lemma ExponentInPlace(s: string, m: nat, exp: string)
    requires exp != [] && IsExponent(exp) && m + |exp| <= |s| && s[m..m + |exp|] == exp
    ensures ExponentMark(s, m, false) && ExponentRun(s, m) > 0 && m + |exp| <= ExponentStart(s, m) + ExponentRun(s, m)
  {
    hide AllDigits, DigitRun;
    MarkInPlace(s, m, exp);
    var k := if IsSigned(exp[1..]) then 2 else 1;
    assert s[m + 1] == s[m..m + |exp|][1] == exp[1..][0];
    var d := exp[k..];
    DigitFirst(d);
    assert d[0] == exp[k];
    assert ExponentStart(s, m) == m + k;
    assert s[m + k..m + |exp|] == s[m..m + |exp|][k..] == d;
    RunAtLeast(s, m + k, m + |exp|);
  }

  /** A literal that begins s is no longer than what js_atod reads there, unless an exponent is left dangling. */
  lemma LiteralWithin(s: string, x: Parts)
    requires IsLiteral(x) && |Spelled(x)| <= |s| && s[..|Spelled(x)|] == Spelled(x)
    ensures DanglingExponent(s) ==> Parse(s, false) == Malformed && |Spelled(x)| <= MantissaEnd(s, SignLength(s, 0), false)
    ensures !DanglingExponent(s) ==> Parse(s, false).Decimal? && |Spelled(x)| <= Parse(s, false).end
  {
    hide AllDigits, DigitRun, IsExponent, MantissaEnd, MantissaDigits, WrittenExponent, ExponentRun, Spelled, HasPrefix, SignLength;
    SignInPlace(s, x);
    MantissaInPlace(s, x);
    InPlace(s, x);
    var start := |x.sign|;
    var m := MantissaEnd(s, start, false);
    if x.exp != [] { ExponentInPlace(s, m, x.exp); }
    NoInfinity(s, start);
  }

  lemma NoInfinity(s: string, i: nat)
    requires i < |s| && s[i] != 'I'
    ensures !HasPrefix(s, i, "Infinity")
  {
    if i + 8 <= |s| { assert s[i..i + 8][0] == s[i]; }
  }

  // ---------- what js_atod reads is a literal ----------

  /** The mantissa js_atod reads, as parts of a literal. */
  function MantissaParts(s: string, start: nat): Parts
    requires start <= |s|
  {
    var i, m := start + DigitRun(s, start), MantissaEnd(s, start, false);
    if PointAt(s, start, i, false) then Parts(s[..start], s[start..i], true, s[i + 1..m], [])
    else Parts(s[..start], s[start..i], false, [], [])
  }

  lemma MantissaIsLiteral(s: string, start: nat)
    requires start <= |s| && start == SignLength(s, 0) && MantissaEnd(s, start, false) > start
    ensures var x, m := MantissaParts(s, start), MantissaEnd(s, start, false);
            && IsLiteral(x) && s[..m] == Spelled(x) && MantissaDigits(s, start, false) == x.whole + x.frac
            && |x.whole| == DigitRun(s, start) && (x.sign == "-" <==> At(s, 0) == '-') && x.exp == []
  {
    hide AllDigits, DigitRun;
    var i, m := start + DigitRun(s, start), MantissaEnd(s, start, false);
    assert s[..start] == (if start == 0 then [] else [s[0]]);
    if PointAt(s, start, i, false) {
      Pointed(s, start, i, m);
      if i == start { PointNeedsDigit(s, i, m); }
    } else {
      Unpointed(s[..start], s[start..i], s[..i]);
      NoneDigits();
    }
  }

  lemma Pointed(s: string, start: nat, i: nat, m: nat)
    requires start <= i < m <= |s| && s[i] == '.'
    ensures s[..m] == s[..start] + s[start..i] + "." + s[i + 1..m] + []
  {
    assert s[..i] == s[..start] + s[start..i];
    assert s[..i + 1] == s[..i] + ".";
    assert s[..m] == s[..i + 1] + s[i + 1..m];
  }

  lemma Unpointed(a: string, b: string, c: string)
    requires c == a + b
    ensures c == a + b + [] + [] + [] && b + [] == b
  {}

  lemma NoneDigits()
    ensures AllDigits([])
  {}

  lemma PointNeedsDigit(s: string, i: nat, m: nat)
    requires i + 1 <= |s| && IsDigit(At(s, i + 1)) && m == i + 1 + DigitRun(s, i + 1)
    ensures m > i + 1
  {}

  /** The literal js_atod reads, with the digits, the point and the exponent it takes from it. */
  lemma ParsedIsLiteral(s: string) returns (x: Parts)
    requires Parse(s, false).Decimal?
    ensures var l := Parse(s, false);
            && IsLiteral(x) && l.end <= |s| && s[..l.end] == Spelled(x) && (l.negative <==> x.sign == "-")
            && l.digits == x.whole + x.frac && l.point == |x.whole| && l.exponent == ExponentValue(x.exp)
  {
    hide AllDigits, DigitRun, MantissaEnd, MantissaDigits, WrittenExponent, ExponentRun, IsLiteral, Spelled, HasPrefix, MantissaParts,
         ExponentValue;
    var start := SignLength(s, 0);
    var m := MantissaEnd(s, start, false);
    MantissaIsLiteral(s, start);
    x := MantissaParts(s, start);
    if ExponentMark(s, m, false) {
      ExponentIs(s, m);
      var end := Parse(s, false).end;
      WithItsExponent(x, s[m..end]);
      assert s[..end] == s[..m] + s[m..end];
      x := x.(exp := s[m..end]);
    } else {
      NoExponentValue();
    }
  }

  lemma NoExponentValue()
    ensures IsExponent([]) && ExponentValue([]) == 0
  {}

  lemma WithItsExponent(x: Parts, exp: string)
    requires IsLiteral(x) && x.exp == [] && IsExponent(exp)
    ensures IsLiteral(x.(exp := exp)) && Spelled(x.(exp := exp)) == Spelled(x) + exp
  {
    hide AllDigits, IsExponent;
    assert Spelled(x) == x.sign + x.whole + (if x.point then "." else []) + x.frac;
  }

  lemma ExponentIs(s: string, m: nat)
    requires ExponentMark(s, m, false) && ExponentRun(s, m) > 0
    ensures var end := ExponentStart(s, m) + ExponentRun(s, m);
            m < end <= |s| && IsExponent(s[m..end]) && ExponentValue(s[m..end]) == WrittenExponent(s, m)
  {
    hide AllDigits, DigitRun, Num;
    var i := ExponentStart(s, m);
    var end := i + ExponentRun(s, m);
    var w := s[m..end];
    assert w[0] == s[m] && w[1] == s[m + 1] && w[1..][0] == s[m + 1];
    assert w[i - m..] == s[i..end];
    if !IsSigned(w[1..]) { assert i == m + 1; }
  }

  // ---------- the longest literal ----------

  lemma InfinityInPlace(s: string, e: nat)
    requires e <= |s| && IsInfinity(s[..e])
    ensures Parse(s, false).Infinite? && Parse(s, false).end == e
  {
    var w := s[..e];
    assert s[0] == w[0];
    var start := SignLength(s, 0);
    assert s[start..start + 8] == w[start..start + 8] == "Infinity";
  }

  lemma InfinityRead(s: string)
    requires Parse(s, false).Infinite?
    ensures var end := Parse(s, false).end; end <= |s| && IsInfinity(s[..end]) && s[SignLength(s, 0)] == 'I'
  {
    hide MantissaEnd, MantissaDigits, DigitRun, WrittenExponent, ExponentRun;
    var start := SignLength(s, 0);
    var end := start + 8;
    assert s[..end] == s[..start] + s[start..end];
    assert s[start] == s[start..end][0];
    assert s[..start] == if start == 0 then [] else [s[0]];
  }

  lemma MalformedMeans(s: string)
    requires Parse(s, false).Malformed? && !DanglingExponent(s)
    ensures SignLength(s, 0) <= |s| && MantissaEnd(s, SignLength(s, 0), false) == SignLength(s, 0)
  {
    hide MantissaEnd, MantissaDigits, DigitRun, WrittenExponent, ExponentRun, HasPrefix;
  }

  /** A text that begins s and is a literal. */
  lemma TextWithin(s: string, e: nat)
    requires e <= |s| && IsLiteralText(s[..e])
    ensures !Parse(s, false).Malformed? ==> e <= Parse(s, false).end
    ensures Parse(s, false).Malformed? ==> DanglingExponent(s)
  {
    hide Parse, IsLiteral, Spelled, IsInfinity, DanglingExponent;
    if IsInfinity(s[..e]) {
      InfinityInPlace(s, e);
    } else {
      var x :| IsLiteral(x) && s[..e] == Spelled(x);
      LiteralWithin(s, x);
    }
  }

  /** js_atod reads the longest decimal literal that begins the text; it reads none exactly when there is none, or when an
      exponent indicator without digits follows one. */
  lemma LongestLiteral(s: string)
    ensures Parse(s, false).Malformed? <==> DanglingExponent(s) || forall e: nat :: e <= |s| ==> !IsLiteralText(s[..e])
    ensures DanglingExponent(s) ==> exists e: nat :: e <= |s| && IsLiteralText(s[..e])
    ensures !Parse(s, false).Malformed? ==>
              var end := Parse(s, false).end;
              && end <= |s| && IsLiteralText(s[..end])
              && forall e: nat :: end < e <= |s| ==> !IsLiteralText(s[..e])
  {
    hide Parse, IsLiteral, Spelled, IsInfinity, DanglingExponent;
    forall e: nat | e <= |s| && IsLiteralText(s[..e])
      ensures (!Parse(s, false).Malformed? ==> e <= Parse(s, false).end) && (Parse(s, false).Malformed? ==> DanglingExponent(s))
    {
      TextWithin(s, e);
    }
    if DanglingExponent(s) { DanglingLiteral(s); }
    if Parse(s, false).Decimal? {
      var x := ParsedIsLiteral(s);
    } else if Parse(s, false).Infinite? {
      InfinityRead(s);
    } else if !DanglingExponent(s) {
      forall e: nat | e <= |s| ensures !IsLiteralText(s[..e]) { if IsLiteralText(s[..e]) { TextWithin(s, e); } }
    }
  }

  lemma DanglingLiteral(s: string)
    requires DanglingExponent(s)
    ensures Parse(s, false).Malformed? && exists e: nat :: e <= |s| && IsLiteralText(s[..e])
  {
    hide IsLiteral, Spelled, MantissaEnd, MantissaDigits, DigitRun, ExponentRun, WrittenExponent, MantissaParts;
    var start := SignLength(s, 0);
    MantissaIsLiteral(s, start);
    var x, m := MantissaParts(s, start), MantissaEnd(s, start, false);
    assert IsLiteralText(s[..m]);
    DanglingNotInfinite(s);
  }

  lemma DanglingNotInfinite(s: string)
    requires DanglingExponent(s)
    ensures !HasPrefix(s, SignLength(s, 0), "Infinity")
  {
    hide ExponentRun;
    var start := SignLength(s, 0);
    if start < |s| && s[start] == 'I' { assert DigitRun(s, start) == 0; } else { if start < |s| { NoInfinity(s, start); } }
  }

  /** `1e` begins with the literal `1`, and js_atod reads nothing. */
  lemma DanglingExample()
    ensures DanglingExponent("1e") && Parse("1e", false) == Malformed && IsLiteralText("1e"[..1])
  {
    assert DigitRun("1e", 1) == 0 && DigitRun("1e", 0) == 1;
    var x := Parts([], "1", false, [], []);
    assert Spelled(x) == "1" == "1e"[..1];
    assert IsLiteral(x);
  }

  // ---------- integers ----------

  /** A sign and digits, which is all that parseInt takes. */
  predicate IsIntegerText(w: string) {
    var d := if IsSigned(w) then w[1..] else w; d != [] && AllDigits(d)
  }

  /** Asked for an integer only, js_atod reads the longest one that begins the text, and nothing exactly when there is none. */
  lemma LongestInteger(s: string)
    ensures Parse(s, true).Malformed? <==> forall e: nat :: e <= |s| ==> !IsIntegerText(s[..e])
    ensures !Parse(s, true).Malformed? ==>
              var l := Parse(s, true);
              && l.Decimal? && l.end <= |s| && IsIntegerText(s[..l.end]) && l.exponent == 0 && l.point == |l.digits|
              && (l.negative <==> s[0] == '-') && l.digits == s[SignLength(s, 0)..l.end]
              && forall e: nat :: l.end < e <= |s| ==> !IsIntegerText(s[..e])
  {
    hide DigitRun, AllDigits;
    var start := SignLength(s, 0);
    var end := start + DigitRun(s, start);
    if end > start { IntegerText(s, start, end); }
    assert s[start..end] + [] == s[start..end];
    forall e: nat | e <= |s| && IsIntegerText(s[..e]) ensures start < e <= end { IntegerWithin(s, e); }
  }

  lemma IntegerText(s: string, start: nat, end: nat)
    requires start == SignLength(s, 0) && start < end <= |s| && AllDigits(s[start..end])
    ensures IsIntegerText(s[..end])
  {
    var w := s[..end];
    assert w[start..] == s[start..end];
    assert w[0] == s[0];
    if start == 0 { assert w[0..] == w; }
  }

  lemma IntegerWithin(s: string, e: nat)
    requires e <= |s| && IsIntegerText(s[..e])
    ensures SignLength(s, 0) < e <= SignLength(s, 0) + DigitRun(s, SignLength(s, 0))
  {
    hide DigitRun;
    var w, start := s[..e], SignLength(s, 0);
    assert w[0] == s[0] && start == if IsSigned(w) then 1 else 0;
    assert w[start..] == s[start..e];
    if start == 0 { assert w[0..] == w; }
    RunAtLeast(s, start, e);
  }
}
