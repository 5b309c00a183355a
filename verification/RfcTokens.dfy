/** Numbers and strings as sections 6 and 7 of RFC 8259 have them, and that the engine reads each of them as such. */
module RfcTokens {
  import opened Options
  import opened DecimalText
  import opened DecimalLiterals
  import Binary64
  import Rounding
  import Powers
  import Shortest
  import Reader
  import Dtoa
  import Json
  import opened JsonNumbers
  import opened JsonStrings

  type Point = Json.Point
  type JsString = Json.JsString

  // ---------- numbers, section 6 ----------

  /** An optional minus sign, an integer part without leading zeros, and perhaps a fraction and an exponent. */
  datatype Spelling = Spelling(minus: string, whole: string, frac: string, exp: string)

  predicate IsInteger(w: string) { w != [] && AllDigits(w) && (w[0] == '0' ==> |w| == 1) }

  predicate IsFraction(w: string) { w == [] || (|w| > 1 && w[0] == '.' && AllDigits(w[1..])) }

  predicate IsNumber(x: Spelling) {
    (x.minus == [] || x.minus == "-") && IsInteger(x.whole) && IsFraction(x.frac) && IsExponent(x.exp)
  }

  function Written(x: Spelling): string { x.minus + x.whole + x.frac + x.exp }

  /** The text is a number of RFC 8259. */
  ghost predicate IsNumberToken(w: string) { exists x :: IsNumber(x) && w == Written(x) }

  function Decimals(x: Spelling): string { if x.frac == [] then [] else x.frac[1..] }

  /** n is the double js_atod gives to the digits and the exponent written. */
  ghost predicate NumberMeans(x: Spelling, n: Json.Bits64)
    requires IsNumber(x)
  {
    exists mag: nat ::
      && mag <= Binary64.INF && AllDigits(x.whole + Decimals(x))
      && Reader.ReadsAs(x.whole + Decimals(x), |x.whole|, ExponentValue(x.exp), mag) && n == BitsOf(x.minus != [], mag)
  }

  ghost predicate NumberToken(w: string, n: Json.Bits64) {
    exists x :: IsNumber(x) && w == Written(x) && NumberMeans(x, n)
  }

  // ---------- how js_atod reads them ----------

  lemma WrittenMantissa(x: Spelling, tail: string)
    requires IsNumber(x) && Dtoa.Stops(tail)
    ensures var s, start := Written(x) + tail, |x.minus|;
            var i := start + |x.whole|;
            && start <= |s| && (At(s, 0) == '-' <==> x.minus != []) && SignLength(s, 0) == start
            && DigitRun(s, start) == |x.whole| && MantissaDigits(s, start, false) == x.whole + Decimals(x)
            && MantissaEnd(s, start, false) == i + |x.frac| && !HasPrefix(s, start, "Infinity")
  {
    hide Num, DigitRun, AllDigits, Written, PointAt, IsNumber, IsDigit, At, SignLength, HasPrefix, Dtoa.Stops,
         MantissaEnd, MantissaDigits, Decimals;
    var s, start := Written(x) + tail, |x.minus|;
    WrittenInText(x, tail);
    DecimalsSize(x);
    MantissaIs(s, start, start + |x.whole|, x.whole, x.frac, Decimals(x));
    Dtoa.NotInfinity(s, start);
  }

  lemma MantissaIs(s: string, start: nat, i: nat, whole: string, frac: string, decimals: string)
    requires start <= i <= |s| && s[start..i] == whole && AllDigits(s[start..i]) && !IsDigit(At(s, i))
    requires PointAt(s, start, i, false) == (frac != []) && |decimals| == (if frac == [] then 0 else |frac| - 1)
    requires frac != [] ==> && i + |frac| <= |s| && s[i + 1..i + |frac|] == decimals
                            && AllDigits(s[i + 1..i + |frac|]) && !IsDigit(At(s, i + |frac|))
    ensures DigitRun(s, start) == i - start && MantissaDigits(s, start, false) == whole + decimals
    ensures MantissaEnd(s, start, false) == i + |frac|
  {
    hide Num, DigitRun, AllDigits, PointAt, IsDigit, At;
    DigitRunUnique(s, start, i);
    if frac == [] {
      assert whole + decimals == whole;
    } else {
      DigitRunUnique(s, i + 1, i + |frac|);
    }
  }

  lemma DecimalsSize(x: Spelling)
    ensures |Decimals(x)| == if x.frac == [] then 0 else |x.frac| - 1
  {}

  lemma WrittenInText(x: Spelling, tail: string)
    requires IsNumber(x) && Dtoa.Stops(tail)
    ensures var s, start := Written(x) + tail, |x.minus|;
            var i := start + |x.whole|;
            && start < i <= |s| && s[start..i] == x.whole && !IsDigit(At(s, i)) && AllDigits(s[start..i]) && IsDigit(s[start])
            && PointAt(s, start, i, false) == (x.frac != [])
            && (x.frac != [] ==> && i + |x.frac| <= |s| && s[i + 1..i + |x.frac|] == Decimals(x)
                                 && AllDigits(s[i + 1..i + |x.frac|]) && !IsDigit(At(s, i + |x.frac|)))
            && (At(s, 0) == '-' <==> x.minus != []) && SignLength(s, 0) == start
  {
    hide Num, AllDigits, IsExponent, IsDigit, Dtoa.Stops, Written, At, SignLength, PointAt;
    WrittenSplit(x, tail);
    var s, start := Written(x) + tail, |x.minus|;
    var i, rest := start + |x.whole|, x.frac + (x.exp + tail);
    AfterFraction(x.exp, tail);
    Heads(s, i, rest);
    WholeEnds(x, rest, s, start);
    if x.frac != [] {
      FractionInText(x.frac, x.exp + tail, s, i);
    }
    PointIs(x.frac, x.exp + tail, s, start, i);
  }

  lemma WrittenSplit(x: Spelling, tail: string)
    requires IsNumber(x)
    ensures var s, start := Written(x) + tail, |x.minus|;
            var i := start + |x.whole|;
            start < i <= |s| && s[..start] == x.minus && s[start..i] == x.whole && s[i..] == x.frac + (x.exp + tail)
  {
    hide Num, AllDigits, IsExponent;
    var s := Written(x) + tail;
    assert s == x.minus + (x.whole + (x.frac + (x.exp + tail)));
  }

  lemma WholeEnds(x: Spelling, rest: string, s: string, start: nat)
    requires IsNumber(x) && start == |x.minus| && start + |x.whole| <= |s|
    requires s[..start] == x.minus && s[start..start + |x.whole|] == x.whole
    ensures AllDigits(s[start..start + |x.whole|]) && IsDigit(s[start])
    ensures (At(s, 0) == '-' <==> x.minus != []) && SignLength(s, 0) == start
  {
    hide Num, IsExponent, IsFraction;
    assert s[start] == s[start..start + |x.whole|][0] == x.whole[0];
    if start > 0 { assert s[0] == s[..start][0]; }
  }

  lemma FractionInText(frac: string, after: string, s: string, i: nat)
    requires frac != [] && IsFraction(frac) && i <= |s| && s[i..] == frac + after && !IsDigit(At(after, 0))
    ensures i + |frac| <= |s| && s[i] == '.' && s[i + 1..i + |frac|] == frac[1..] && AllDigits(s[i + 1..i + |frac|])
    ensures IsDigit(s[i + 1]) && !IsDigit(At(s, i + |frac|))
  {
    var rest := frac + after;
    assert i + |rest| == |s|;
    assert rest[1..|frac|] == frac[1..] && rest[|frac|..] == after;
    assert s[i] == rest[0] && s[i + 1] == rest[1] == frac[1..][0];
    assert s[i + 1..i + |frac|] == rest[1..|frac|];
    assert s[i + |frac|..] == rest[|frac|..];
    Heads(s, i + |frac|, after);
  }

  /** A point follows the whole part exactly when there is a fraction. */
  lemma PointIs(frac: string, after: string, s: string, start: nat, i: nat)
    requires start < i <= |s| && s[i..] == frac + after && IsFraction(frac) && At(s, i) == At(frac + after, 0)
    requires !IsDigit(At(after, 0)) && At(after, 0) != '.'
    ensures PointAt(s, start, i, false) == (frac != []) && !IsDigit(At(s, i))
  {
    if frac == [] { assert frac + after == after; }
  }

  lemma Heads(s: string, n: nat, tail: string)
    requires n <= |s| && s[n..] == tail
    ensures At(s, n) == At(tail, 0)
  {
    if n < |s| { assert s[n] == tail[0]; }
  }

  lemma AfterFraction(exp: string, tail: string)
    requires IsExponent(exp) && Dtoa.Stops(tail)
    ensures !IsDigit(At(exp + tail, 0)) && At(exp + tail, 0) != '.'
    ensures exp == [] ==> At(exp + tail, 0) != 'e' && At(exp + tail, 0) != 'E'
  {
    hide Num, AllDigits;
    if exp == [] { assert exp + tail == tail; }
  }

  lemma WrittenExponentRead(x: Spelling, tail: string)
    requires IsNumber(x) && Dtoa.Stops(tail)
    ensures var s, n := Written(x) + tail, |Written(x)|;
            var end := |x.minus| + |x.whole| + |x.frac|;
            if x.exp == [] then end == n && !ExponentMark(s, end, false)
            else && end < n && ExponentMark(s, end, false) && ExponentRun(s, end) > 0
                 && WrittenExponent(s, end) == ExponentValue(x.exp) && ExponentStart(s, end) + ExponentRun(s, end) == n
  {
    hide Num, AllDigits, DigitRun, IsNumber, Written, At, ExponentMark, ExponentRun, WrittenExponent, ExponentStart, ExponentValue;
    var s, n := Written(x) + tail, |Written(x)|;
    var end := |x.minus| + |x.whole| + |x.frac|;
    ExponentPlace(x, tail);
    Heads(s, n, tail);
    AfterFraction([], tail);
    assert [] + tail == tail;
    if x.exp == [] { NoMark(s, end); } else { ExponentAt(s, end, n, x); }
  }

  lemma ExponentPlace(x: Spelling, tail: string)
    requires IsNumber(x)
    ensures var s, n := Written(x) + tail, |Written(x)|;
            var end := |x.minus| + |x.whole| + |x.frac|;
            n <= |s| && s[n..] == tail && end + |x.exp| == n && s[end..n] == x.exp && IsExponent(x.exp)
  {
    hide IsExponent, IsFraction, IsInteger;
  }

  lemma NoMark(s: string, i: nat)
    requires At(s, i) != 'e' && At(s, i) != 'E'
    ensures !ExponentMark(s, i, false)
  {}

  lemma ExponentAt(s: string, end: nat, n: nat, x: Spelling)
    requires x.exp != [] && IsExponent(x.exp) && end <= n <= |s| && s[end..n] == x.exp && !IsDigit(At(s, n))
    ensures end < n && ExponentMark(s, end, false) && ExponentRun(s, end) > 0
    ensures WrittenExponent(s, end) == ExponentValue(x.exp) && ExponentStart(s, end) + ExponentRun(s, end) == n
  {
    hide Num, AllDigits, DigitRun;
    assert s[end] == x.exp[0] && s[end + 1] == x.exp[1];
    assert IsDigit(x.exp[1]) || IsSigned(x.exp[1..]) by { FirstDigit(x.exp); }
    var i := ExponentStart(s, end);
    assert i == end + 1 + if IsSigned(x.exp[1..]) then 1 else 0;
    assert s[i..n] == x.exp[i - end..];
    DigitRunUnique(s, i, n);
  }

  lemma FirstDigit(exp: string)
    requires exp != [] && IsExponent(exp)
    ensures IsSigned(exp[1..]) || IsDigit(exp[1])
  {}

  /** Every number of RFC 8259 is a literal to js_atod, with the digits and the exponent written, and ends where it does. */
  lemma NumberParses(x: Spelling, tail: string)
    requires IsNumber(x) && Dtoa.Stops(tail)
    ensures AllDigits(x.whole + Decimals(x))
    ensures Parse(Written(x) + tail, false)
            == Decimal(x.minus != [], x.whole + Decimals(x), |x.whole|, ExponentValue(x.exp), |Written(x)|)
  {
    hide Num, AllDigits, DigitRun, MantissaEnd, MantissaDigits, ExponentRun, WrittenExponent, ExponentStart, IsExponent,
         IsFraction, IsInteger, At, SignLength, HasPrefix, ExponentMark, Dtoa.Stops, ExponentValue, Decimals;
    WrittenMantissa(x, tail);
    WrittenExponentRead(x, tail);
    IntegerNotEmpty(x);
    var s, start := Written(x) + tail, |x.minus|;
    var end := MantissaEnd(s, start, false);
    assert end > start && SignLength(s, 0) == start;
    if x.exp != [] {
      assert WithExponent(s, end, x.minus != [], x.whole + Decimals(x), |x.whole|)
          == Decimal(x.minus != [], x.whole + Decimals(x), |x.whole|, ExponentValue(x.exp), |Written(x)|);
    } else {
      assert ExponentValue(x.exp) == 0 by { NoExponentValue(); }
    }
  }

  lemma IntegerNotEmpty(x: Spelling)
    requires IsNumber(x)
    ensures x.whole != []
  {}

  // ---------- a literal on its own ----------

  lemma RunPrefix(s: string, i: nat, e: nat)
    requires i <= e <= |s| && i + DigitRun(s, i) <= e
    ensures DigitRun(s[..e], i) == DigitRun(s, i)
  {
    var j := i + DigitRun(s, i);
    assert s[..e][i..j] == s[i..j];
    DigitRunUnique(s[..e], i, j);
  }

  /** A literal is read alike without what follows it. */
  lemma ParsePrefix(s: string, e: nat)
    requires Parse(s, false).Decimal? && Parse(s, false).end == e
    ensures e <= |s| && Parse(s[..e], false) == Parse(s, false)
  {
    hide Num, DigitRun, AllDigits, MantissaEnd, MantissaDigits, ExponentRun, WrittenExponent;
    var start := SignLength(s, 0);
    var m := MantissaEnd(s, start, false);
    LiteralEnd(s, e);
    assert SignLength(s[..e], 0) == start && At(s[..e], 0) == At(s, 0);
    PrefixStays(s, e, start, "Infinity");
    MantissaPrefix(s, start, e);
    if ExponentMark(s, m, false) { ExponentPrefix(s, m, e); }
    assert m < e ==> At(s[..e], m) == At(s, m);
  }

  lemma PrefixStays(s: string, e: nat, i: nat, w: string)
    requires e <= |s|
    ensures HasPrefix(s[..e], i, w) ==> HasPrefix(s, i, w)
  {
    if i + |w| <= e { assert s[..e][i..i + |w|] == s[i..i + |w|]; }
  }

  lemma LiteralEnd(s: string, e: nat)
    requires Parse(s, false).Decimal? && Parse(s, false).end == e
    ensures var start := SignLength(s, 0);
            && start <= |s| && var m := MantissaEnd(s, start, false);
               start < m <= e <= |s| && (if ExponentMark(s, m, false) then e == ExponentStart(s, m) + ExponentRun(s, m) else e == m)
  {
    hide Num, DigitRun, MantissaEnd, MantissaDigits, ExponentRun, WrittenExponent;
  }

  lemma MantissaPrefix(s: string, start: nat, e: nat)
    requires start <= |s| && start < MantissaEnd(s, start, false) <= e <= |s|
    ensures MantissaEnd(s[..e], start, false) == MantissaEnd(s, start, false)
    ensures MantissaDigits(s[..e], start, false) == MantissaDigits(s, start, false)
    ensures DigitRun(s[..e], start) == DigitRun(s, start)
  {
    hide DigitRun, AllDigits;
    var t, i := s[..e], start + DigitRun(s, start);
    RunPrefix(s, start, e);
    assert t[start..i] == s[start..i];
    assert PointAt(t, start, i, false) == PointAt(s, start, i, false);
    if PointAt(s, start, i, false) {
      RunPrefix(s, i + 1, e);
      assert t[i + 1..i + 1 + DigitRun(s, i + 1)] == s[i + 1..i + 1 + DigitRun(s, i + 1)];
    }
  }

  lemma ExponentPrefix(s: string, m: nat, e: nat)
    requires m < e <= |s| && ExponentMark(s, m, false) && e == ExponentStart(s, m) + ExponentRun(s, m) && ExponentRun(s, m) > 0
    ensures ExponentMark(s[..e], m, false) && ExponentRun(s[..e], m) == ExponentRun(s, m)
    ensures ExponentStart(s[..e], m) == ExponentStart(s, m) && WrittenExponent(s[..e], m) == WrittenExponent(s, m)
  {
    hide Num, DigitRun, AllDigits;
    var t, i := s[..e], ExponentStart(s, m);
    assert At(t, m) == At(s, m) && At(t, m + 1) == At(s, m + 1);
    RunPrefix(s, i, e);
    assert t[i..e] == s[i..e];
  }

  // ---------- a number token has one value ----------

  lemma DigitsOfToken(x: Spelling)
    requires IsNumber(x)
    ensures AllDigits(x.whole + Decimals(x))
  {
    NumberParses(x, []);
  }

  /** What a number token means, where something follows that stops it, js_atod reads there. */
  lemma NumberReads(w: string, n: Json.Bits64, s: string, p: nat)
    requires NumberToken(w, n) && Json.Here(s, p, w) && Dtoa.Stops(s[p + |w|..])
    ensures w != [] && NumberAt(s, p) == Some((n, p + |w|))
  {
    hide Num, Parse, Reader.ReadsAs, Written, IsInteger, IsFraction, IsExponent, Dtoa.Stops, ExponentValue, Decimals;
    var x :| IsNumber(x) && w == Written(x) && NumberMeans(x, n);
    var mag: nat :| mag <= Binary64.INF && AllDigits(x.whole + Decimals(x))
      && Reader.ReadsAs(x.whole + Decimals(x), |x.whole|, ExponentValue(x.exp), mag) && n == BitsOf(x.minus != [], mag);
    var tail := s[p + |w|..];
    NumberParses(x, tail);
    assert s[p..] == w + tail;
    NumberIs(s, p, x.minus != [], mag, |w|);
    WrittenSome(x);
  }

  lemma TokenStarts(w: string, n: Json.Bits64)
    requires NumberToken(w, n)
    ensures w != [] && Json.IsNumberStart(w[0])
  {
    hide NumberMeans, Num, IsExponent, IsFraction;
    var x :| IsNumber(x) && w == Written(x) && NumberMeans(x, n);
    assert IsDigit(x.whole[0]);
    assert w[0] == if x.minus == [] then x.whole[0] else '-';
  }

  lemma WrittenSome(x: Spelling)
    requires IsNumber(x)
    ensures Written(x) != []
  {}

  /** Where js_atod reads a number whose text is a number token, it is what that token means. */
  lemma NumberRead(s: string, p: nat, n: Json.Bits64, q: nat)
    requires NumberAt(s, p) == Some((n, q)) && IsNumberToken(s[p..q])
    ensures NumberToken(s[p..q], n)
  {
    hide Num, Parse, Reader.ReadsAs, Written, IsInteger, IsFraction, IsExponent, ExponentValue, Decimals;
    var negative, mag, end: nat := StandsThere(s, p, n, q);
    var w := s[p..q];
    var x :| IsNumber(x) && w == Written(x);
    assert s[p..][..end] == w;
    NumberParses(x, []);
    assert w + [] == w;
    Literals(s[p..], negative, mag, end, x.minus != [], x.whole + Decimals(x), |x.whole|, ExponentValue(x.exp));
  }

  lemma StandsThere(s: string, p: nat, n: Json.Bits64, q: nat) returns (negative: bool, mag: nat, end: nat)
    requires NumberAt(s, p) == Some((n, q))
    ensures p <= q <= |s| && mag <= Binary64.INF && n == BitsOf(negative, mag) && q == p + end
    ensures Reader.Denotes(Parse(s[p..], false), Reader.Double(negative, mag), end)
  {
    hide Parse, Reader.Denotes;
    negative, mag, end :| Stands(s, p, negative, mag, end);
    NumberIs(s, p, negative, mag, end);
    BitsOnce(negative, mag);
  }

  lemma BitsOnce(negative: bool, mag: nat)
    requires mag <= Binary64.INF
    ensures BitsOf(negative, mag) >= 0
  {}

  lemma Literals(s: string, negative: bool, mag: nat, end: nat, minus: bool, digits: string, point: nat, x: int)
    requires end <= |s| && Reader.Denotes(Parse(s, false), Reader.Double(negative, mag), end)
    requires Parse(s[..end], false) == Decimal(minus, digits, point, x, end)
    ensures minus == negative && AllDigits(digits) && Reader.ReadsAs(digits, point, x, mag)
  {
    hide Parse, Reader.ReadsAs;
    var lit := Parse(s, false);
    if lit.Infinite? {
      InfinityPrefix(s, end);
    } else {
      ParsePrefix(s, end);
    }
  }

  lemma InfinityPrefix(s: string, end: nat)
    requires Parse(s, false).Infinite? && Parse(s, false).end == end
    ensures end <= |s| && Parse(s[..end], false).Infinite?
  {
    hide MantissaEnd, MantissaDigits, DigitRun, Num;
    assert s[..end][SignLength(s, 0)..end] == s[SignLength(s, 0)..end];
  }

  /** A double nearest to every number. */
  lemma NearestExists(z: real) returns (p: nat)
    requires z >= 0.0
    ensures Binary64.Rounded(Rounding.NearestEven, p, z)
  {
    assert Binary64.Mag(0) == 0;
    p := NearestFrom(z, 0);
  }

  lemma NearestFrom(z: real, p: nat) returns (r: nat)
    requires p < Binary64.INF && Binary64.Mag(p) as real <= z
    ensures Binary64.Rounded(Rounding.NearestEven, r, z)
    decreases Binary64.INF - p
  {
    hide Binary64.Mag;
    Binary64.MagStep(p);
    if z >= Binary64.Mag(p + 1) as real && p + 1 < Binary64.INF {
      r := NearestFrom(z, p + 1);
    } else {
      r := Nearer(z, p);
    }
  }

  lemma Nearer(z: real, p: nat) returns (r: nat)
    requires p < Binary64.INF && Binary64.Mag(p) as real <= z
    requires z < Binary64.Mag(p + 1) as real || p + 1 == Binary64.INF
    ensures Binary64.Rounded(Rounding.NearestEven, r, z)
  {
    hide Binary64.Mag;
    Binary64.MagStep(p);
    Binary64.MagStep(p + 1);
    if p > 0 { Binary64.MagStep(p - 1); }
    var mid := (Binary64.Mag(p) + Binary64.Mag(p + 1)) as real;
    r := if 2.0 * z < mid || (2.0 * z == mid && p % 2 == 0) then p else p + 1;
  }

  /** Every number token means one double. */
  lemma NumberTokenMeans(w: string) returns (n: Json.Bits64)
    requires IsNumberToken(w) && |w| <= Reader.MAX_TEXT
    ensures NumberToken(w, n) && forall m :: NumberToken(w, m) ==> m == n
  {
    hide Num, Parse, Written, IsInteger, IsFraction, IsExponent, ExponentValue, Decimals, Reader.ReadsAs;
    var x :| IsNumber(x) && w == Written(x);
    DigitsOfToken(x);
    TokenSize(x);
    var d := x.whole + Decimals(x);
    var mag := ReadsAsSome(d, |x.whole|, ExponentValue(x.exp));
    n := BitsOf(x.minus != [], mag);
    assert NumberMeans(x, n);
    assert Json.Here(w, 0, w) && w[|w|..] == [];
    NumberReads(w, n, w, 0);
    forall m | NumberToken(w, m) ensures m == n { NumberReads(w, m, w, 0); }
  }

  lemma TokenSize(x: Spelling)
    ensures |x.whole| <= |x.whole + Decimals(x)| <= |Written(x)|
  {}

  lemma ReadsAsSome(d: string, point: nat, x: int) returns (mag: nat)
    requires AllDigits(d) && point <= |d| <= Reader.MAX_TEXT
    ensures mag <= Binary64.INF && Reader.ReadsAs(d, point, x, mag)
  {
    hide Num, Kept, KeptExponent, Binary64.Rounded, Reader.ReadValue, LeadExponent;
    mag := 0;
    if Num(d) > 0 {
      var n, q := Num(Kept(d)), KeptExponent(d, point, x);
      if Reader.ExponentFits(d, point, x) {
        ReadValueSign(n, q);
        mag := NearestExists(Reader.ReadValue(n, q));
        Reader.RoundedBound(mag, Reader.ReadValue(n, q));
      } else {
        mag := if x < 0 then Binary64.INF else 0;
        Reader.LeadIs(d, point, x);
        Reader.Extremes(n, q, |Kept(d)|);
      }
    }
  }

  lemma ReadValueSign(n: nat, q: int)
    ensures Reader.ReadValue(n, q) >= 0.0
  {
    hide Powers.Scale;
    Powers.ScalePositive(10, q);
    Powers.ScalePositive(2, 1074);
    Products(n as real, Powers.Scale(10, q), Powers.Scale(2, 1074));
  }

  lemma Products(a: real, b: real, c: real)
    requires a >= 0.0 && b > 0.0 && c > 0.0
    ensures a * b * c >= 0.0
  {
    assert a * b >= 0.0;
  }

  // ---------- strings, section 7 ----------

  function EscapeOf(c: char): Option<Point> {
    match c
    case '"' => Some(34)
    case '\\' => Some(92)
    case '/' => Some(47)
    case 'b' => Some(8)
    case 'f' => Some(12)
    case 'n' => Some(10)
    case 'r' => Some(13)
    case 't' => Some(9)
    case _ => None
  }

  /** The digit that c is in base 16, in either case. */
  function HexOf(c: char): Option<nat> {
    match c
    case 'A' => Some(10)
    case 'B' => Some(11)
    case 'C' => Some(12)
    case 'D' => Some(13)
    case 'E' => Some(14)
    case 'F' => Some(15)
    case 'a' => Some(10)
    case 'b' => Some(11)
    case 'c' => Some(12)
    case 'd' => Some(13)
    case 'e' => Some(14)
    case 'f' => Some(15)
    case _ => if '0' <= c <= '9' then Some((c - '0') as nat) else None
  }

  lemma HexAgrees(c: char)
    ensures HexValue(c) == if HexOf(c).Some? then HexOf(c).value else -1
  {}

  predicate IsHex(w: string) { forall k :: 0 <= k < |w| ==> HexOf(w[k]).Some? }

  function HexNumber(w: string): nat
    requires IsHex(w)
  {
    if w == [] then 0 else 16 * HexNumber(w[..|w| - 1]) + HexOf(w[|w| - 1]).value
  }

  /** A character, as it is or escaped, and its code. */
  predicate CharMeans(w: string, c: Point) {
    || (|w| == 1 && w[0] >= ' ' && w[0] != '"' && w[0] != '\\' && c == w[0] as nat)
    || (|w| == 2 && w[0] == '\\' && EscapeOf(w[1]) == Some(c))
    || (|w| == 6 && w[0] == '\\' && w[1] == 'u' && IsHex(w[2..]) && c == HexNumber(w[2..]))
  }

  /** Characters one after another, and their codes. */
  ghost predicate CharsMean(w: string, codes: seq<Point>)
    decreases |codes|
  {
    if codes == [] then w == []
    else exists k: nat {:trigger w[..k]} :: k <= |w| && CharMeans(w[..k], codes[0]) && CharsMean(w[k..], codes[1..])
  }

  /** The string of these codes: two surrogates that make a pair are one character. */
  function Paired(codes: seq<Point>): JsString {
    if codes == [] then EMPTY else Concat([codes[0]], Paired(codes[1..]))
  }

  /** Characters between quotes, and the string they mean. */
  ghost predicate StringToken(w: string, v: JsString) {
    && |w| >= 2 && w[0] == '"' && w[|w| - 1] == '"'
    && exists codes :: CharsMean(w[1..|w| - 1], codes) && v == Paired(codes)
  }

  ghost predicate IsStringToken(w: string) { exists v :: StringToken(w, v) }

  // ---------- how the scanner reads them ----------

  lemma CharReads(x: string, c: Point, s: string, p: nat)
    requires CharMeans(x, c) && Json.Here(s, p, x)
    ensures Unquote(s, p) == Before([c], Unquote(s, p + |x|))
  {
    hide Before, EscapeAt, Json.Here, EscapeOf, HexNumber, IsHex;
    forall k | 0 <= k < |x| ensures Json.At(s, p + k) == x[k] { HereAt(s, p, x, k); }
    assert Json.At(s, p + 0) == x[0];
    if |x| == 2 {
      assert Json.At(s, p + 1) == x[1];
      EscapeReads(x[1], c, s, p + 1);
    } else if |x| == 6 {
      assert Json.At(s, p + 1) == x[1];
      forall k | 0 <= k < 4 ensures Json.At(s, p + 2 + k) == x[2..][k] { assert Json.At(s, p + (2 + k)) == x[2 + k]; }
      HexReads(x[2..], s, p + 1);
    }
  }

  /** The escapes of section 7; the scanner knows the slash only as an unknown one, and reads it next. */
  lemma EscapeReads(e: char, c: Point, s: string, i: nat)
    requires EscapeOf(e) == Some(c) && Json.At(s, i) == e
    ensures e != '\n' && (e != '/' ==> EscapeAt(s, i) == Escaped(c, 1))
    ensures e == '/' ==> EscapeAt(s, i) == Escape.Unknown && c == 47 && Unquote(s, i) == Before([c], Unquote(s, i + 1))
  {
    hide Before;
  }

  lemma HexReads(w: string, s: string, i: nat)
    requires |w| == 4 && IsHex(w) && Json.At(s, i) == 'u' && forall k :: 0 <= k < 4 ==> Json.At(s, i + 1 + k) == w[k]
    ensures HexNumber(w) < 0x10000 && EscapeAt(s, i) == Escaped(HexNumber(w), 5)
  {
    hide HexRun, Braced, HexNumber;
    assert Json.At(s, i + 1 + 0) == w[0] && Json.At(s, i + 1 + 1) == w[1];
    assert Json.At(s, i + 1 + 2) == w[2] && Json.At(s, i + 1 + 3) == w[3];
    HexNumberOf(w);
    assert w[0] != '{' by { assert HexOf(w[0]).Some?; }
    hide HexValue;
    HexFour(s, i + 1, HexValue(w[0]), HexValue(w[1]), HexValue(w[2]), HexValue(w[3]));
    FourFit(s, i + 1, 4);
  }

  lemma HexNumberOf(w: string)
    requires |w| == 4 && IsHex(w)
    ensures forall k :: 0 <= k < 4 ==> HexValue(w[k]) >= 0
    ensures HexNumber(w) == 16 * (16 * (16 * HexValue(w[0]) + HexValue(w[1])) + HexValue(w[2])) + HexValue(w[3])
  {
    hide HexValue, HexOf;
    forall k | 0 <= k < 4 ensures HexOf(w[k]).Some? && HexValue(w[k]) == HexOf(w[k]).value { HexAgrees(w[k]); }
    var a, b, c := w[..3], w[..2], w[..1];
    assert a[..2] == b && b[..1] == c && c[..0] == [];
    assert HexNumber(c) == HexValue(w[0]) by { assert HexNumber([]) == 0; }
    assert HexNumber(b) == 16 * HexNumber(c) + HexValue(w[1]);
    assert HexNumber(a) == 16 * HexNumber(b) + HexValue(w[2]);
  }

  lemma {:induction false} CharsRead(w: string, codes: seq<Point>, s: string, p: nat)
    requires CharsMean(w, codes) && Json.Here(s, p, w + "\"")
    ensures Unquote(s, p) == Some((Paired(codes), p + |w| + 1))
    decreases |codes|
  {
    hide Json.Here, Unquote, CharMeans;
    if codes == [] {
      assert w + "\"" == "\"";
      Json.HereFirst(s, p, "\"");
      QuoteEnds(s, p);
    } else {
      var k: nat :| k <= |w| && CharMeans(w[..k], codes[0]) && CharsMean(w[k..], codes[1..]);
      assert w + "\"" == w[..k] + (w[k..] + "\"");
      Json.HereParts(s, p, w[..k], w[k..] + "\"");
      CharReads(w[..k], codes[0], s, p);
      CharsRead(w[k..], codes[1..], s, p + k);
    }
  }

  /** What a string token means, the scanner reads where it stands. */
  lemma StringReads(w: string, v: JsString, s: string, p: nat)
    requires StringToken(w, v) && Json.Here(s, p, w)
    ensures |w| > 1 && Json.At(s, p) == '"' && Unquote(s, p + 1) == Some((v, p + |w|))
  {
    hide Json.Here, Unquote, CharsMean;
    var inner := w[1..|w| - 1];
    var codes :| CharsMean(inner, codes) && v == Paired(codes);
    assert w == "\"" + (inner + "\"");
    Json.HereFirst(s, p, w);
    Json.HereParts(s, p, "\"", inner + "\"");
    CharsRead(inner, codes, s, p + 1);
  }

  /** Where the scanner reads a string whose text is a string token, it is what that token means. */
  lemma StringRead(s: string, p: nat, v: JsString, q: nat)
    requires p < q <= |s| && Unquote(s, p + 1) == Some((v, q)) && IsStringToken(s[p..q])
    ensures StringToken(s[p..q], v)
  {
    hide Unquote, StringToken;
    var u :| StringToken(s[p..q], u);
    StringReads(s[p..q], u, s, p);
  }

  // ---------- what the engine reads beyond RFC 8259 ----------

  lemma NumberFound(s: string, d: string, point: nat, x: int) returns (n: Json.Bits64)
    requires AllDigits(d) && point <= |d| <= Reader.MAX_TEXT && Parse(s, false) == Decimal(false, d, point, x, |s|)
    ensures NumberAt(s, 0) == Some((n, |s|))
  {
    hide Parse, Reader.ReadsAs, Num;
    var mag := ReadsAsSome(d, point, x);
    assert s[0..] == s;
    NumberIs(s, 0, false, mag, |s|);
    n := BitsOf(false, mag);
  }

  lemma LooseReads() returns (n: Json.Bits64, m: Json.Bits64, k: Json.Bits64)
    ensures NumberAt("01", 0) == Some((n, 2)) && NumberAt("1.", 0) == Some((m, 2)) && NumberAt("-Infinity", 0) == Some((k, 9))
  {
    hide NumberAt, Num, Parse;
    ZeroOne();
    n := NumberFound("01", "01", 2, 0);
    OnePoint();
    m := NumberFound("1.", "1", 1, 0);
    InfinityReads();
    k := BitsOf(true, Binary64.INF);
  }

  lemma InfinityReads()
    ensures NumberAt("-Infinity", 0) == Some((BitsOf(true, Binary64.INF), 9))
  {
    hide NumberAt, MantissaEnd, MantissaDigits, DigitRun, Num, ExponentMark;
    var s := "-Infinity";
    assert s[1..9] == "Infinity" && s[0..] == s;
    NumberIs(s, 0, true, Binary64.INF, 9);
  }

  lemma ZeroOne()
    ensures Parse("01", false) == Decimal(false, "01", 2, 0, 2) && AllDigits("01")
  {
    hide Num, DigitRun, MantissaEnd, MantissaDigits, WithExponent;
    var s := "01";
    assert s[0..2] == s && AllDigits(s[0..2]) && At(s, 2) == 0 as char;
    MantissaIs(s, 0, 2, s, [], []);
    assert s + [] == s;
    Dtoa.NotInfinity(s, 0);
  }

  lemma OnePoint()
    ensures Parse("1.", false) == Decimal(false, "1", 1, 0, 2) && AllDigits("1")
  {
    hide Num, DigitRun, MantissaEnd, MantissaDigits, WithExponent;
    var s := "1.";
    assert s[0..1] == "1" && AllDigits(s[0..1]) && At(s, 1) == '.' && At(s, 2) == 0 as char && s[2..2] == [];
    MantissaIs(s, 0, 1, "1", ".", []);
    assert "1" + [] == "1";
    Dtoa.NotInfinity(s, 0);
  }

  /** Number tokens begin and end with a digit, but for a minus sign, and no digit follows a zero they begin with. */
  lemma TokenShape(w: string)
    requires IsNumberToken(w)
    ensures w != [] && IsDigit(w[|w| - 1])
    ensures w[0] == '0' && |w| > 1 ==> !IsDigit(w[1])
  {
    hide Num, IsExponent, IsFraction, IsInteger, Written;
    var x :| IsNumber(x) && w == Written(x);
    TokenEnds(x);
    TokenBegins(x);
  }

  lemma TokenBegins(x: Spelling)
    requires IsNumber(x)
    ensures var w := Written(x); w != [] && (w[0] == '0' && |w| > 1 ==> !IsDigit(w[1]))
  {
    hide Num, IsExponent, AllDigits;
    var w, rest := Written(x), x.frac + x.exp;
    assert w == x.minus + (x.whole + rest);
    RestBegins(x);
    if x.minus == [] {
      assert w == x.whole + rest && w[0] == x.whole[0];
      if |x.whole| == 1 && |w| > 1 { assert w[1] == rest[0]; }
    }
  }

  lemma RestBegins(x: Spelling)
    requires IsNumber(x)
    ensures var rest := x.frac + x.exp; rest != [] ==> !IsDigit(rest[0])
  {
    hide Num, AllDigits;
    if x.frac == [] { assert x.frac + x.exp == x.exp; }
  }

  lemma TokenEnds(x: Spelling)
    requires IsNumber(x)
    ensures Written(x) != [] && IsDigit(Written(x)[|Written(x)| - 1])
  {
    hide Num;
    var w := Written(x);
    if x.exp != [] {
      assert w[|w| - 1] == x.exp[|x.exp| - 1] && IsDigit(x.exp[|x.exp| - 1]) by { ExponentEnds(x.exp); }
    } else if x.frac != [] {
      assert w[|w| - 1] == x.frac[|x.frac| - 1] == x.frac[1..][|x.frac| - 2];
    } else {
      assert w[|w| - 1] == x.whole[|x.whole| - 1];
    }
  }

  lemma ExponentEnds(e: string)
    requires e != [] && IsExponent(e)
    ensures IsDigit(e[|e| - 1])
  {
    hide Num;
    var d := if IsSigned(e[1..]) then e[2..] else e[1..];
    assert d[|d| - 1] == e[|e| - 1];
  }

  lemma LooseSpelled()
    ensures !IsNumberToken("01") && !IsNumberToken("1.") && !IsNumberToken("-Infinity")
  {
    hide IsNumberToken;
    forall w | IsNumberToken(w) ensures w != "01" && w != "1." && w != "-Infinity" { TokenShape(w); }
  }

  lemma LooseQuoted()
    ensures Unquote("\"\\q\"", 1) == Some((Alone(113), 4)) && Unquote("\"\t\"", 1) == Some((Alone(9), 3))
    ensures Unquote("\"\\\n\"", 1) == Some((EMPTY, 4))
  {
    UnknownDropped();
    TabRead();
    LineGoesOn();
  }

  lemma UnknownDropped()
    ensures Unquote("\"\\q\"", 1) == Some((Alone(113), 4))
  {
    hide Concat;
    var s := "\"\\q\"";
    assert Json.At(s, 1) == '\\' && Json.At(s, 2) == 'q' && Json.At(s, 3) == '"';
    QuoteEnds(s, 3);
    NothingMore(113);
    assert EscapeAt(s, 2) == Escape.Unknown;
    assert Unquote(s, 2) == Before(Alone(113), Unquote(s, 3));
  }

  lemma TabRead()
    ensures Unquote("\"\t\"", 1) == Some((Alone(9), 3))
  {
    hide Concat;
    var s := "\"\t\"";
    assert Json.At(s, 1) == '\t' && Json.At(s, 2) == '"';
    QuoteEnds(s, 2);
    NothingMore(9);
  }

  lemma LineGoesOn()
    ensures Unquote("\"\\\n\"", 1) == Some((EMPTY, 4))
  {
    var s := "\"\\\n\"";
    assert Json.At(s, 1) == '\\' && Json.At(s, 2) == '\n' && Json.At(s, 3) == '"';
    QuoteEnds(s, 3);
  }

  lemma NothingMore(c: Point)
    ensures Concat(Alone(c), EMPTY) == Alone(c)
  {
    assert Alone(c) + EMPTY == Alone(c);
  }

  lemma LooseQuotes()
    ensures !IsStringToken("\"\\q\"") && !IsStringToken("\"\t\"") && !IsStringToken("\"\\\n\"")
  {
    var s, u, v := "\"\\q\"", "\"\t\"", "\"\\\n\"";
    assert s[1..3] == "\\q" && u[1..2] == "\t" && v[1..3] == "\\\n";
    forall codes ensures !CharsMean("\\q", codes) && !CharsMean("\t", codes) && !CharsMean("\\\n", codes) {
      NoChars("\\q", codes);
      NoChars("\t", codes);
      NoChars("\\\n", codes);
    }
  }

  lemma NoChars(w: string, codes: seq<Point>)
    requires w != [] && (w[0] < ' ' || (|w| == 2 && w[0] == '\\' && EscapeOf(w[1]).None?))
    ensures !CharsMean(w, codes)
  {}
}
