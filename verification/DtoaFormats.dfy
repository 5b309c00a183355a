/** js_dtoa with a given number of digits, or of decimals, in base 10: the texts of toPrecision, toExponential and toFixed. */
module DtoaFormats {
  import opened Arith
  import opened Powers
  import opened Rounding
  import opened Binary64
  import opened Limbs
  import opened Bignum
  import opened Scaling
  import opened Shortest
  import opened FreeFormat
  import opened DecimalText
  import opened DecimalDigits
  import opened Dtoa

  // ---------- a number of digits ----------

  /** The text of the n digits nearest to a nonzero double, the larger ones of two as near. */
  ghost predicate IsFixedText(s: string, negative: bool, mag: nat, n: nat, mode: ExpMode) {
    exists E: int, mant: nat {:trigger Candidate(FloatOf(mag), n, E, mant)} ::
      && Candidate(FloatOf(mag), n, E, mant) && RoundedInteger(NearestAway, mant, Scaled10(FloatOf(mag), n - E))
      && s == Sign(negative) + DigitText(DigitsOf(mant, n), E, mode, n)
  }

  method PrintFixed(buf: array<char>, tmp1: Mpb, mantMax: Mpb, negative: bool, mag: nat, n: nat, mode: ExpMode, minusZero: bool)
    returns (len: nat)
    requires mag < TWO63 && 1 <= n <= 101 && buf.Length > Room(n, n)
    requires tmp1 != mantMax && tmp1.tab != mantMax.tab
    requires tmp1.tab.Length == BIGNUM_LIMBS && mantMax.tab.Length == MANTISSA_LIMBS
    modifies buf, tmp1`len, tmp1.tab, mantMax`len, mantMax.tab
    ensures len <= Room(n, n)
    ensures mag == 0 ==> buf[..len] == Sign(negative && minusZero) + DigitText(DigitsOf(0, n), 1, mode, n)
    ensures 0 < mag < INF ==> IsFixedText(buf[..len], negative, mag, n, mode)
    ensures mag >= INF ==> buf[..len] == SpecialText(negative, mag)
  {
    hide Pow, FloatOf, Candidate, RoundedInteger, DigitText, DigitsOf, Scaled10, Printable;
    if mag >= INF {
      len := PrintSpecial(buf, negative, mag);
      return;
    }
    var q0 := PutSign(buf, negative && (mag > 0 || minusZero));
    if mag == 0 {
      SetZero(tmp1);
      len := WriteNumber(buf, q0, tmp1, n, 1, mode, n);
    } else {
      var x := FloatOf(mag);
      FloatOfPattern(mag);
      var E := FixedDigits(tmp1, mantMax, x, n);
      ghost var mant := tmp1.Value();
      CandidateRange(x, n, E, mant);
      len := WriteNumber(buf, q0, tmp1, n, E, mode, n);
    }
    assert buf[..len] == buf[..q0] + buf[q0..len];
  }

  lemma CandidateRange(x: Float, n: nat, E: int, mant: nat)
    requires Printable(x) && Candidate(x, n, E, mant)
    ensures -390 <= E <= 390
  {
    hide Pow, Scaled10, WithinHalf, FirstExponent, Printable;
    CandidateSize(x, n, E, mant);
    ExponentRange(x);
  }

  /** The text denotes those digits, times their power of ten. */
  lemma FixedTextDenotes(s: string, negative: bool, mag: nat, n: nat, mode: ExpMode)
    returns (E: int, mant: nat, d: string, point: nat, e: int)
    requires n > 0 && IsFixedText(s, negative, mag, n, mode)
    ensures Candidate(FloatOf(mag), n, E, mant) && RoundedInteger(NearestAway, mant, Scaled10(FloatOf(mag), n - E))
    ensures Parse(s, false) == Decimal(negative, d, point, e, |s|) && AllDigits(d)
    ensures DecimalValue(Num(d), e + point - |d|) == DecimalValue(mant, E - n)
  {
    hide Pow, FloatOf, RoundedInteger, Scaled10, InRange, WithinHalf, DigitText, Parse, Num, DecimalValue, Shape;
    E, mant :| && Candidate(FloatOf(mag), n, E, mant) && RoundedInteger(NearestAway, mant, Scaled10(FloatOf(mag), n - E))
               && s == Sign(negative) + DigitText(DigitsOf(mant, n), E, mode, n);
    DigitsOfNum(mant, n);
    var a, b, t, x := DigitTextLayout(DigitsOf(mant, n), E, mode, n);
    SignedShape(negative, a, b, t);
    ShapeParses(negative, a, b, t, x, []);
    assert s + [] == s;
    d, point, e := a + b, |a|, x;
  }

  // ---------- a number of decimals ----------

  function Max(a: int, b: int): int { if a < b then b else a }

  /** v in units of 10^-n: as many digits as v has, but at least one before the point. */
  function FractionText(v: nat, n: nat): string {
    var k := Max(n + 1, |Dec(v)|);
    WithPoint(DigitsOf(v, k), k - n)
  }

  /** Places js_dtoa asks for, with one more than the exponent guess promises. */
  function Places(x: Float, n: nat): (k: nat)
    ensures k > n
  {
    Max(FirstExponent(x) + 1, 1) + n
  }

  lemma FractionFits(x: Float, n: nat, v: nat)
    requires Printable(x) && RoundedInteger(NearestAway, v, Scaled10(x, n))
    ensures v < Pow(10, Places(x, n)) && (Places(x, n) > n + 1 ==> v >= Pow(10, Places(x, n) - 2))
  {
    hide Pow, Scaled10, FirstExponent, Printable, RoundedInteger;
    var E, t := FirstExponent(x), Scaled10(x, n);
    RoundsWithinHalf(NearestAway, v, t);
    if E >= 1 {
      var P := E + n;
      AttemptBracket(x, P);
      PowStep(10, P);
      Positive(1, Pow(10, P));
    } else {
      SmallScaled(x, n);
      PowStep(10, n);
    }
    PowMonotone(10, 0, n);
    PowStep(10, 0);
    if E >= 1 { PowMonotone(10, 0, E + n); }
  }

  lemma SmallScaled(x: Float, n: nat)
    requires Printable(x) && FirstExponent(x) <= 0
    ensures Scaled10(x, n) < 2.0 * Pow(10, n) as real
  {
    hide Pow, Scale, FirstExponent, FloatValue, Printable;
    var E := FirstExponent(x);
    var u, s := Scale(10, E), Scale(10, n);
    ExponentBracket(x);
    ScaleInverse(10, E);
    ScaleNat(10, -E);
    PowMonotone(10, 0, -E);
    PowStep(10, 0);
    ScalePositive(10, E);
    ScalePositive(10, n);
    ScaleNat(10, n);
    AtMostOne(u, Scale(10, -E));
    RealOrder(FloatValue(x), 2.0, s);
  }

  lemma AtMostOne(a: real, b: real)
    requires a > 0.0 && b >= 1.0 && a * b == 1.0
    ensures a <= 1.0
  {
    RealOrder(1.0, b, a);
  }

  lemma DecSize(v: nat, k: nat)
    requires k > 0 && v < Pow(10, k)
    ensures |Dec(v)| <= k && (v >= Pow(10, k - 1) ==> |Dec(v)| == k)
  {
    hide Pow, Dec, Num;
    DecLength(v, k);
    if v >= Pow(10, k - 1) {
      DecNum(v);
      NumBound(Dec(v));
      if |Dec(v)| < k { PowMonotone(10, |Dec(v)|, k - 1); }
    }
  }

  /** The leading digit, and those after it. */
  lemma LeadingDigit(v: nat, m: nat)
    requires v < Pow(10, m + 1)
    ensures var d := DigitsOf(v, m + 1);
            && (d[0] == '0' <==> v < Pow(10, m)) && (v < Pow(10, m) ==> d == "0" + DigitsOf(v, m))
  {
    hide Pow, DigitsOf;
    var p := Pow(10, m);
    PowMonotone(10, 0, m);
    PowStep(10, 0);
    PowStep(10, m);
    var q, r := Leading(v, p);
    DigitsSplit(q, r, m, 1);
    OneDigit(q);
  }

  lemma Leading(v: nat, p: nat) returns (q: nat, r: nat)
    requires 0 < p && v < 10 * p
    ensures v == q * p + r && r < p && q < 10 && (q == 0 <==> v < p)
  {
    q, r := v / p, v % p;
    MulMonotone(10, q, p);
    MulMonotone(1, q, p);
  }

  lemma OneDigit(q: nat)
    ensures DigitsOf(q, 1) == [DigitChar(q % 10)] && (q < 10 ==> (DigitChar(q) == '0' <==> q == 0))
    ensures q == 0 ==> DigitsOf(q, 1) == "0"
  {
    assert DigitsOf(q / 10, 0) == [];
  }

  lemma MulMonotone(a: nat, b: nat, c: nat)
    ensures a <= b ==> a * c <= b * c
  {}

  /** One digit more than needed goes. */
  lemma ExtraDigit(v: nat, n: nat, L: nat)
    requires n < L && v < Pow(10, L) && (L > n + 1 ==> v >= Pow(10, L - 2))
    ensures var t := WithPoint(DigitsOf(v, L), L - n);
            && |t| > 0
            && FractionText(v, n) == if t[0] == '0' && |t| >= 2 && t[1] != '.' then t[1..] else t
  {
    hide Pow, DigitsOf, Dec, FractionText, WithPoint;
    DigitsOfNum(v, L);
    var d := DigitsOf(v, L);
    if L == n + 1 {
      DecSize(v, L);
      TextOfSize(v, n, L);
      PointSecond(d);
    } else {
      LeadingDigit(v, L - 1);
      Begins(d, L - n);
      var k := if v < Pow(10, L - 1) then L - 1 else L;
      DecSize(v, k);
      TextOfSize(v, n, k);
      if k < L {
        assert d[1..] == DigitsOf(v, k);
        Shifted(d, L - n);
      }
    }
  }

  lemma TextOfSize(v: nat, n: nat, k: nat)
    requires n < k && |Dec(v)| <= k && (k > n + 1 ==> |Dec(v)| == k)
    ensures FractionText(v, n) == WithPoint(DigitsOf(v, k), k - n)
  {
    hide Dec, DigitsOf, WithPoint;
  }

  lemma PointSecond(d: string)
    requires d != []
    ensures var t := WithPoint(d, 1); |t| > 0 && (|t| >= 2 ==> t[1] == '.')
  {
    assert d[..1] == [d[0]];
  }

  lemma Begins(d: string, k: nat)
    requires 2 <= k <= |d| && AllDigits(d)
    ensures var t := WithPoint(d, k); |t| >= 2 && t[0] == d[0] && t[1] == d[1] && t[1] != '.'
  {
    assert IsDigit(d[1]);
  }

  lemma Shifted(d: string, k: nat)
    requires 2 <= k <= |d|
    ensures WithPoint(d, k)[1..] == WithPoint(d[1..], k - 1)
  {
    assert d[..k][1..] == d[1..][..k - 1] && d[k..] == d[1..][k - 1..];
  }

  /** v is x times 10^n, rounded to an integer, halves away from zero. */
  ghost predicate IsFractionText(s: string, negative: bool, mag: nat, n: nat) {
    hide Dec, DigitsOf, FractionText, Scaled10, RoundedInteger;
    exists v: nat {:trigger FractionText(v, n)} ::
      RoundedInteger(NearestAway, v, Scaled10(FloatOf(mag), n)) && s == Sign(negative) + FractionText(v, n)
  }

  /** Room for the places, a point and the sign. */
  function FractionLength(mag: nat, n: nat): nat {
    if mag >= INF then 9 else (if mag == 0 then 1 + n else Places(FloatOf(mag), n)) + 2
  }

  method PrintFraction(buf: array<char>, tmp1: Mpb, negative: bool, mag: nat, n: nat, minusZero: bool) returns (len: nat)
    requires mag < TWO63 && n <= 101 && buf.Length > FractionLength(mag, n) && tmp1.tab.Length == BIGNUM_LIMBS
    modifies buf, tmp1`len, tmp1.tab
    ensures len <= FractionLength(mag, n)
    ensures mag == 0 ==> buf[..len] == Sign(negative && minusZero) + FractionText(0, n)
    ensures 0 < mag < INF ==> IsFractionText(buf[..len], negative, mag, n)
    ensures mag >= INF ==> buf[..len] == SpecialText(negative, mag)
  {
    hide FloatOf, RoundedInteger, FractionText, Scaled10, Printable, Places;
    if mag >= INF {
      len := PrintSpecial(buf, negative, mag);
      return;
    }
    var q0 := PutSign(buf, negative && (mag > 0 || minusZero));
    if mag == 0 {
      len := WriteZeroFraction(buf, q0, tmp1, n);
    } else {
      FloatOfPattern(mag);
      ghost var v;
      len, v := WriteFraction(buf, q0, tmp1, FloatOf(mag), n);
    }
    assert buf[..len] == buf[..q0] + buf[q0..len];
  }

  method WriteZeroFraction(buf: array<char>, q0: nat, tmp1: Mpb, n: nat) returns (q: nat)
    requires q0 <= 1 && buf.Length > n + 3 && tmp1.tab.Length == BIGNUM_LIMBS
    modifies buf, tmp1`len, tmp1.tab
    ensures q0 <= q <= n + 3 && buf[q0..q] == FractionText(0, n) && buf[..q0] == old(buf[..q0])
  {
    hide DigitsOf, Dec, FractionText, WithPoint;
    SetZero(tmp1);
    q := PutDigits(buf, q0, q0, tmp1, n + 1, 1);
    ZeroFraction(n);
    assert buf[q0..q0] == [];
    assert [] + FractionText(0, n) == FractionText(0, n);
  }

  method WriteFraction(buf: array<char>, q0: nat, tmp1: Mpb, x: Float, n: nat) returns (q: nat, ghost v: nat)
    requires Printable(x) && q0 <= 1 && n <= 101 && buf.Length > Places(x, n) + 2 && tmp1.tab.Length == BIGNUM_LIMBS
    modifies buf, tmp1`len, tmp1.tab
    ensures q0 <= q <= Places(x, n) + 2 && buf[..q0] == old(buf[..q0])
    ensures RoundedInteger(NearestAway, v, Scaled10(x, n)) && buf[q0..q] == FractionText(v, n)
  {
    hide *;
    FractionDigits(tmp1, x, n);
    v := tmp1.Value();
    FractionFits(x, n, v);
    var L := Places(x, n);
    ExtraDigit(v, n, L);
    q := PutPlaces(buf, q0, tmp1, L, n);
  }

  /** L digits with n of them behind the point, but without an extra zero in front. */
  method PutPlaces(buf: array<char>, q0: nat, tmp1: Mpb, L: nat, n: nat) returns (q: nat)
    requires tmp1.Valid() && n < L && q0 + L + 1 <= buf.Length
    modifies buf, tmp1`len, tmp1.tab
    ensures q0 <= q <= q0 + L + 1 && buf[..q0] == old(buf[..q0])
    ensures var t := WithPoint(DigitsOf(old(tmp1.Value()), L), L - n);
            |t| > 0 && buf[q0..q] == if t[0] == '0' && |t| >= 2 && t[1] != '.' then t[1..] else t
  {
    hide DigitsOf, WithPoint;
    ghost var t := WithPoint(DigitsOf(tmp1.Value(), L), L - n);
    PointedSize(DigitsOf(tmp1.Value(), L), L - n);
    q := PutDigits(buf, q0, q0, tmp1, L, L - n);
    assert buf[q0..q] == t by { assert buf[q0..q] == [] + t; }
    if buf[q0] == '0' && q - q0 >= 2 && buf[q0 + 1] != '.' {
      MoveDown(buf, q0, q - 1);
      q := q - 1;
    }
  }

  lemma PointedSize(d: string, k: nat)
    requires k <= |d| && d != []
    ensures |WithPoint(d, k)| > 0
  {}

  /** memmove by one character. */
  method MoveDown(buf: array<char>, from: nat, to: nat)
    requires from <= to < buf.Length
    modifies buf
    ensures buf[from..to] == old(buf[from..to + 1])[1..] && buf[..from] == old(buf[..from])
  {
    forall k | from <= k < to { buf[k] := buf[k + 1]; }
  }

  lemma ZeroFraction(n: nat)
    ensures FractionText(0, n) == WithPoint(DigitsOf(0, n + 1), 1)
  {
    hide Pow, DigitsOf;
    PowMonotone(10, 0, n + 1);
    PowStep(10, 0);
    DecSize(0, 1);
  }

  /** The text denotes v in units of 10^-n, has n digits behind the point, and no zero in front it could do without. */
  lemma FractionTextDenotes(negative: bool, v: nat, n: nat)
    ensures var s := Sign(negative) + FractionText(v, n);
            var lit := Parse(s, false);
            && lit.Decimal? && lit.negative == negative && lit.end == |s| && lit.exponent == 0
            && AllDigits(lit.digits) && Num(lit.digits) == v
            && |lit.digits| - lit.point == n && lit.point >= 1 && (lit.point > 1 ==> lit.digits[0] != '0')
  {
    hide Pow, DigitsOf, Dec, Num, Parse, Shape;
    var k := Max(n + 1, |Dec(v)|);
    var d, p := DigitsOf(v, k), k - n;
    DecNum(v);
    NumBound(Dec(v));
    PowMonotone(10, |Dec(v)|, k);
    DigitsOfNum(v, k);
    PointShape(d, p, []);
    SplitDigits(d, p);
    NoExponent();
    SignedShape(negative, d[..p], d[p..], []);
    ShapeParses(negative, d[..p], d[p..], [], 0, []);
    var s := Sign(negative) + FractionText(v, n);
    assert WithPoint(d, p) + [] == WithPoint(d, p) && s + [] == s;
    if p > 1 { FullDigits(v, k); }
  }

  lemma FullDigits(v: nat, k: nat)
    requires |Dec(v)| == k > 1
    ensures DigitsOf(v, k)[0] != '0'
  {
    hide Pow, DigitsOf, Dec, Num;
    DecNum(v);
    NumBound(Dec(v));
    PowMonotone(10, 0, k - 1);
    PowStep(10, 0);
    LeadingDigit(v, k - 1);
    if v < Pow(10, k - 1) { DecLength(v, k - 1); }
  }
}
