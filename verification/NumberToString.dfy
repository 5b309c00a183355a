/** What ECMA-262 asks of the texts of numbers (sections 9.8.1, 15.7.4.6 and 15.7.4.7), and which numbers get an exponent. */
module NumberToString {
  import opened Arith
  import opened Powers
  import opened Rounding
  import opened Binary64
  import opened Scaling
  import opened Shortest
  import opened FreeFormat
  import opened DecimalText
  import opened DecimalDigits
  import opened Dtoa
  import opened DtoaFormats

  // ---------- the layouts of the standard ----------

  function ExponentPart(e: nat, negative: bool): string { "e" + (if negative then "-" else "+") + Dec(e) }

  /** Digits d of a number from 10^(n - 1) up, with an exponent. */
  function WithExponent(d: string, n: int): string
    requires d != []
  {
    (if |d| == 1 then d else [d[0]] + "." + d[1..]) + (if n - 1 < 0 then ExponentPart(1 - n, true) else ExponentPart(n - 1, false))
  }

  /** Section 9.8.1, steps 6 to 10: the k digits d of the integer s for the number s * 10^(n - k). */
  function ToStringText(d: string, n: int): string
    requires d != []
  {
    var k := |d|;
    if k <= n <= 21 then d + Zeros(n - k)
    else if 0 < n <= 21 then d[..n] + "." + d[n..]
    else if -6 < n <= 0 then "0." + Zeros(-n) + d
    else WithExponent(d, n)
  }

  /** Section 15.7.4.7, steps 10 to 14: p digits m of a number from 10^e up. */
  function ToPrecisionText(m: string, e: int): string
    requires m != []
  {
    var p := |m|;
    if e < -6 || e >= p then WithExponent(m, e + 1)
    else if e == p - 1 then m
    else if e >= 0 then m[..e + 1] + "." + m[e + 1..]
    else "0." + Zeros(-(e + 1)) + m
  }

  lemma ExponentLayout(d: string, n: int)
    requires d != []
    ensures WithPoint(d, 1) + "e" + ExponentText(n - 1) == WithExponent(d, n)
  {
    hide Dec;
    assert |d| > 1 ==> d[..1] == [d[0]];
  }

  /** The layout of js_dtoa in free format is that of section 9.8.1. */
  lemma FreeLayout(d: string, n: int)
    requires d != []
    ensures FreeText(d, n, Auto) == ToStringText(d, n) && FreeText(d, n, Always) == WithExponent(d, n)
  {
    hide Dec, WithExponent, ExponentText;
    ExponentLayout(d, n);
  }

  /** With a number of digits it is that of toPrecision, and with an exponent always that of toExponential. */
  lemma PrecisionLayout(m: string, e: int)
    requires m != []
    ensures DigitText(m, e + 1, Auto, |m|) == ToPrecisionText(m, e) && DigitText(m, e + 1, Always, |m|) == WithExponent(m, e + 1)
  {
    hide Dec, WithExponent, ExponentText;
    ExponentLayout(m, e + 1);
    if e + 1 == |m| { assert m + Zeros(0) == m; }
  }

  // ---------- where there is an e ----------

  lemma NoLetter(d: string)
    requires AllDigits(d)
    ensures 'e' !in d
  {}

  /** The text has an exponent where the layout asks for one. */
  lemma LetterShows(d: string, e: int, mode: ExpMode, max: nat, sign: bool)
    requires d != [] && AllDigits(d)
    ensures 'e' in Sign(sign) + DigitText(d, e, mode, max) <==> NeedsExponent(e, mode, max)
  {
    hide Dec;
    NoLetter(d);
    DigitTextIs(d, e, mode, max);
    if NeedsExponent(e, mode, max) {
      var w := WithPoint(d, 1) + "e" + ExponentText(e - 1);
      assert w[|WithPoint(d, 1)|] == 'e';
    } else if e <= 0 {
      NoLetter(Zeros(-e));
    } else if e >= |d| {
      NoLetter(Zeros(e - |d|));
    }
  }

  // ---------- the exponent and the decimal ----------

  /** P digits at exponent E stand for a number from 10^(E - 1) up to 10^E. */
  lemma DecimalRange(n: nat, P: nat, E: int)
    requires P >= 1 && Pow(10, P - 1) <= n < Pow(10, P)
    ensures Scale(10, E - 1) <= DecimalValue(n, E - P) < Scale(10, E)
  {
    hide Scale, Pow;
    var s := Scale(10, E - P);
    ScalePositive(10, E - P);
    ScaleAdd(10, P - 1, E - P);
    ScaleAdd(10, P, E - P);
    ScaleNat(10, P - 1);
    ScaleNat(10, P);
    RealOrder(Pow(10, P - 1) as real, n as real, s);
    RealOrder(n as real, Pow(10, P) as real, s);
  }

  lemma {:induction false} ScaleMonotone(j: int, k: int)
    requires j <= k
    ensures Scale(10, j) <= Scale(10, k)
    decreases k - j
  {
    hide Scale;
    if j < k {
      ScaleMonotone(j, k - 1);
      ScaleStep(10, k - 1);
      ScalePositive(10, k - 1);
    }
  }

  /** The exponent is beyond k exactly when the decimal is 10^k or more. */
  lemma BeyondPower(n: nat, P: nat, E: int, k: int)
    requires P >= 1 && Pow(10, P - 1) <= n < Pow(10, P)
    ensures E > k <==> DecimalValue(n, E - P) >= Scale(10, k)
  {
    hide Scale, Pow, DecimalValue;
    DecimalRange(n, P, E);
    if E > k { ScaleMonotone(k, E - 1); } else { ScaleMonotone(E, k); }
  }

  // ---------- the double nearest to a power of ten ----------

  /** Of two numbers, the one that reads as the larger double is larger. */
  lemma ReadsMonotone(x: Float, y: Float, z: real, w: real)
    requires Reads(x, z) && Reads(y, w) && PatternOf(x) < PatternOf(y)
    ensures z < w
  {
    hide Scale, Mag, PatternOf, RoundedTo;
    ScalePositive(2, 1074);
    RoundsMonotone(PatternOf(x), PatternOf(y), z * Scale(2, 1074), w * Scale(2, 1074));
    RealOrder(z, w, Scale(2, 1074));
  }

  lemma RoundsMonotone(p: nat, q: nat, z: real, w: real)
    requires RoundedTo(NearestEven, p, z) && RoundedTo(NearestEven, q, w) && p < q
    ensures z < w
  {
    hide Mag;
    MagMonotone(p + 1, q);
    MagMonotone(p, q - 1);
    if q > p + 1 { MagMonotone(p, p + 1); MagMonotone(p + 1, q - 1); }
  }

  /** x is as near to 10^k as doubles come, to within a bit. */
  ghost predicate NextTo(x: Float, k: int) {
    Printable(x) && HasEqualGaps(x) && 18014398509481984.0 * Far(Scale(10, k), FloatValue(x)) < FloatValue(x)
  }

  /** Every number of digits of such a double reads back, so the search ends with one digit, and not below 10^k. */
  lemma AtPower(x: Float, k: int, P: nat, E: int, n: nat)
    requires NextTo(x, k) && Found(x, P, E, n) && LastToRead(x, P)
    ensures DecimalValue(n, E - P) >= Scale(10, k)
  {
    hide Scale, Pow, FloatValue, Printable, Reads, ReadsAt, Candidate, ToDigits, DecimalValue, Far;
    PowerIsDecimal(k);
    PrintableIs(x);
    CloseReads(x, Scale(10, k));
    if P > 1 { PowerReadsAt(x, k, P - 1); }
    PowStep(10, 0);
    CandidateNearest(x, 1, E, n, 1, k);
    CandidateSize(x, 1, E, n);
    if E <= k {
      BelowPower(x, k, E, n);
      assert false;
    }
    BeyondPower(n, 1, E, k);
  }

  lemma PowerIsDecimal(k: int)
    ensures DecimalValue(1, k) == Scale(10, k)
  {}

  lemma PowerReadsAt(x: Float, k: int, Q: nat)
    requires NextTo(x, k) && Reads(x, Scale(10, k)) && Q >= 1
    ensures ReadsAt(x, Q)
  {
    hide Scale, Pow, FloatValue, Reads, ReadsAt, Candidate, ToDigits, DecimalValue, Far;
    var E, n := SomeDigits(x, Q);
    PowerIsDecimal(k);
    PowMonotone(10, 1, Q);
    PowStep(10, 0);
    CandidateNearest(x, Q, E, n, 1, k);
    NearerReads(x, Scale(10, k), DecimalValue(n, E - Q));
    DigitsDecide(x, Q, E, n);
  }

  /** One digit at an exponent up to k is too far away. */
  lemma BelowPower(x: Float, k: int, E: int, n: nat)
    requires NextTo(x, k) && E <= k && n < Pow(10, 1)
    ensures Far(DecimalValue(n, E - 1), FloatValue(x)) > Far(Scale(10, k), FloatValue(x))
  {
    hide Scale, Pow, FloatValue, Printable;
    PowStep(10, 0);
    ScaleMonotone(E, k);
    ScaleStep(10, E - 1);
    ScalePositive(10, E - 1);
    TooFar(n, Scale(10, E - 1), DecimalValue(n, E - 1), Scale(10, k), FloatValue(x));
  }

  lemma TooFar(n: nat, s: real, v: real, z: real, x: real)
    requires n < 10 && s > 0.0 && v == n as real * s && 10.0 * s <= z && 18014398509481984.0 * Far(z, x) < x
    ensures Far(v, x) > Far(z, x)
  {
    RealOrder(n as real, 9.0, s);
    assert v <= 9.0 * s;
  }

  // ---------- which doubles get an exponent ----------

  /** The double nearest to 10^-6, and 10^21. */
  const MICRO: nat := 0x3EB0_C6F7_A0B5_ED8D
  const SEXTILLION: nat := 0x444B_1AE4_D6E2_EF50

  lemma MicroIs()
    ensures MICRO < INF && NextTo(FloatOf(MICRO), -6) && FloatValue(FloatOf(MICRO)) < Scale(10, -6)
  {
    hide Scale, Pow;
    var x, s := FloatOf(MICRO), Scale(2, -72);
    assert x == Float(4722366482869645, -19);
    assert FloatValue(x) == 4722366482869645.0 * s;
    ScaleNat(2, 72);
    ScaleInverse(2, 72);
    ScaleNat(10, 6);
    ScaleInverse(10, 6);
    TwoTo72();
    TenTo6();
    MicroNear(s, Scale(10, -6));
  }

  lemma TwoTo72()
    ensures Pow(2, 72) == 4722366482869645213696
  {
    hide Pow;
    PowersOfTwo();
    PowAdd(2, 62, 10);
  }

  lemma TenTo6()
    ensures Pow(10, 6) == 1000000
  {}

  lemma MicroNear(s: real, z: real)
    requires 4722366482869645213696.0 * s == 1.0 && 1000000.0 * z == 1.0
    ensures 18014398509481984.0 * Far(z, 4722366482869645.0 * s) < 4722366482869645.0 * s < z
  {}

  lemma SextillionIs()
    ensures SEXTILLION < INF && NextTo(FloatOf(SEXTILLION), 21) && FloatValue(FloatOf(SEXTILLION)) == Scale(10, 21)
  {
    hide Scale, Pow;
    var x, s := FloatOf(SEXTILLION), Scale(2, 17);
    assert x == Float(7629394531250000, 70);
    assert FloatValue(x) == 7629394531250000.0 * s;
    ScaleNat(2, 17);
    ScaleNat(10, 21);
    TwoTo17();
    TenTo21();
    assert Far(Scale(10, 21), FloatValue(x)) == 0.0;
  }

  lemma TwoTo17()
    ensures Pow(2, 17) == 131072
  {
    hide Pow;
    PowersOfTwo();
    PowAdd(2, 10, 7);
    PowStep(2, 6);
    PowStep(2, 5);
    PowStep(2, 4);
    PowStep(2, 3);
    PowStep(2, 2);
    PowStep(2, 1);
    PowStep(2, 0);
  }

  lemma TenTo21()
    ensures Pow(10, 21) == 1_000_000_000_000_000_000_000
  {
    hide Pow;
    SixteenDigits();
    PowAdd(10, 17, 4);
    PowStep(10, 0);
    PowStep(10, 1);
    PowStep(10, 2);
    PowStep(10, 3);
  }

  // ---------- the exact answers ----------

  /** The decimal of a text in free format: the digits found, or the small integer itself. */
  ghost predicate Shown(mag: nat, v: real) {
    var x := FloatOf(mag);
    if IsSmallInteger(x) then v == FloatValue(x)
    else exists P: nat, E, mant: nat :: Found(x, P, E, mant) && LastToRead(x, P) && v == DecimalValue(mant, E - P)
  }

  /** A number is printed with an exponent exactly when its decimal is below 10^-6 or at least 10^21, which is when the double
      is below the one nearest to 10^-6, or at least 10^21. */
  lemma ExponentExact(s: string, negative: bool, mag: nat) returns (v: real)
    requires 0 < mag < INF && IsTextOf(s, negative, mag, Auto)
    ensures Shown(mag, v) && Reads(FloatOf(mag), v)
    ensures 'e' in s <==> v < Scale(10, -6) || v >= Scale(10, 21)
    ensures 'e' in s <==> mag < MICRO || mag >= SEXTILLION
  {
    hide Scale, Pow, FloatValue, Printable, Reads, ReadsAt, Candidate, ToDigits, DecimalValue, IsSmallInteger, SmallInteger,
         FreeText, DigitsOf, Dec, FloatOf, Found;
    var x := FloatOf(mag);
    FloatOfPattern(mag);
    if IsSmallInteger(x) {
      v := FloatValue(x);
      SmallShown(s, negative, mag);
    } else {
      var P: nat, E: int, n: nat :| Found(x, P, E, n) && LastToRead(x, P) && s == Sign(negative) + FreeText(DigitsOf(n, P), E, Auto);
      v := DecimalValue(n, E - P);
      FoundRange(x, P, E, n);
      FoundLetter(s, negative, n, P, E);
      FoundDigits(x, P, E, n);
      BeyondPower(n, P, E, -6);
      BeyondPower(n, P, E, 21);
      MicroIs();
      PowerDecides(mag, MICRO, -6, P, E, n);
      SextillionIs();
      PowerDecides(mag, SEXTILLION, 21, P, E, n);
    }
  }

  /** The double nearest to 10^-6 lies below it, and has no exponent all the same. */
  lemma MicroPlain(s: string, negative: bool)
    requires IsTextOf(s, negative, MICRO, Auto)
    ensures FloatValue(FloatOf(MICRO)) < Scale(10, -6) && 'e' !in s
  {
    hide Scale, FloatValue, FloatOf, IsTextOf;
    MicroIs();
    var v := ExponentExact(s, negative, MICRO);
  }

  lemma SmallShown(s: string, negative: bool, mag: nat)
    requires 0 < mag < INF && IsSmallInteger(FloatOf(mag)) && IsTextOf(s, negative, mag, Auto)
    ensures var v := FloatValue(FloatOf(mag));
            Reads(FloatOf(mag), v) && 'e' !in s && v >= Scale(10, -6) && v < Scale(10, 21) && MICRO <= mag < SEXTILLION
  {
    hide Scale, Pow, FloatValue, Printable, Reads, Dec, FloatOf, IsSmallInteger, SmallInteger, Found, FreeText, DigitsOf, Num;
    var x := FloatOf(mag);
    FloatOfPattern(mag);
    PrintableIs(x);
    SmallSize(x);
    Dtoa.ValueReads(x);
    var v := FloatValue(x);
    DecNum(SmallInteger(x));
    NoLetter(Dec(SmallInteger(x)));
    PowersBetween();
    MicroIs();
    OutsidePower(mag, MICRO, -6, v);
    SextillionIs();
    OutsidePower(mag, SEXTILLION, 21, v);
  }

  /** 10^-6 < 1 and 2^53 < 10^21. */
  lemma PowersBetween()
    ensures Scale(10, -6) < 1.0 && Scale(10, 21) > 9007199254740992.0
  {
    hide Scale, Pow;
    ScaleNat(10, 6);
    ScaleInverse(10, 6);
    TenTo6();
    ScaleNat(10, 21);
    TenTo21();
  }

  /** Doubles below and above the one nearest to 10^k are below and above 10^k. */
  lemma OutsidePower(mag: nat, limit: nat, k: int, v: real)
    requires 0 < mag < INF && 0 < limit < INF && NextTo(FloatOf(limit), k) && Reads(FloatOf(mag), v)
    ensures mag < limit ==> v < Scale(10, k)
    ensures mag > limit ==> v > Scale(10, k)
  {
    hide Scale, Pow, FloatValue, Printable, Reads, FloatOf, Far;
    var x, y := FloatOf(mag), FloatOf(limit);
    FloatOfPattern(mag);
    FloatOfPattern(limit);
    PrintableIs(y);
    CloseReads(y, Scale(10, k));
    if mag < limit {
      ReadsMonotone(x, y, v, Scale(10, k));
    } else if mag > limit {
      ReadsMonotone(y, x, Scale(10, k), v);
    }
  }

  lemma FoundDigits(x: Float, P: nat, E: int, n: nat)
    requires Found(x, P, E, n)
    ensures P >= 1 && Pow(10, P - 1) <= n < Pow(10, P)
  {
    hide Pow;
  }

  lemma FoundLetter(s: string, negative: bool, n: nat, P: nat, E: int)
    requires P >= 1 && n < Pow(10, P) && s == Sign(negative) + FreeText(DigitsOf(n, P), E, Auto)
    ensures 'e' in s <==> E <= -6 || E > 21
  {
    hide Pow, DigitsOf, DigitText, Num;
    DigitsOfNum(n, P);
    LetterShows(DigitsOf(n, P), E, Auto, MAX_PLAIN_EXPONENT, negative);
  }

  /** The decimal found is at least 10^k exactly when the double is at least the one nearest to 10^k. */
  lemma PowerDecides(mag: nat, limit: nat, k: int, P: nat, E: int, n: nat)
    requires 0 < mag < INF && 0 < limit < INF && NextTo(FloatOf(limit), k)
    requires Found(FloatOf(mag), P, E, n) && LastToRead(FloatOf(mag), P) && Reads(FloatOf(mag), DecimalValue(n, E - P))
    ensures DecimalValue(n, E - P) >= Scale(10, k) <==> mag >= limit
  {
    hide Scale, Pow, FloatValue, Printable, Reads, ReadsAt, Candidate, ToDigits, DecimalValue, FloatOf, Far;
    OutsidePower(mag, limit, k, DecimalValue(n, E - P));
    if mag == limit { AtPower(FloatOf(limit), k, P, E, n); }
  }

  // ---------- the whole text ----------

  /** Digits that neither begin nor end with a zero. */
  predicate Significant(d: string) { d != [] && AllDigits(d) && d[0] != '0' && d[|d| - 1] != '0' }

  lemma {:induction false} DecLeads(v: nat)
    requires v > 0
    ensures Dec(v)[0] != '0'
  {
    if v >= 10 { DecLeads(v / 10); }
  }

  /** A whole number's digits without the zeros they end with. */
  lemma {:induction false} IntegerDigits(v: nat) returns (d: string, j: nat)
    requires v > 0
    ensures Significant(d) && Dec(v) == d + Zeros(j) && Num(d) * Pow(10, j) == v
    decreases v
  {
    hide Pow, Num;
    if v % 10 != 0 {
      d, j := Dec(v), 0;
      DecNum(v);
      DecLeads(v);
      DecEnds(v);
      assert Pow(10, 0) == 1 by { PowStep(10, 0); }
    } else {
      d, j := IntegerDigits(v / 10);
      PowStep(10, j);
      assert Zeros(j) + ['0'] == Zeros(j + 1);
      TimesTen(Num(d), Pow(10, j), v);
      j := j + 1;
    }
  }

  lemma TimesTen(a: nat, b: nat, v: nat)
    requires a * b == v / 10 && v % 10 == 0
    ensures a * (10 * b) == v
  {}

  lemma DecEnds(v: nat)
    ensures var d := Dec(v); d[|d| - 1] == DigitChar(v % 10) && (v % 10 != 0 ==> DigitChar(v % 10) != '0')
  {}

  /** The text of a number is that of section 9.8.1, for digits that read as it and neither begin nor end with a zero. */
  lemma ToStringExact(s: string, negative: bool, mag: nat) returns (d: string, n: int)
    requires 0 < mag < INF && IsTextOf(s, negative, mag, Auto)
    ensures Significant(d) && s == Sign(negative) + ToStringText(d, n)
    ensures Reads(FloatOf(mag), DecimalValue(Num(d), n - |d|))
  {
    hide Scale, Pow, FloatValue, Printable, Reads, ReadsAt, Candidate, ToDigits, DecimalValue, IsSmallInteger, SmallInteger,
         FreeText, DigitsOf, Dec, FloatOf, Found, Num, ToStringText;
    var x := FloatOf(mag);
    FloatOfPattern(mag);
    PrintableIs(x);
    if IsSmallInteger(x) {
      SmallSize(x);
      Dtoa.ValueReads(x);
      var j;
      d, j := IntegerDigits(SmallInteger(x));
      n := |d| + j;
      WholeText(d, j);
      WholeDecimal(Num(d), j, SmallInteger(x));
    } else {
      var P: nat, E: int, mant: nat :| Found(x, P, E, mant) && LastToRead(x, P) && s == Sign(negative) + FreeText(DigitsOf(mant, P), E, Auto);
      FoundDigits(x, P, E, mant);
      FoundRange(x, P, E, mant);
      d, n := DigitsOf(mant, P), E;
      FreeLayout(d, n);
      DigitsOfNum(mant, P);
      FoundSignificant(x, P, E, mant);
    }
  }

  lemma WholeText(d: string, j: nat)
    requires d != [] && |d| + j <= 21
    ensures ToStringText(d, |d| + j) == d + Zeros(j)
  {}

  lemma WholeDecimal(a: nat, j: nat, v: nat)
    requires a * Pow(10, j) == v
    ensures DecimalValue(a, j) == v as real
  {
    hide Pow;
    ScaleNat(10, j);
  }

  lemma FoundSignificant(x: Float, P: nat, E: int, mant: nat)
    requires Found(x, P, E, mant)
    ensures Significant(DigitsOf(mant, P))
  {
    hide Pow, DigitsOf;
    DigitsOfNum(mant, P);
    LeadingDigit(mant, P - 1);
    LastDigit(mant, P);
  }

  lemma LastDigit(v: nat, P: nat)
    requires P > 0 && v % 10 != 0
    ensures DigitsOf(v, P)[P - 1] != '0'
  {}

  // ---------- a number of digits ----------

  /** A number to n digits gets an exponent exactly when it is too small or too large to be written with them otherwise: what
      rounds to n digits from 10^-6 up to, and without, 10^n has none. */
  lemma FixedExponentExact(s: string, negative: bool, mag: nat, n: nat)
    requires n > 0 && IsFixedText(s, negative, mag, n, Auto)
    ensures var x := FloatValue(FloatOf(mag));
            'e' in s <==> x < Scale(10, -6) - Scale(10, -6 - n) / 2.0 || x >= Scale(10, n) - 0.5
  {
    hide Scale, Pow, FloatValue, DigitsOf, FloatOf, RoundedInteger, Scaled10, Candidate, DigitText, Num;
    var E: int, mant: nat :| && Candidate(FloatOf(mag), n, E, mant) && RoundedInteger(NearestAway, mant, Scaled10(FloatOf(mag), n - E))
                             && s == Sign(negative) + DigitText(DigitsOf(mant, n), E, Auto, n);
    DigitsOfNum(mant, n);
    LetterShows(DigitsOf(mant, n), E, Auto, n, negative);
    ExponentBeyond(FloatOf(mag), n, E, mant, -6);
    ExponentBeyond(FloatOf(mag), n, E, mant, n);
    ScaleZero(10);
  }

  /** The exponent is beyond k exactly for numbers that to P digits are 10^k or more. */
  lemma ExponentBeyond(x: Float, P: nat, E: int, mant: nat, k: int)
    requires Candidate(x, P, E, mant) && RoundedInteger(NearestAway, mant, Scaled10(x, P - E))
    ensures E > k <==> FloatValue(x) >= Scale(10, k) - Scale(10, k - P) / 2.0
  {
    hide Scale, Pow, FloatValue, RoundedInteger, Scaled10, Candidate;
    var s, v, t := Scale(10, E - P), FloatValue(x), Scaled10(x, P - E);
    CandidateBounds(x, P, E, mant);
    Unscaled(x, P, E);
    ScalePositive(10, E - P);
    ScaleAdd(10, P, E - P);
    ScaleNat(10, P);
    if E > k {
      HalfBelow(P, k, E - 1);
      ScaleStep(10, E - 1);
      ScaleStep(10, E - 1 - P);
      AtLeastLower(v, t, s, Pow(10, P) as real, Scale(10, E - 1), Scale(10, E - 1 - P));
    } else {
      HalfBelow(P, E, k);
      RealOrder(t, Pow(10, P) as real - 0.5, s);
      RealDistribute(Pow(10, P) as real, 0.5, s);
    }
  }

  lemma Unscaled(x: Float, P: nat, E: int)
    ensures FloatValue(x) == Scaled10(x, P - E) * Scale(10, E - P)
  {
    hide Scale, FloatValue;
    ScaleInverse(10, P - E);
    assert -(P - E) == E - P;
    RealAssoc(FloatValue(x), Scale(10, P - E), Scale(10, E - P));
  }

  lemma CandidateBounds(x: Float, P: nat, E: int, mant: nat)
    requires Candidate(x, P, E, mant) && RoundedInteger(NearestAway, mant, Scaled10(x, P - E))
    ensures P >= 1
    ensures var t := Scaled10(x, P - E); 200.0 * t >= 20.0 * Pow(10, P) as real - 10.0 && t < Pow(10, P) as real - 0.5
  {
    hide Scaled10, FirstExponent, Pow;
    PowStep(10, P - 1);
    AwayBelow(mant, Scaled10(x, P - E), Pow(10, P));
  }

  lemma AwayBelow(r: int, t: real, p: nat)
    requires RoundedInteger(NearestAway, r, t) && r < p
    ensures t < p as real - 0.5
  {}

  lemma AtLeastLower(v: real, t: real, s: real, p: real, a: real, b: real)
    requires v == t * s && s > 0.0 && 200.0 * t >= 20.0 * p - 10.0 && p * s == 10.0 * a && s == 10.0 * b
    ensures v >= a - b / 2.0
  {
    RealOrder(20.0 * p - 10.0, 200.0 * t, s);
    RealDistribute(20.0 * p, 10.0, s);
    RealAssoc(20.0, p, s);
    RealAssoc(200.0, t, s);
  }

  lemma HalfBelow(P: nat, j: int, k: int)
    requires j <= k
    ensures Scale(10, j) - Scale(10, j - P) / 2.0 <= Scale(10, k) - Scale(10, k - P) / 2.0
  {
    hide Scale, Pow;
    ScaleMonotone(j - P, k - P);
    ScaleAdd(10, P, j - P);
    ScaleAdd(10, P, k - P);
    ScaleNat(10, P);
    HalfOrder(Scale(10, j - P), Scale(10, k - P), Pow(10, P) as real);
  }

  lemma HalfOrder(u: real, w: real, q: real)
    requires u <= w && q >= 1.0
    ensures q * u - u / 2.0 <= q * w - w / 2.0
  {
    RealOrder(u, w, q - 0.5);
    RealDistribute(q, 0.5, u);
    RealDistribute(q, 0.5, w);
    assert u * (q - 0.5) == (q - 0.5) * u && w * (q - 0.5) == (q - 0.5) * w;
  }
}
