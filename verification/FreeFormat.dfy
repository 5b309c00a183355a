/** The shortest-digits search of js_dtoa in base 10, and its fixed-precision formats. */
module FreeFormat {
  import opened Arith
  import opened Powers
  import opened Rounding
  import opened Binary64
  import opened Bits
  import opened Limbs
  import opened InverseDivision
  import opened LimbBits
  import opened Bignum
  import opened RadixPower
  import opened Scaling
  import opened Log10
  import opened Shortest

  const BIGNUM_LIMBS: nat := 52
  const MANTISSA_LIMBS: nat := 18
  const MAX_PRECISION: nat := 17

  /** A double that is finite and not zero. */
  predicate Printable(x: Float) { ProperFloat(x) && x.m > 0 && x.e <= 1024 }

  /** The significand and exponent of a magnitude: a subnormal is shifted until its leading bit is in place. */
  function FloatOf(p: nat): Float {
    var e, m := p / 0x10_0000_0000_0000, p % 0x10_0000_0000_0000;
    if e > 0 then Float(m + 0x10_0000_0000_0000, e - 1022)
    else
      var l := 53 - BitLength(m);
      Float(if l >= 0 then m * Pow(2, l) else 0, -l - 1021)
  }

  /** Every finite nonzero magnitude has one, and packs back to itself. */
  lemma FloatOfPattern(p: nat)
    requires 0 < p < INF
    ensures Printable(FloatOf(p)) && PatternOf(FloatOf(p)) == p
  {
    hide Pow, BitLength;
    DivMod(p, 0x10_0000_0000_0000);
    if p < 0x10_0000_0000_0000 {
      SubnormalFloat(p);
    } else {
      DivMod(p, 0x10_0000_0000_0000);
    }
  }

  lemma SubnormalFloat(p: nat)
    requires 0 < p < 0x10_0000_0000_0000
    ensures p / 0x10_0000_0000_0000 == 0 && p % 0x10_0000_0000_0000 == p
    ensures Printable(FloatOf(p)) && PatternOf(FloatOf(p)) == p
  {
    hide Pow, BitLength;
    PowersOfTwo();
    BitLengthBounds(p);
    DivUnique(p, 0x10_0000_0000_0000, 0, p);
    var b := BitLength(p);
    BitLengthAtMost(p, 52);
    var l := 53 - b;
    PowAdd(2, b, l);
    PowAdd(2, b - 1, l);
    Monotone(Pow(2, b - 1), p, Pow(2, l));
    StrictMonotone(p, Pow(2, b), Pow(2, l));
    DivUnique(p * Pow(2, l), Pow(2, l), p, 0);
  }

  /** The first guess of the decimal exponent. */
  function FirstExponent(x: Float): int { 1 + MulLog2Radix10(x.e - 1) }

  // ---------- what one attempt computes ----------

  /** x in units of 10^(E - P). */
  ghost function Scaled10(x: Float, f: int): real { FloatValue(x) * Scale(10, f) }

  /** mul_pow_round works on m * 2^(e-53) * 5^f * 2^f. */
  lemma ScaledIsDecimal(x: Float, f: int)
    ensures ExactScaled(x.m, 5, 1, f, x.e - 53) == Scaled10(x, f)
  {
    hide Scale;
    var mr, a, b, c := x.m as real, Scale(5, f), Scale(2, f), Scale(2, x.e - 53);
    RadixSplit(5, 1, f);
    RadixTen();
    ScaleAdd(2, f, x.e - 53);
    assert f * 1 == f;
    Rearrange(mr, a, b, c, Scale(10, f), Scale(2, f + (x.e - 53)));
  }

  lemma RadixTen()
    ensures Radix(5, 1) == 10
  {}

  lemma Rearrange(m: real, a: real, b: real, c: real, ab: real, bc: real)
    requires ab == a * b && bc == b * c
    ensures m * a * bc == (m * c) * ab
  {
    RealAssoc(m * a, b, c);
    RealAssoc(m, a, b);
    RealAssoc(m, ab, c);
    RealAssoc(m, c, ab);
    assert c * ab == ab * c;
  }

  /** mul_pow_round_to_d reads the digits as the decimal they are. */
  lemma ReadingIsDecimal(mant: nat, q: int)
    ensures ExactDouble(mant, 5, 1, q) == DecimalValue(mant, q) * Scale(2, 1074)
  {
    hide Scale;
    var mr, a, b, c := mant as real, Scale(5, q), Scale(2, q), Scale(2, 1074);
    RadixSplit(5, 1, q);
    RadixTen();
    ScaleAdd(2, q, 1074);
    assert q * 1 == q;
    RealAssoc(mr * a, b, c);
    RealAssoc(mr, a, b);
  }

  // ---------- the exponent guess ----------

  /** 10^(E-1) <= x < 2 * 10^E. */
  lemma ExponentBracket(x: Float)
    requires Printable(x)
    ensures var k := FirstExponent(x); Scale(10, k - 1) <= FloatValue(x) < 2.0 * Scale(10, k)
  {
    hide Scale, Pow, MulLog2Radix10;
    MulLog2Radix10Exact(x.e - 1);
    ScaleAdd(2, x.e - 53, 52);
    ScaleAdd(2, x.e - 53, 53);
    ScaleStep(2, x.e - 1);
    ScalePositive(2, x.e - 53);
    SignificandScale();
    RealOrder(4503599627370496.0, x.m as real, Scale(2, x.e - 53));
    RealOrder(x.m as real, 9007199254740992.0, Scale(2, x.e - 53));
    BracketStep(x.m as real, Scale(2, x.e - 53), Scale(2, x.e - 1), Scale(2, x.e),
                Scale(10, FirstExponent(x) - 1), Scale(10, FirstExponent(x)));
  }

  lemma BracketStep(m: real, s: real, a: real, b: real, lo: real, hi: real)
    requires 4503599627370496.0 * s <= m * s < 9007199254740992.0 * s
    requires a == s * 4503599627370496.0 && b == s * 9007199254740992.0 && b == 2.0 * a
    requires lo <= a < hi
    ensures lo <= m * s < 2.0 * hi
  {}

  /** In units of the last of P digits, x at the guessed exponent lies in [10^(P-1), 2 * 10^P). */
  lemma AttemptBracket(x: Float, P: nat)
    requires Printable(x) && P >= 1
    ensures var t := Scaled10(x, P - FirstExponent(x)); Pow(10, P - 1) as real <= t < 2.0 * Pow(10, P) as real
  {
    hide Scale, Pow, FirstExponent, FloatValue;
    var E := FirstExponent(x);
    var s := Scale(10, P - E);
    ExponentBracket(x);
    ScalePositive(10, P - E);
    ScaleAdd(10, E - 1, P - E);
    ScaleAdd(10, E, P - E);
    ScaleNat(10, P - 1);
    ScaleNat(10, P);
    RealOrder(Scale(10, E - 1), FloatValue(x), s);
    RealOrder(FloatValue(x), 2.0 * Scale(10, E), s);
    RealAssoc(2.0, Scale(10, E), s);
  }

  lemma NextExponent(x: Float, f: int)
    ensures Scaled10(x, f) == 10.0 * Scaled10(x, f - 1)
  {
    hide Scale, FloatValue;
    ScaleStep(10, f - 1);
    RealAssoc(10.0, FloatValue(x), Scale(10, f - 1));
    RealAssoc(FloatValue(x), 10.0, Scale(10, f - 1));
  }

  // ---------- candidates ----------

  /** E is the guess or one more, and x needs that many digits before the point, up to a twentieth of a unit. */
  ghost predicate InRange(x: Float, P: nat, E: int, t: real)
    requires P >= 1
  {
    && t == Scaled10(x, P - E) && (E == FirstExponent(x) || E == FirstExponent(x) + 1)
    && 20.0 * t >= 20.0 * Pow(10, P - 1) as real - 1.0 && t < 2.0 * Pow(10, P) as real
    && (E == FirstExponent(x) + 1 ==> t < 2.0 * Pow(10, P - 1) as real)
  }

  /** n has exactly P digits and is within half a unit of x. */
  ghost predicate Candidate(x: Float, P: nat, E: int, n: nat) {
    && P >= 1 && Pow(10, P - 1) <= n < Pow(10, P)
    && InRange(x, P, E, Scaled10(x, P - E))
    && WithinHalf(n, Scaled10(x, P - E))
  }

  predicate WithinHalf(n: int, t: real) { -1.0 <= 2.0 * (n as real - t) <= 1.0 }

  lemma FirstInRange(x: Float, P: nat)
    requires Printable(x) && P >= 1
    ensures InRange(x, P, FirstExponent(x), Scaled10(x, P - FirstExponent(x)))
  {
    hide Scaled10, Pow, FirstExponent;
    AttemptBracket(x, P);
  }

  lemma RoundsWithinHalf(d: Direction, n: int, t: real)
    requires d != Toward && d != Away && RoundedInteger(d, n, t)
    ensures WithinHalf(n, t)
  {}

  /** A rounding with too many digits calls for the next exponent, and that happens once. */
  lemma TooLong(x: Float, P: nat, E: int, n: int)
    requires P >= 1 && InRange(x, P, E, Scaled10(x, P - E)) && WithinHalf(n, Scaled10(x, P - E)) && n >= Pow(10, P)
    ensures E == FirstExponent(x) && InRange(x, P, E + 1, Scaled10(x, P - (E + 1)))
  {
    hide Scaled10, Pow, FirstExponent;
    PowStep(10, P - 1);
    NextExponent(x, P - E);
    assert P - E - 1 == P - (E + 1);
    Positive(1, 1);
    PowMonotone(10, 0, P - 1);
    PowStep(10, 0);
  }

  lemma Fits(x: Float, P: nat, E: int, n: int)
    requires P >= 1 && InRange(x, P, E, Scaled10(x, P - E)) && WithinHalf(n, Scaled10(x, P - E)) && n < Pow(10, P)
    ensures Candidate(x, P, E, n)
  {
    hide Scaled10, Pow, FirstExponent;
    PowMonotone(10, 0, P - 1);
    PowStep(10, 0);
  }

  /** Dropping a final zero leaves a candidate for one digit less, of the same value. */
  lemma DropZero(x: Float, P: nat, E: int, n: nat)
    requires Candidate(x, P, E, n) && n % 10 == 0
    ensures Candidate(x, P - 1, E, n / 10) && P >= 2
    ensures DecimalValue(n / 10, E - (P - 1)) == DecimalValue(n, E - P)
  {
    hide Scaled10, Pow, FirstExponent, Scale;
    PowStep(10, P - 1);
    PowMonotone(10, 0, P - 1);
    PowStep(10, 0);
    if P >= 2 { PowStep(10, P - 2); }
    NextExponent(x, P - E);
    assert P - E - 1 == P - 1 - E;
    ScaleStep(10, E - P);
    RealAssoc((n / 10) as real, 10.0, Scale(10, E - P));
  }

  // ---------- the nearest decimal of P digits ----------

  /** Against an integer, or a number well below t's power of ten, the nearest integer wins. */
  lemma NearestWins(n: int, t: real, b: int, w: real, k: int)
    requires WithinHalf(n, t) && 20.0 * t >= 20.0 * b as real - 1.0
    requires w == k as real || 10.0 * w <= 10.0 * b as real - 1.0
    ensures Far(n as real, t) <= Far(w, t)
  {
    NearestOfIntegers(n, t, b);
    NearestOfIntegers(n, t, k);
  }

  lemma NearestOfIntegers(n: int, t: real, k: int)
    requires WithinHalf(n, t)
    ensures Far(n as real, t) <= Far(k as real, t)
  {
    if k < n {
      assert k as real <= n as real - 1.0;
    } else if k > n {
      assert k as real >= n as real + 1.0;
    }
  }

  /** A decimal of at most P digits, in units of 10^-j: an integer, or at least a tenth below 10^(P-1). */
  lemma OnGridOrShort(d: nat, P: nat, j: int, w: real) returns (k: int)
    requires P >= 1 && d < Pow(10, P) && w == d as real * Scale(10, j)
    ensures w == k as real || 10.0 * w <= 10.0 * Pow(10, P - 1) as real - 1.0
  {
    hide Pow, Scale;
    k := 0;
    if j >= 0 {
      ScaleNat(10, j);
      k := GridPoint(d, Scale(10, j), Pow(10, j), w);
    } else {
      PowStep(10, P - 1);
      ScaleMonotone(10, j, -1);
      ScaleStep(10, -1);
      ScaleZero(10);
      TenthOf(d as real, Scale(10, j), Scale(10, -1), w);
    }
  }

  lemma GridPoint(d: nat, s: real, p: nat, w: real) returns (k: nat)
    requires w == d as real * s && s == p as real
    ensures w == k as real
  {
    k := d * p;
  }

  lemma TenthOf(d: real, s: real, t: real, w: real)
    requires d >= 0.0 && s <= t && 10.0 * t == 1.0 && w == d * s
    ensures 10.0 * w <= d
  {
    assert d * s <= d * t;
  }

  /** No decimal of at most P digits is nearer to x than the candidate. */
  lemma CandidateNearest(x: Float, P: nat, E: int, n: nat, d: nat, q: int)
    requires Candidate(x, P, E, n) && d < Pow(10, P)
    ensures Far(DecimalValue(n, E - P), FloatValue(x)) <= Far(DecimalValue(d, q), FloatValue(x))
  {
    hide *;
    var s, v := Scale(10, P - E), FloatValue(x);
    var zr, wr := DecimalValue(n, E - P), DecimalValue(d, q);
    var t, z, w := v * s, zr * s, wr * s;
    ScalePositive(10, P - E);
    CandidateIs(x, P, E, n, t);
    UnitsOf(n, E - P, z);
    ShiftedDecimal(d, q, P - E, w);
    var k := OnGridOrShort(d, P, q + (P - E), w);
    NearestWins(n, t, Pow(10, P - 1), w, k);
    var f, g := Far(zr, v), Far(wr, v);
    var fs, gs := f * s, g * s;
    FarTimes(zr, v, s, z, t, fs);
    FarTimes(wr, v, s, w, t, gs);
    RealOrder(g, f, s);
  }

  lemma CandidateIs(x: Float, P: nat, E: int, n: nat, t: real)
    requires Candidate(x, P, E, n) && t == FloatValue(x) * Scale(10, P - E)
    ensures P >= 1 && WithinHalf(n, t) && 20.0 * t >= 20.0 * Pow(10, P - 1) as real - 1.0
    ensures Pow(10, P - 1) <= n < Pow(10, P)
  {
    hide Pow, Scaled10, FirstExponent, WithinHalf;
    Scaled10Is(x, P - E, t);
  }

  lemma Scaled10Is(x: Float, f: int, t: real)
    requires t == FloatValue(x) * Scale(10, f)
    ensures t == Scaled10(x, f)
  {}

  lemma UnitsOf(n: nat, q: int, z: real)
    requires z == DecimalValue(n, q) * Scale(10, 0 - q)
    ensures z == n as real
  {
    hide Scale;
    ScaleInverse(10, q);
    RealAssoc(n as real, Scale(10, q), Scale(10, -q));
  }

  lemma ShiftedDecimal(d: nat, q: int, j: int, w: real)
    requires w == DecimalValue(d, q) * Scale(10, j)
    ensures w == d as real * Scale(10, q + j)
  {
    hide Scale;
    ScaleAdd(10, q, j);
    RealAssoc(d as real, Scale(10, q), Scale(10, j));
  }

  /** Seventeen digits always read back. */
  lemma MaxPrecisionReads(x: Float, E: int, n: nat)
    requires Printable(x) && Candidate(x, MAX_PRECISION, E, n)
    ensures Reads(x, DecimalValue(n, E - MAX_PRECISION))
  {
    hide Pow, Scale, FloatValue, Candidate, Reads, DecimalValue, Far;
    var P := 17;
    var s, v, zr := Scale(10, P - E), FloatValue(x), DecimalValue(n, E - P);
    var t, z := v * s, zr * s;
    CandidateIs(x, P, E, n, t);
    UnitsOf(n, E - P, z);
    ScalePositive(10, P - E);
    var f := Far(zr, v);
    var fs := f * s;
    FarTimes(zr, v, s, z, t, fs);
    SixteenDigits();
    FarHalf(n, t);
    RealOrder(18014398509481984.0 * f, v, s);
    RealAssoc(18014398509481984.0, f, s);
    CloseReads(x, zr);
  }

  lemma FarHalf(n: int, t: real)
    requires WithinHalf(n, t)
    ensures 2.0 * Far(n as real, t) <= 1.0
  {}

  lemma SixteenDigits()
    ensures Pow(10, 16) == 10_000_000_000_000_000
    ensures Pow(10, 17) == 100_000_000_000_000_000
  {
    hide Pow;
    PowStep(10, 0);
    PowStep(10, 1);
    PowAdd(10, 2, 2);
    PowAdd(10, 4, 4);
    PowAdd(10, 8, 8);
    PowStep(10, 16);
  }

  /** When the candidate does not read back, nothing of at most P digits does. */
  lemma NoneReads(x: Float, P: nat, E: int, n: nat, d: nat, q: int)
    requires Printable(x) && HasEqualGaps(x) && Candidate(x, P, E, n) && d < Pow(10, P)
    requires !Reads(x, DecimalValue(n, E - P))
    ensures !Reads(x, DecimalValue(d, q))
  {
    hide *;
    if Reads(x, DecimalValue(d, q)) {
      PrintableIs(x);
      CandidateNearest(x, P, E, n, d, q);
      NearerReads(x, DecimalValue(d, q), DecimalValue(n, E - P));
    }
  }

  lemma PrintableIs(x: Float)
    requires Printable(x)
    ensures ProperFloat(x) && x.m > 0
  {}

  // ---------- the text that is read back ----------

  lemma RoundedOnce(p: nat, q: nat, z: real)
    requires RoundedTo(NearestEven, p, z) && RoundedTo(NearestEven, q, z) && p <= q
    ensures p == q
  {
    hide Mag;
    if p < q {
      MagMonotone(p, q - 1);
      MagMonotone(p + 1, q);
      MagStep(p);
    }
  }

  lemma SignificandUnique(m: nat, e: int, n: nat, f: int)
    requires m < TWO53 && n >= TWO52 && e < f
    ensures m as real * Scale(2, e - 53) < n as real * Scale(2, f - 53)
  {
    hide Scale;
    ScaleMonotone(2, e - 52, f - 53);
    ScaleStep(2, e - 53);
    ScalePositive(2, e - 53);
    var s, u := Scale(2, e - 53), Scale(2, f - 53);
    RealOrder(m as real, 9007199254740992.0, s);
    RealOrder(4503599627370496.0, n as real, u);
    assert 4503599627370496.0 * u >= 9007199254740992.0 * s;
  }

  /** A double has one significand and exponent. */
  lemma FloatUnique(x: Float, y: Float)
    requires ProperFloat(x) && ProperFloat(y) && x.m > 0 && y.m > 0 && PatternOf(x) == PatternOf(y)
    ensures x == y
  {
    hide Scale, Pow, Mag, PatternOf;
    MagIsValue(x);
    MagIsValue(y);
    ScalePositive(2, 1074);
    RealOrder(FloatValue(x), FloatValue(y), Scale(2, 1074));
    if x.e < y.e {
      SignificandUnique(x.m, x.e, y.m, y.e);
    } else if y.e < x.e {
      SignificandUnique(y.m, y.e, x.m, x.e);
    } else {
      ScalePositive(2, x.e - 53);
      RealOrder(x.m as real, y.m as real, Scale(2, x.e - 53));
    }
  }

  /** Comparing what was read with x decides whether the decimal reads back. */
  lemma ReadBackDecides(x: Float, y: Float, mant: nat, q: int)
    requires Printable(x) && ProperFloat(y)
    requires RoundedTo(NearestEven, PatternOf(y), ExactDouble(mant, 5, 1, q))
    ensures x == y <==> Reads(x, DecimalValue(mant, q))
  {
    hide *;
    PrintableIs(x);
    ReadingIsDecimal(mant, q);
    ReadsIs(x, DecimalValue(mant, q), ExactDouble(mant, 5, 1, q));
    if Reads(x, DecimalValue(mant, q)) {
      if PatternOf(x) <= PatternOf(y) {
        RoundedOnce(PatternOf(x), PatternOf(y), ExactDouble(mant, 5, 1, q));
      } else {
        RoundedOnce(PatternOf(y), PatternOf(x), ExactDouble(mant, 5, 1, q));
      }
      PatternPositive(x, y);
      FloatUnique(x, y);
    }
  }

  lemma PatternPositive(x: Float, y: Float)
    requires ProperFloat(x) && x.m > 0 && PatternOf(x) == PatternOf(y)
    ensures y.m > 0
  {
    hide Scale, Pow, Mag, FloatValue;
    PatternParts(x);
  }

  // ---------- 52 limbs are enough ----------

  /** The limbs mul_pow_round needs for m * 2^(e-53) * 10^f. */
  function RoundingRoom(x: Float, f: int): nat {
    var eo := ScaledOffset(x.m, 5, 1, f, true, x.e - 53);
    ScaledLen(2, x.m, 5, 1, f, true, x.e - 53) + 1 + (if x.e - 53 > eo then (x.e - 53 - eo) / 32 else 0)
  }

  /** Passes of thirteen digits. */
  lemma Passes(f: nat)
    ensures PassDigits(5) == 13 && 13 * CeilDiv(f, 13) <= f + 12
  {}

  lemma FixedRoom(x: Float, P: nat, E: int)
    requires Printable(x) && x.e >= -1073 && 1 <= P <= 101
    requires E == FirstExponent(x) || E == FirstExponent(x) + 1
    ensures RoundingRoom(x, P - E) <= BIGNUM_LIMBS
  {
    hide Pow, BitLength;
    var f := P - E;
    Passes(if f >= 0 then f else -f);
  }

  lemma FractionRoom(x: Float, n: nat)
    requires Printable(x) && n <= 101
    ensures RoundingRoom(x, n) <= BIGNUM_LIMBS
  {
    hide Pow, BitLength;
    Passes(n);
  }

  lemma ReadingRoom(len: nat, v: nat, f: int)
    requires len <= 6 && -380 <= f <= 330
    ensures ScaledLen(len, v, 5, 1, f, false, 55) + 2 <= BIGNUM_LIMBS
  {
    hide Pow, BitLength;
    Passes(if f >= 0 then f else -f);
  }

  lemma ExponentRange(x: Float)
    requires Printable(x)
    ensures x.e >= -1073 && -323 <= FirstExponent(x) <= 308 + 1
  {}

  // ---------- x to P digits ----------

  /** At its first exponent, x to P digits has one digit more. */
  ghost predicate Overflows(x: Float, P: nat) {
    2.0 * Scaled10(x, P - FirstExponent(x)) >= (2 * Pow(10, P) - 1) as real
  }

  /** n * 10^(E - P) is x to P digits, ties to even. */
  ghost predicate ToDigits(x: Float, P: nat, E: int, n: nat) {
    && P >= 1 && E == FirstExponent(x) + (if Overflows(x, P) then 1 else 0)
    && RoundedInteger(NearestEven, n, Scaled10(x, P - E))
  }

  /** x to P digits reads back to x. */
  ghost predicate ReadsAt(x: Float, P: nat) {
    exists E: int, n: nat :: ToDigits(x, P, E, n) && Reads(x, DecimalValue(n, E - P))
  }

  /** The decimal one above x to P digits reads back to x. */
  ghost predicate NextReads(x: Float, P: nat) {
    exists E: int, n: nat :: ToDigits(x, P, E, n) && Reads(x, DecimalValue(n + 1, E - P))
  }

  lemma EvenUnique(n: int, m: int, t: real)
    requires RoundedInteger(NearestEven, n, t) && RoundedInteger(NearestEven, m, t)
    ensures n == m
  {}

  lemma DigitsDecide(x: Float, P: nat, E: int, n: nat)
    requires ToDigits(x, P, E, n)
    ensures ReadsAt(x, P) <==> Reads(x, DecimalValue(n, E - P))
    ensures NextReads(x, P) <==> Reads(x, DecimalValue(n + 1, E - P))
  {
    hide Reads, DecimalValue, Scaled10, FirstExponent, Overflows, RoundedInteger;
    forall F: int, m: nat | ToDigits(x, P, F, m) ensures F == E && m == n { EvenUnique(n, m, Scaled10(x, P - E)); }
  }

  lemma FirstTry(x: Float, P: nat, n: nat)
    requires P >= 1 && RoundedInteger(NearestEven, n, Scaled10(x, P - FirstExponent(x)))
    ensures n < Pow(10, P) <==> !Overflows(x, P)
  {
    hide Scaled10, FirstExponent, Pow;
    PowStep(10, P - 1);
  }

  /** Digits ending in zero are, without it, those of one digit less. */
  lemma OneShorter(x: Float, P: nat, E: int, n: nat)
    requires ToDigits(x, P, E, n) && Candidate(x, P, E, n) && n % 10 == 0 && P >= 2
    ensures ToDigits(x, P - 1, E, n / 10)
  {
    hide Scaled10, Pow, FirstExponent;
    PowStep(10, P - 1);
    NextExponent(x, P - E);
    NextExponent(x, P - FirstExponent(x));
    assert P - E - 1 == P - 1 - E && P - FirstExponent(x) - 1 == P - 1 - FirstExponent(x);
  }

  /** x to Q digits has the given value. */
  ghost predicate HasValueAt(x: Float, Q: nat, E: int, v: real) {
    exists n: nat :: ToDigits(x, Q, E, n) && DecimalValue(n, E - Q) == v
  }

  ghost predicate HasValueDown(x: Float, P: nat, P0: nat, E: int, v: real) {
    forall Q :: P <= Q <= P0 ==> HasValueAt(x, Q, E, v)
  }

  /** Down from 17 digits, P is the last number of digits that reads back before one fails. */
  ghost predicate LastToRead(x: Float, P: nat) {
    1 <= P <= MAX_PRECISION && (forall Q :: P <= Q <= MAX_PRECISION ==> ReadsAt(x, Q)) && (P > 1 ==> !ReadsAt(x, P - 1))
  }

  lemma ValueReads(x: Float, Q: nat, E: int, v: real)
    requires HasValueAt(x, Q, E, v) && Reads(x, v)
    ensures ReadsAt(x, Q)
  {
    hide ToDigits, Reads, DecimalValue;
  }

  // ---------- the search ----------

  predicate IsRounding(rnd: Rnd) { rnd == RNDN || rnd == RNDNA }

  lemma RoundingWithinHalf(rnd: Rnd, n: int, t: real)
    requires IsRounding(rnd) && RoundedInteger(DirectionOfRnd(rnd), n, t)
    ensures WithinHalf(n, t)
  {
    hide RoundedInteger;
    RoundsWithinHalf(DirectionOfRnd(rnd), n, t);
  }

  /** One rounding of x to P - E decimals. */
  method RoundAt(tmp1: Mpb, x: Float, f: int, rnd: Rnd)
    requires Printable(x) && tmp1.tab.Length == BIGNUM_LIMBS && RoundingRoom(x, f) <= BIGNUM_LIMBS
    modifies tmp1`len, tmp1.tab
    ensures tmp1.Valid() && RoundedInteger(DirectionOfRnd(rnd), tmp1.Value(), Scaled10(x, f))
  {
    hide Pow, Scale, ScaledLen, ScaledOffset, RoundedInteger, ExactScaled, FloatValue;
    MulPowRound(tmp1, x.m, x.e - 53, 5, 1, f, rnd);
    ScaledIsDecimal(x, f);
  }

  lemma FitsWord(P: nat, n: nat)
    requires 1 <= P <= MAX_PRECISION && n <= 2 * Pow(10, P) + 1
    ensures n < LIMB2 && n % LIMB2 == n
  {
    hide Pow;
    SixteenDigits();
    PowMonotone(10, P, 17);
  }

  lemma InRangeBelow(x: Float, P: nat, E: int, n: int)
    requires P >= 1 && InRange(x, P, E, Scaled10(x, P - E)) && WithinHalf(n, Scaled10(x, P - E))
    ensures n <= 2 * Pow(10, P) + 1
  {
    hide Scaled10, Pow, FirstExponent;
  }

  /** x to P digits: the first exponent at which the rounded significand has no more than that. */
  method Attempt(tmp1: Mpb, x: Float, P: nat) returns (mant: nat, E: int)
    requires Printable(x) && tmp1.tab.Length == BIGNUM_LIMBS && 1 <= P <= MAX_PRECISION
    modifies tmp1`len, tmp1.tab
    ensures Candidate(x, P, E, mant) && ToDigits(x, P, E, mant)
  {
    hide Pow, Scaled10, FirstExponent, WithinHalf, InRange, Candidate, RoundedInteger, RoundingRoom, Overflows;
    FitsWord(P, Pow(10, P));
    var max := PowUi(10, P);
    E := FirstExponent(x);
    FirstInRange(x, P);
    while true
      invariant P >= 1 && InRange(x, P, E, Scaled10(x, P - E))
      invariant E == FirstExponent(x) || (E == FirstExponent(x) + 1 && Overflows(x, P))
      decreases FirstExponent(x) + 1 - E
    {
      ExponentChoice(x, P, E);
      FixedRoom(x, P, E);
      RoundAt(tmp1, x, P - E, RNDN);
      RoundingWithinHalf(RNDN, tmp1.Value(), Scaled10(x, P - E));
      InRangeBelow(x, P, E, tmp1.Value());
      FitsWord(P, tmp1.Value());
      mant := tmp1.GetU64();
      if E == FirstExponent(x) { FirstTry(x, P, mant); }
      if mant < max {
        Fits(x, P, E, mant);
        return;
      }
      TooLong(x, P, E, mant);
      E := E + 1;
    }
  }

  lemma ExponentChoice(x: Float, P: nat, E: int)
    requires P >= 1 && InRange(x, P, E, Scaled10(x, P - E)) && Printable(x)
    ensures E == FirstExponent(x) || E == FirstExponent(x) + 1
    ensures x.e >= -1073
  {}

  /** The accepted digits: a candidate with no final zero that reads back, and nothing nearer with as many digits. */
  ghost predicate Found(x: Float, P: nat, E: int, mant: nat) {
    && 1 <= P <= MAX_PRECISION && Candidate(x, P, E, mant) && ToDigits(x, P, E, mant)
    && mant % 10 != 0 && Reads(x, DecimalValue(mant, E - P))
  }

  /** No decimal of at most P digits, whatever its exponent, reads back to x. */
  ghost predicate NoneOf(x: Float, P: nat) {
    forall d: nat, q: int :: d < Pow(10, P) ==> !Reads(x, DecimalValue(d, q))
  }

  method StripZeros(x: Float, P0: nat, E: int, mant0: nat) returns (P: nat, mant: nat)
    requires Candidate(x, P0, E, mant0) && ToDigits(x, P0, E, mant0)
    ensures Candidate(x, P, E, mant) && ToDigits(x, P, E, mant) && mant % 10 != 0 && 1 <= P <= P0
    ensures DecimalValue(mant, E - P) == DecimalValue(mant0, E - P0)
    ensures HasValueDown(x, P, P0, E, DecimalValue(mant0, E - P0))
  {
    hide Candidate, DecimalValue, ToDigits;
    P, mant := P0, mant0;
    CandidateSize(x, P, E, mant);
    ghost var v := DecimalValue(mant0, E - P0);
    while mant % 10 == 0
      invariant Candidate(x, P, E, mant) && ToDigits(x, P, E, mant) && 1 <= P <= P0 && DecimalValue(mant, E - P) == v
      invariant HasValueDown(x, P, P0, E, v)
      decreases P
    {
      DropZero(x, P, E, mant);
      OneShorter(x, P, E, mant);
      mant := mant / 10;
      P := P - 1;
    }
  }

  /** Every double has digits that the search ends with, and only these. */
  lemma SomeFound(x: Float) returns (P: nat, E: int, mant: nat)
    requires Printable(x)
    ensures Found(x, P, E, mant) && LastToRead(x, P)
  {
    hide Candidate, ToDigits, Reads, DecimalValue, Printable, Pow, ReadsAt, LastToRead;
    E, mant := SomeDigits(x, MAX_PRECISION);
    MaxPrecisionReads(x, E, mant);
    DigitsDecide(x, MAX_PRECISION, E, mant);
    P := LastFrom(x, MAX_PRECISION);
    E, mant := LastDigits(x, P);
  }

  lemma LastFrom(x: Float, P: nat) returns (Q: nat)
    requires 1 <= P <= MAX_PRECISION && forall R :: P <= R <= MAX_PRECISION ==> ReadsAt(x, R)
    ensures LastToRead(x, Q)
    decreases P
  {
    hide ReadsAt;
    Q := P;
    if P > 1 && ReadsAt(x, P - 1) { Q := LastFrom(x, P - 1); }
  }

  /** Digits that read back, where those of one digit less do not, do not end in zero. */
  lemma LastDigits(x: Float, P: nat) returns (E: int, mant: nat)
    requires Printable(x) && LastToRead(x, P)
    ensures Found(x, P, E, mant)
  {
    hide Candidate, ToDigits, Reads, DecimalValue, Printable, Pow;
    E, mant := SomeDigits(x, P);
    DigitsDecide(x, P, E, mant);
    CandidateSize(x, P, E, mant);
    if mant % 10 == 0 {
      DropZero(x, P, E, mant);
      OneShorter(x, P, E, mant);
      DigitsDecide(x, P - 1, E, mant / 10);
    }
  }

  lemma SomeDigits(x: Float, P: nat) returns (E: int, n: nat)
    requires Printable(x) && P >= 1
    ensures ToDigits(x, P, E, n) && Candidate(x, P, E, n)
  {
    hide Candidate, Scaled10, Pow, FirstExponent, InRange, WithinHalf, Printable, RoundedInteger, Overflows;
    E := FirstExponent(x);
    FirstInRange(x, P);
    n := EvenAt(x, P, E);
    FirstTry(x, P, n);
    if n < Pow(10, P) {
      Fits(x, P, E, n);
    } else {
      TooLong(x, P, E, n);
      E := E + 1;
      n := EvenAt(x, P, E);
      if n >= Pow(10, P) { TooLong(x, P, E, n); }
      Fits(x, P, E, n);
    }
  }

  lemma EvenAt(x: Float, P: nat, E: int) returns (n: nat)
    requires P >= 1 && InRange(x, P, E, Scaled10(x, P - E))
    ensures RoundedInteger(NearestEven, n, Scaled10(x, P - E)) && WithinHalf(n, Scaled10(x, P - E))
  {
    hide Scaled10, Pow, FirstExponent;
    PowMonotone(10, 0, P - 1);
    PowStep(10, 0);
    var m := NearestTo(Scaled10(x, P - E));
    RoundsWithinHalf(NearestEven, m, Scaled10(x, P - E));
    n := m;
  }

  lemma NearestTo(t: real) returns (n: int)
    ensures RoundedInteger(NearestEven, n, t)
  {
    n := t.Floor;
    var r := 2.0 * (t - n as real);
    if r > 1.0 || (r == 1.0 && n % 2 == 1) { n := n + 1; }
  }

  /** What the search ends with is settled by x. */
  lemma FoundOnce(x: Float, P: nat, E: int, n: nat, Q: nat, F: int, m: nat)
    requires Found(x, P, E, n) && LastToRead(x, P) && Found(x, Q, F, m) && LastToRead(x, Q)
    ensures P == Q && E == F && n == m
  {
    hide Candidate, Reads, DecimalValue, ReadsAt, Scaled10, RoundedInteger, Overflows, FirstExponent;
    EvenUnique2(n, m, Scaled10(x, P - E));
  }

  lemma EvenUnique2(n: int, m: int, t: real)
    ensures RoundedInteger(NearestEven, n, t) && RoundedInteger(NearestEven, m, t) ==> n == m
  {}

  lemma CandidateSize(x: Float, P: nat, E: int, n: nat)
    requires Candidate(x, P, E, n)
    ensures P >= 1 && Pow(10, P - 1) <= n < Pow(10, P)
    ensures E == FirstExponent(x) || E == FirstExponent(x) + 1
  {}

  lemma ZeroDoesNotRead(x: Float)
    requires Printable(x)
    ensures NoneOf(x, 0)
  {
    hide Scale, Mag, PatternOf, RoundedTo, Reads;
    PowStep(10, 0);
    forall d: nat, q: int | d < Pow(10, 0) ensures !Reads(x, DecimalValue(d, q)) {
      assert DecimalValue(d, q) == 0.0;
      var u := Gaps(x);
      ZeroRounds(PatternOf(x));
      ReadsIs(x, 0.0, 0.0);
    }
  }

  lemma ZeroRounds(p: nat)
    requires p > 0
    ensures !RoundedTo(NearestEven, p, 0.0)
  {
    hide Mag;
    MagMonotone(0, p);
  }

  lemma NoneFollows(x: Float, P: nat, E: int, n: nat)
    requires Printable(x) && HasEqualGaps(x) && Candidate(x, P, E, n) && !Reads(x, DecimalValue(n, E - P))
    ensures NoneOf(x, P)
  {
    hide *;
    forall d: nat, q: int | d < Pow(10, P) ensures !Reads(x, DecimalValue(d, q)) {
      NoneReads(x, P, E, n, d, q);
    }
    NoneOfIs(x, P);
  }

  lemma NoneOfIs(x: Float, P: nat)
    requires forall d: nat, q: int | d < Pow(10, P) :: !Reads(x, DecimalValue(d, q))
    ensures NoneOf(x, P)
  {
    hide Pow, Reads, DecimalValue;
  }

  // ---------- powers of two: where a shorter decimal may be missed ----------

  lemma CarriedDecimal(m: nat, q: int)
    ensures DecimalValue(10 * m, q) == DecimalValue(m, q + 1)
  {
    hide Scale;
    ScaleStep(10, q);
    assert (10 * m) as real == m as real * 10.0;
    RealAssoc(m as real, 10.0, Scale(10, q));
  }

  /** The decimal after a candidate has at most P digits too, its final zero dropped if need be. */
  lemma NextHasDigits(P: nat, n: nat, q: int) returns (d: nat, r: int)
    requires P >= 1 && n < Pow(10, P)
    ensures d < Pow(10, P) && DecimalValue(d, r) == DecimalValue(n + 1, q)
  {
    hide Pow, DecimalValue;
    PowStep(10, P - 1);
    d, r := n + 1, q;
    if n + 1 == Pow(10, P) {
      d, r := Pow(10, P - 1), q + 1;
      CarriedDecimal(d, q);
      PowMonotone(10, 0, P - 1);
      PowStep(10, 0);
    }
  }

  lemma FootStep(n: int, t: real, b: int, w: real, k: int)
    requires WithinHalf(n, t) && 20.0 * t >= 20.0 * b as real - 1.0
    requires w == k as real || 10.0 * w <= 10.0 * b as real - 1.0
    requires NearFoot(w, t) && !NearFoot(n as real, t) && Far(n as real, t) <= Far(w, t)
    ensures NearFoot((n + 1) as real, t)
  {
    assert n as real < t < w;
    assert k >= n + 1;
  }

  /** If some decimal of at most P digits reads back though the nearest does not, the one just above it does. */
  lemma FootMisses(x: Float, P: nat, E: int, n: nat, d: nat, q: int)
    requires Printable(x) && !HasEqualGaps(x) && Candidate(x, P, E, n) && d < Pow(10, P)
    requires !Reads(x, DecimalValue(n, E - P)) && Reads(x, DecimalValue(d, q))
    ensures Reads(x, DecimalValue(n + 1, E - P))
  {
    hide *;
    PrintableIs(x);
    var s, v := Scale(10, P - E), FloatValue(x);
    var nr, ur, wr := DecimalValue(n, E - P), DecimalValue(n + 1, E - P), DecimalValue(d, q);
    var t, z, y, w := v * s, nr * s, ur * s, wr * s;
    FootReads(x, nr);
    FootReads(x, ur);
    FootReads(x, wr);
    ScalePositive(10, P - E);
    FootScaled(nr, v, s, t, z);
    FootScaled(ur, v, s, t, y);
    FootScaled(wr, v, s, t, w);
    CandidateIs(x, P, E, n, t);
    UnitsOf(n, E - P, z);
    UnitsOf(n + 1, E - P, y);
    ShiftedDecimal(d, q, P - E, w);
    var k := OnGridOrShort(d, P, q + (P - E), w);
    NearestWins(n, t, Pow(10, P - 1), w, k);
    FootStep(n, t, Pow(10, P - 1), w, k);
  }

  /** After the nearest P-digit decimal failed, exactly when nothing of at most P digits reads back. */
  lemma FailureDecides(x: Float, P: nat, E: int, n: nat)
    requires Printable(x) && Candidate(x, P, E, n) && !Reads(x, DecimalValue(n, E - P))
    ensures NoneOf(x, P) <==> HasEqualGaps(x) || !Reads(x, DecimalValue(n + 1, E - P))
  {
    hide *;
    CandidateSize(x, P, E, n);
    if HasEqualGaps(x) {
      NoneFollows(x, P, E, n);
    } else if Reads(x, DecimalValue(n + 1, E - P)) {
      var d, r := NextHasDigits(P, n, E - P);
      OneReads(x, P, d, r);
    } else {
      forall d: nat, q: int | d < Pow(10, P) ensures !Reads(x, DecimalValue(d, q)) {
        if Reads(x, DecimalValue(d, q)) { FootMisses(x, P, E, n, d, q); }
      }
      NoneOfIs(x, P);
    }
  }

  lemma OneReads(x: Float, P: nat, d: nat, q: int)
    requires d < Pow(10, P) && Reads(x, DecimalValue(d, q))
    ensures !NoneOf(x, P)
  {
    hide Pow, Reads, DecimalValue;
  }

  // ---------- the search ----------

  /**
   The digits of x by successive tries, from 17 down, until one fails: they read back, and no shorter decimal
   does, unless x is a power of two for which the decimal above the one that failed reads back.
   */
  method FreeDigits(tmp1: Mpb, x: Float) returns (P: nat, E: int)
    requires Printable(x) && tmp1.tab.Length == BIGNUM_LIMBS
    modifies tmp1`len, tmp1.tab
    ensures tmp1.Valid() && Found(x, P, E, tmp1.Value())
    ensures LastToRead(x, P)
    ensures NoneOf(x, P - 1) <==> P == 1 || HasEqualGaps(x) || !NextReads(x, P - 1)
  {
    hide Pow, Scaled10, FirstExponent, WithinHalf, Candidate, Reads, DecimalValue, HasEqualGaps, NoneOf, RoundedTo, ExactDouble,
         PatternOf, ScaledLen, Printable, ProperFloat, ToDigits, ReadsAt, NextReads, HasValueAt;
    var found, mantFound: nat, eFound, mant := 0, 0, 0, 0;
    P := MAX_PRECISION;
    while true
      invariant 1 <= P <= MAX_PRECISION
      invariant found == 0 ==> P == MAX_PRECISION
      invariant found != 0 ==> found == P + 1 && Found(x, found, eFound, mantFound)
      invariant found != 0 ==> forall Q :: found <= Q <= MAX_PRECISION ==> ReadsAt(x, Q)
      decreases P
    {
      ghost var p := P;
      mant, E := Attempt(tmp1, x, P);
      ghost var n := mant;
      P, mant := StripZeros(x, P, E, mant);
      CandidateSize(x, P, E, mant);
      if found != 0 {
        DigitsFitWord(x, P, mant);
        tmp1.SetU64(mant);
        PrintableIs(x);
        DecimalExponents(x, P, E);
        ReadingRoom(tmp1.len, mant, E - P);
        var y := MulPowRoundToD(tmp1, 5, 1, E - P, RNDN);
        ReadBackDecides(x, y, mant, E - P);
        if y != x {
          FailureDecides(x, p, E, n);
          DigitsDecide(x, p, E, n);
          break;
        }
      } else {
        MaxPrecisionReads(x, E, n);
      }
      forall Q | P <= Q <= p ensures ReadsAt(x, Q) { ValueReads(x, Q, E, DecimalValue(n, E - p)); }
      found, eFound, mantFound := P, E, mant;
      if P == 1 {
        ZeroDoesNotRead(x);
        break;
      }
      P := P - 1;
    }
    P, E := found, eFound;
    CandidateSize(x, P, E, mantFound);
    DigitsFitWord(x, P, mantFound);
    tmp1.SetU64(mantFound);
  }

  lemma DigitsFitWord(x: Float, P: nat, mant: nat)
    requires 1 <= P <= MAX_PRECISION && Pow(10, P - 1) <= mant < Pow(10, P)
    ensures 0 < mant < LIMB2
  {
    hide Pow;
    FitsWord(P, mant);
    PowMonotone(10, 0, P - 1);
    PowStep(10, 0);
  }

  lemma DecimalExponents(x: Float, P: nat, E: int)
    requires Printable(x) && 1 <= P <= MAX_PRECISION && (E == FirstExponent(x) || E == FirstExponent(x) + 1)
    ensures -380 <= E - P <= 330
  {
    hide FirstExponent;
    ExponentRange(x);
  }

  // ---------- 2^-24 ----------

  /**
   2^-24 is 59604644775390625e-24: to sixteen digits the tie goes down to even, below the reading interval, so
   the search ends at seventeen; yet the sixteen-digit decimal above reads back.
   */
  lemma ShorterMissed()
    ensures var x := Float(0x10_0000_0000_0000, -23);
            && Printable(x) && !HasEqualGaps(x) && !ReadsAt(x, 16) && NextReads(x, 16) && !NoneOf(x, 16)
            && forall P :: LastToRead(x, P) ==> P == 17
  {
    hide *;
    var x := Float(0x10_0000_0000_0000, -23);
    ExampleShape(x);
    var s, v := Scale(10, 23), FloatValue(x);
    var t := v * s;
    ExampleUnits(x, t);
    ExampleReads(x, 5960464477539062, 5960464477539062.0, t);
    ExampleReads(x, 5960464477539063, 5960464477539063.0, t);
    ExampleCandidate(x, t);
    ExampleDigits(x, t);
    ExampleFoot(t);
    DigitsDecide(x, 16, -7, 5960464477539062);
    FailureDecides(x, 16, -7, 5960464477539062);
    OnlySeventeen(x);
  }

  lemma OnlySeventeen(x: Float)
    requires !ReadsAt(x, 16)
    ensures forall P :: LastToRead(x, P) ==> P == 17
  {
    hide ReadsAt;
  }

  lemma ExampleDigits(x: Float, t: real)
    requires x == Float(0x10_0000_0000_0000, -23) && t == FloatValue(x) * Scale(10, 23)
    requires 2.0 * t == 11920928955078125.0 && FirstExponent(x) == -7
    ensures ToDigits(x, 16, -7, 5960464477539062)
  {
    hide Pow, FirstExponent, Scaled10;
    Scaled10Is(x, 23, t);
    SixteenDigits();
    PowStep(10, 15);
  }

  lemma ExampleFoot(t: real)
    requires 2.0 * t == 11920928955078125.0
    ensures !NearFoot(5960464477539062.0, t) && NearFoot(5960464477539063.0, t)
  {}

  lemma ExampleShape(x: Float)
    requires x == Float(0x10_0000_0000_0000, -23)
    ensures Printable(x) && !HasEqualGaps(x) && FirstExponent(x) == -7
  {}

  lemma ExampleUnits(x: Float, t: real)
    requires x == Float(0x10_0000_0000_0000, -23) && t == FloatValue(x) * Scale(10, 23)
    ensures 2.0 * t == 11920928955078125.0
  {
    hide Scale, Pow;
    var a, b, c := Scale(2, -76), Scale(5, 23), Scale(2, 23);
    RadixSplit(5, 1, 23);
    RadixTen();
    FiveTo23();
    ScaleNat(5, 23);
    ScaleAdd(2, -76, 23);
    ScaleAdd(2, -53, 52);
    ScaleStep(2, -1);
    ScaleZero(2);
    SignificandScale();
    RealAssoc(a, b, c);
    assert t == 4503599627370496.0 * a * (b * c);
    ExampleProduct(a, b, c, Scale(2, -53), t);
  }

  lemma ExampleProduct(a: real, b: real, c: real, d: real, t: real)
    requires b == 11920928955078125.0 && a * c == d && 2.0 * (d * 4503599627370496.0) == 1.0
    requires t == 4503599627370496.0 * a * (b * c)
    ensures 2.0 * t == 11920928955078125.0
  {
    assert t == b * (4503599627370496.0 * (a * c));
  }

  lemma FiveTo23()
    ensures Pow(5, 23) == 11920928955078125
  {
    hide Pow;
    SmallPowersOfFive();
    PowAdd(5, 20, 3);
  }

  lemma ExampleReads(x: Float, n: nat, nr: real, t: real)
    requires x == Float(0x10_0000_0000_0000, -23) && !HasEqualGaps(x) && ProperFloat(x)
    requires t == FloatValue(x) * Scale(10, 23) && nr == n as real
    ensures Reads(x, DecimalValue(n, -23)) <==> NearFoot(nr, t)
  {
    hide *;
    var s, w := Scale(10, 23), DecimalValue(n, -23);
    var z := w * s;
    FootReads(x, w);
    ScalePositive(10, 23);
    UnitsOf(n, -23, z);
    FootScaled(w, FloatValue(x), s, t, z);
  }

  lemma ExampleCandidate(x: Float, t: real)
    requires x == Float(0x10_0000_0000_0000, -23) && t == FloatValue(x) * Scale(10, 23)
    requires 2.0 * t == 11920928955078125.0 && FirstExponent(x) == -7
    ensures Candidate(x, 16, -7, 5960464477539062)
  {
    hide Pow, FirstExponent, Scaled10;
    Scaled10Is(x, 23, t);
    SixteenDigits();
    PowStep(10, 15);
  }

  // ---------- fixed precision ----------

  lemma FixedAt(x: Float, P: nat, E: int, n: int)
    requires P >= 1 && InRange(x, P, E, Scaled10(x, P - E)) && WithinHalf(n, Scaled10(x, P - E))
    ensures n >= Pow(10, P) ==>
              E == FirstExponent(x) && InRange(x, P, E + 1, Scaled10(x, P - (E + 1)))
    ensures n < Pow(10, P) ==> Candidate(x, P, E, n)
  {
    hide InRange, WithinHalf, Candidate, FirstExponent, Scaled10, Pow;
    if n >= Pow(10, P) { TooLong(x, P, E, n); } else { Fits(x, P, E, n); }
  }

  /** x to n digits, halves away from zero. */
  method FixedDigits(tmp1: Mpb, mantMax: Mpb, x: Float, n: nat) returns (E: int)
    requires Printable(x) && 1 <= n <= 101 && tmp1 != mantMax && tmp1.tab != mantMax.tab
    requires tmp1.tab.Length == BIGNUM_LIMBS && mantMax.tab.Length == MANTISSA_LIMBS
    modifies tmp1`len, tmp1.tab, mantMax`len, mantMax.tab
    ensures tmp1.Valid() && Candidate(x, n, E, tmp1.Value())
    ensures RoundedInteger(NearestAway, tmp1.Value(), Scaled10(x, n - E))
  {
    hide Pow, Scaled10, FirstExponent, WithinHalf, InRange, Candidate, RoundedInteger, RoundingRoom;
    TenToThe(mantMax, n);
    E := FirstExponent(x);
    FirstInRange(x, n);
    while true
      invariant InRange(x, n, E, Scaled10(x, n - E))
      invariant mantMax.Valid() && mantMax.Value() == Pow(10, n)
      decreases FirstExponent(x) + 1 - E
    {
      ExponentChoice(x, n, E);
      FixedRoom(x, n, E);
      RoundAt(tmp1, x, n - E, RNDNA);
      RoundingWithinHalf(RNDNA, tmp1.Value(), Scaled10(x, n - E));
      FixedAt(x, n, E, tmp1.Value());
      var c := tmp1.Cmp(mantMax);
      if c < 0 { break; }
      E := E + 1;
    }
  }

  /** mant_max = 10^n, by mul_pow without rounding. */
  method TenToThe(mantMax: Mpb, n: nat)
    requires n <= 101 && mantMax.tab.Length == MANTISSA_LIMBS
    modifies mantMax`len, mantMax.tab
    ensures mantMax.Valid() && mantMax.Value() == Pow(10, n)
  {
    hide Pow, BitLength, Val, RoundedQuotient, CeilDiv, DivisionShift;
    mantMax.len := 1;
    mantMax.tab[0] := 1;
    assert mantMax.tab[..1] == [1];
    ValSingle(1);
    Passes(n);
    var powShift := MulPow(mantMax, 5, 1, n, false, 0);
    Positive(1, Pow(5, n));
    PowMonotone(5, 0, n);
    PowStep(5, 0);
    PowProduct(5, 2, n);
    mantMax.ShrRound(powShift, RNDZ);
  }

  /** x to n decimals, halves away from zero. */
  method FractionDigits(tmp1: Mpb, x: Float, n: nat)
    requires Printable(x) && n <= 101 && tmp1.tab.Length == BIGNUM_LIMBS
    modifies tmp1`len, tmp1.tab
    ensures tmp1.Valid() && RoundedInteger(NearestAway, tmp1.Value(), Scaled10(x, n))
  {
    FractionRoom(x, n);
    RoundAt(tmp1, x, n, RNDNA);
  }
}

