/** m * 2^e * radix^f rounded to an integer, and a * radix^f rounded to a double. */
module Scaling {
  import opened Arith
  import opened Powers
  import opened Tracking
  import opened Rounding
  import opened Binary64
  import opened Bits
  import opened Limbs
  import opened LimbBits
  import opened InverseDivision
  import opened Bignum
  import opened RadixPower

  function Radix(radix1: nat, radixShift: nat): nat { radix1 * Pow(2, radixShift) }

  /** v * radix^f * 2^k, exactly. */
  ghost function ExactScaled(v: nat, radix1: nat, radixShift: nat, f: int, k: int): real
    requires radix1 > 0
  {
    v as real * Scale(radix1, f) * Scale(2, f * radixShift + k)
  }

  /** The split into an odd part and a power of two loses nothing. */
  lemma RadixSplit(radix1: nat, radixShift: nat, f: int)
    requires radix1 > 0
    ensures Radix(radix1, radixShift) > 0
    ensures Scale(Radix(radix1, radixShift), f) == Scale(radix1, f) * Scale(2, f * radixShift)
  {
    hide Pow;
    var n: nat := if f >= 0 then f else -f;
    var p := Pow(2, radixShift);
    Positive(radix1, p);
    PowProduct(radix1, p, n);
    PowerOfPower(2, radixShift, n);
    assert radixShift * n == n * radixShift;
    if f < 0 {
      NegativeProduct(f, radixShift);
      ScaleNegative(radix1, n);
      ScaleNegative(2, n * radixShift);
      ScaleNegative(radix1 * p, n);
      ReciprocalProduct(Pow(radix1, n) as real, Pow(2, n * radixShift) as real);
    }
  }

  lemma NegativeProduct(f: int, s: int)
    ensures (-f) * s == -(f * s)
  {}

  lemma ScaleNegative(b: nat, n: nat)
    requires b > 0
    ensures Scale(b, 0 - n) == 1.0 / Pow(b, n) as real
  {}

  lemma ReciprocalProduct(a: real, b: real)
    requires a > 0.0 && b > 0.0
    ensures a * b > 0.0 && 1.0 / (a * b) == (1.0 / a) * (1.0 / b)
  {}

  /** What mul_pow computes: the exact value when multiplying, its sticky quotient when dividing. */
  lemma ScaledTracks(v: nat, radix1: nat, radixShift: nat, f: int, isInt: bool, e: int, now: nat, eOffset: int)
    requires OddRadix(radix1) && Scaled(v, radix1, radixShift, f, isInt, e, now, eOffset)
    ensures Tracks(now, ExactScaled(v, radix1, radixShift, f, eOffset), 2)
    ensures radix1 == 1 || f >= 0 ==> ExactScaled(v, radix1, radixShift, f, eOffset) == now as real
  {
    hide Tracks, Pow, Scale, StickyQuotient, DivisionShift;
    TracksExact(now, 2);
    ScaleZero(2);
    NegativeProduct(f, radixShift);
    if radix1 == 1 {
      ScaleOne(f);
    } else if f >= 0 {
      ScaleNat(radix1, f);
    } else {
      var k := DivisionShift(radix1, radixShift, -f, isInt, e, v);
      ScaleNat(radix1, -f);
      ScaleNat(2, k);
      DividedTracks(v, Scale(radix1, f), Pow(2, k), Pow(radix1, -f), radix1, f, now,
                    ExactScaled(v, radix1, radixShift, f, eOffset));
    }
  }

  lemma ScaleOne(f: int)
    ensures Scale(1, f) == 1.0
  {
    PowOfOne(if f >= 0 then f else -f);
  }

  lemma {:induction false} PowOfOne(n: nat)
    ensures Pow(1, n) == 1
  {
    hide Pow;
    PowStep(1, 0);
    if n > 0 {
      PowOfOne(n - 1);
      PowStep(1, n - 1);
    }
  }

  lemma DividedTracks(v: nat, s: real, p: nat, d: nat, radix1: nat, f: int, now: nat, z: real)
    requires z == v as real * s * p as real
    requires radix1 > 0 && d > 0 && f < 0 && s == Scale(radix1, f) && d == Pow(radix1, -f)
    requires now == StickyQuotient(v * p, d)
    ensures Tracks(now, z, 2)
  {
    hide Tracks, Pow, Scale, Jam;
    ScaleInverse(radix1, f);
    ScaleNat(radix1, -f);
    MovedDivisor(v as real, s, p as real, d as real);
    assert (v * p) as real == v as real * p as real;
    JamTracks(v * p, d, z, now);
  }

  lemma MovedDivisor(v: real, s: real, p: real, d: real)
    requires s * d == 1.0
    ensures v * s * p * d == v * p
  {
    RealAssoc(v * s, p, d);
    assert p * d == d * p;
    RealAssoc(v * s, d, p);
    RealAssoc(v, s, d);
  }

  // ---------- how large the quotient stays ----------

  /** All passes together divide by less than the limbs shifted in. */
  lemma {:induction false} PassesBound(radix1: nat, f: nat)
    requires OddRadix(radix1) && radix1 > 1
    ensures Pow(radix1, f) <= Pow(2, 32 * CeilDiv(f, PassDigits(radix1)))
    decreases f
  {
    hide Pow;
    var d := PassDigits(radix1);
    DigitsFit(radix1);
    PowersOfTwo();
    PowStep(2, 0);
    PowStep(radix1, 0);
    if f > 0 {
      var n := if f < d then f else d;
      PassLimb(f, d, n);
      PassesBound(radix1, f - n);
      var l := CeilDiv(f - n, d);
      PowAdd(radix1, n, f - n);
      PowMonotone(radix1, n, d);
      PowAdd(2, 32, 32 * l);
      Monotone(Pow(radix1, n), Pow(2, 32), Pow(radix1, f - n));
      Monotone(Pow(radix1, f - n), Pow(2, 32 * l), Pow(2, 32));
    }
  }

  /** In fraction mode the quotient keeps at least e bits below its leading one. */
  lemma QuotientLarge(v: nat, radix1: nat, radixShift: nat, f: nat, e: nat)
    requires OddRadix(radix1) && radix1 > 1 && v > 0
    ensures StickyQuotient(v * Pow(2, DivisionShift(radix1, radixShift, f, false, e, v)), Pow(radix1, f)) >= Pow(2, e)
  {
    hide Pow, BitLength, Jam;
    var l := CeilDiv(f, PassDigits(radix1));
    var extra := ExtraBits(false, e, f * radixShift + l * 32, BitLength(v) - 1);
    BitLengthBounds(v);
    PassesBound(radix1, f);
    PowAdd(2, extra, 32 * l);
    PowAdd(2, BitLength(v) - 1, extra);
    PowMonotone(2, e, BitLength(v) - 1 + extra);
    QuotientBelow(v, Pow(2, BitLength(v) - 1), Pow(2, extra), Pow(2, 32 * l), Pow(radix1, f), Pow(2, e));
  }

  lemma QuotientBelow(v: nat, b: nat, x: nat, w: nat, d: nat, t: nat)
    requires v >= b && b * x >= t && 0 < d <= w
    ensures StickyQuotient(v * (x * w), d) >= t
  {
    Monotone(b, v, x);
    Assoc(v, x, w);
    Monotone(t, v * x, w);
    Monotone(d, w, t);
    var q, r := Cell(v * (x * w), d);
    DivUnique(v * (x * w), d, q, r);
    if q < t { StrictMonotone(q, t, d); }
  }

  // ---------- rounding the scaled value ----------

  /** r rounds y to an integer. */
  ghost predicate RoundedInteger(d: Direction, r: int, y: real) { RoundedQuotient(d, r, y, 1) }

  /** Shifting right by s with rounding rounds y / 2^s, when now tracks y and at least two bits go or now is exact. */
  lemma ShiftRounds(d: Direction, r: nat, now: nat, y: real, s: int, z: real)
    requires s <= 0 ==> r == now * Pow(2, -s)
    requires s > 0 ==> RoundedQuotient(d, r, now as real, Pow(2, s))
    requires y == now as real || (s >= 2 && Tracks(now, y, 2))
    requires z == y * Scale(2, -s)
    ensures RoundedInteger(d, r, z)
  {
    hide Tracks, Pow, Scale, RoundedQuotient;
    if s <= 0 {
      ScaleNat(2, -s);
      assert (now * Pow(2, -s)) as real == now as real * Pow(2, -s) as real;
      IntegerRounds(d, r);
    } else {
      if s >= 2 && Tracks(now, y, 2) {
        TracksAtHalf(now, y, s);
        PowStep(2, s - 1);
        TrackedRoundsAlike(d, r, now, y, Pow(2, s - 1));
      }
      ScaleInverse(2, s);
      ScaleNat(2, s);
      RealAssoc(y, Scale(2, -s), Pow(2, s) as real);
      QuotientRounds(d, r, y, Pow(2, s), z);
    }
  }

  lemma TracksAtHalf(m: nat, y: real, s: nat)
    requires s >= 2 && Tracks(m, y, 2)
    ensures Tracks(m, y, Pow(2, s - 1))
  {
    hide Tracks, Pow;
    PowStep(2, s - 2);
    TracksCoarser(m, y, 2, Pow(2, s - 2), Pow(2, s - 1));
  }

  lemma IntegerRounds(d: Direction, r: int)
    ensures RoundedInteger(d, r, r as real)
  {}

  lemma QuotientRounds(d: Direction, r: int, y: real, u: nat, z: real)
    requires u > 0 && z * u as real == y && RoundedQuotient(d, r, y, u)
    ensures RoundedInteger(d, r, z)
  {
    var U := u as real;
    var ru := (r * u) as real;
    assert ru == r as real * U;
    RealDistribute(2.0 * z, 2.0 * r as real, U);
    UnitOrder(z, y, U, r as real, ru);
  }

  lemma UnitOrder(z: real, y: real, u: real, r: real, ru: real)
    requires u > 0.0 && z * u == y && ru == r * u
    ensures z < r <==> y < ru
    ensures z > r <==> y > ru
    ensures z < r + 1.0 <==> y < ru + u
    ensures z > r - 1.0 <==> y > ru - u
    ensures 2.0 * z < 2.0 * r + 1.0 <==> 2.0 * y < 2.0 * ru + u
    ensures 2.0 * z > 2.0 * r + 1.0 <==> 2.0 * y > 2.0 * ru + u
    ensures 2.0 * z < 2.0 * r - 1.0 <==> 2.0 * y < 2.0 * ru - u
    ensures 2.0 * z > 2.0 * r - 1.0 <==> 2.0 * y > 2.0 * ru - u
  {
    assert (2.0 * z) * u == 2.0 * y && 2.0 * ru == (2.0 * r) * u;
    OffsetOrder(z, y, r, ru, u, 0.0);
    OffsetOrder(z, y, r, ru, u, 1.0);
    OffsetOrder(z, y, r, ru, u, -1.0);
    OffsetOrder(2.0 * z, 2.0 * y, 2.0 * r, 2.0 * ru, u, 1.0);
    OffsetOrder(2.0 * z, 2.0 * y, 2.0 * r, 2.0 * ru, u, -1.0);
  }

  lemma OffsetOrder(z: real, y: real, r: real, ru: real, u: real, c: real)
    requires u > 0.0 && z * u == y && ru == r * u
    ensures z < r + c <==> y < ru + c * u
    ensures z > r + c <==> y > ru + c * u
  {
    RealDistribute(r, c, u);
    RealOrder(z, r + c, u);
    RealOrder(r + c, z, u);
  }

  /** Limbs mul_pow may need for its scaled operand. */
  function ScaledLen(len: nat, v: nat, radix1: nat, radixShift: nat, f: int, isInt: bool, e: int): nat
    requires OddRadix(radix1)
  {
    if radix1 == 1 then len
    else if f >= 0 then len + CeilDiv(f, PassDigits(radix1))
    else len + 1 + DivisionShift(radix1, radixShift, -f, isInt, e, v) / 32
  }

  /** The offset mul_pow returns, as a function of its arguments. */
  function ScaledOffset(v: nat, radix1: nat, radixShift: nat, f: int, isInt: bool, e: int): int
    requires OddRadix(radix1)
  {
    -f * radixShift + if radix1 == 1 || f >= 0 then 0 else DivisionShift(radix1, radixShift, -f, isInt, e, v)
  }

  /** tmp1 = round(m * 2^e * radix^f). */
  method MulPowRound(tmp1: Mpb, m: nat, e: int, radix1: nat, radixShift: nat, f: int, rnd: Rnd)
    requires 0 < m < LIMB2 && OddRadix(radix1) && tmp1.tab.Length >= 2
    requires var eo := ScaledOffset(m, radix1, radixShift, f, true, e);
             ScaledLen(2, m, radix1, radixShift, f, true, e) + 1 + (if e > eo then (e - eo) / 32 else 0) <= tmp1.tab.Length
    modifies tmp1`len, tmp1.tab
    ensures tmp1.Valid()
    ensures RoundedInteger(DirectionOfRnd(rnd), tmp1.Value(), ExactScaled(m, radix1, radixShift, f, e))
  {
    hide Val, Base, Pow, Scale, Scaled, ExactScaled, DivisionShift, RoundedInteger, Tracks, RoundedQuotient;
    tmp1.SetU64(m);
    var eOffset := MulPow(tmp1, radix1, radixShift, f, true, e);
    ghost var now := tmp1.Value();
    ScaledTracks(m, radix1, radixShift, f, true, e, now, eOffset);
    ScaledPositive(m, radix1, radixShift, f, true, e, now, eOffset);
    tmp1.ShrRound(-e + eOffset, rnd);
    OffsetShift(m, radix1, radixShift, f, eOffset, e);
    ShiftRounds(DirectionOfRnd(rnd), tmp1.Value(), now, ExactScaled(m, radix1, radixShift, f, eOffset), -e + eOffset,
                ExactScaled(m, radix1, radixShift, f, e));
  }

  /** What mul_pow leaves is positive, its offset is ScaledOffset, and in integer mode two bits are to be dropped. */
  lemma ScaledPositive(v: nat, radix1: nat, radixShift: nat, f: int, isInt: bool, e: int, now: nat, eOffset: int)
    requires v > 0 && OddRadix(radix1) && Scaled(v, radix1, radixShift, f, isInt, e, now, eOffset)
    ensures now > 0 || (radix1 > 1 && f < 0)
    ensures eOffset == ScaledOffset(v, radix1, radixShift, f, isInt, e)
    ensures isInt && radix1 > 1 && f < 0 ==> eOffset - e >= 2
  {
    hide Pow, StickyQuotient;
    if radix1 > 1 && f >= 0 { Positive(v, Pow(radix1, f)); }
  }

  lemma OffsetShift(v: nat, radix1: nat, radixShift: nat, f: int, eOffset: int, e: int)
    requires radix1 > 0
    ensures ExactScaled(v, radix1, radixShift, f, e)
            == ExactScaled(v, radix1, radixShift, f, eOffset) * Scale(2, -(-e + eOffset))
  {
    hide Scale;
    ScaleAdd(2, f * radixShift + eOffset, e - eOffset);
    RealAssoc(v as real * Scale(radix1, f), Scale(2, f * radixShift + eOffset), Scale(2, e - eOffset));
  }

  // ---------- rounding to a double ----------

  /** A significand m of 53 bits and a binary exponent e: the value m * 2^(e - 53). */
  datatype Float = Float(m: nat, e: int)

  /** The magnitude pattern of a rounded significand and exponent; subnormals drop their low zeros. */
  function PatternOf(x: Float): nat {
    if x.m == 0 then 0
    else if x.e < -1021 then x.m / Pow(2, -x.e - 1021)
    else (x.e + 1021) * 0x10_0000_0000_0000 + x.m
  }

  /** Significant bits kept at binary exponent e; none or fewer below the subnormal range. */
  function Precision(e: int): int { if e < -1021 then 53 - (-1021 - e) else 53 }

  /** Shift to the top of the significand, and move a carry into the exponent. */
  function Normalised(r: nat, prec: int, e: int): Float
    requires prec <= 53
  {
    var m := r * Pow(2, 53 - prec);
    if m >= TWO53 then Float(m / 2, e + 1) else Float(m, e)
  }

  /** round(y * 2^-eOffset) to 53 bits, fewer for subnormal results, where a stands for y. */
  method RoundToD(a: Mpb, eOffset: int, rnd: Rnd, ghost y: real) returns (x: Float)
    requires a.Valid() && a.len + 2 <= a.tab.Length && (a.Value() > 0 ==> Represents(a.Value(), y))
    modifies a`len, a.tab
    ensures ProperFloat(x) && (old(a.Value()) == 0 ==> x.m == 0)
    ensures old(a.Value()) > 0 ==> RoundedTo(DirectionOfRnd(rnd), PatternOf(x), y * Scale(2, 1074 - eOffset))
  {
    hide Val, Base, Pow, Scale, BitLength, RoundedQuotient, RoundedTo, Represents, PatternOf, Normalised, KeptBits;
    ghost var v := a.Value();
    var k := a.FloorLog2();
    if k < 0 {
      if v > 0 { BitLengthBounds(v); }
      return Float(0, 0);
    }
    if v == 0 { BitLengthZero(); }
    var e := k + 1 - eOffset;
    var prec := Precision(e);
    a.ShrRound(e + eOffset - prec, rnd);
    ghost var r := a.Value();
    RoundedSize(v, e + eOffset, prec, rnd, r);
    var m := a.GetU64();
    DivUnique(r, LIMB2, 0, r);
    x := Normalised(m, prec, e);
    ProperRounded(r, e);
    RoundedFloat(v, y, eOffset, rnd, r, y * Scale(2, 1074 - eOffset));
  }

  /** now is y exactly, or stands for it with 55 bits to spare. */
  ghost predicate Represents(now: nat, y: real) {
    y == now as real || (Tracks(now, y, 2) && now >= 0x80_0000_0000_0000)
  }

  /** Zero, or a 53-bit significand, with the low bits a subnormal cannot hold clear. */
  predicate ProperFloat(x: Float) {
    x.m == 0 || (TWO52 <= x.m < TWO53 && x.e >= -1073 && (x.e < -1021 ==> x.m % Pow(2, -x.e - 1021) == 0))
  }

  /** The integer kept at precision prec: at most 2^prec, and with its leading bit in place when prec allows. */
  ghost predicate KeptBits(r: nat, prec: int) {
    && (prec < 0 ==> r == 0)
    && (prec >= 0 ==> r <= Pow(2, prec))
    && (prec >= 1 ==> r >= Pow(2, prec - 1))
  }

  lemma RoundedSize(v: nat, l: int, prec: int, rnd: Rnd, r: nat)
    requires v > 0 && l == BitLength(v) && prec <= 53
    requires l - prec <= 0 ==> r == v * Pow(2, -(l - prec))
    requires l - prec > 0 ==> RoundedQuotient(DirectionOfRnd(rnd), r, v as real, Pow(2, l - prec))
    ensures KeptBits(r, prec) && r <= TWO53
  {
    hide Pow, BitLength, RoundedQuotient;
    BitLengthBounds(v);
    var s := l - prec;
    if s <= 0 {
      PowAdd(2, l, -s);
      PowAdd(2, l - 1, -s);
      StrictMonotone(v, Pow(2, l), Pow(2, -s));
      Monotone(Pow(2, l - 1), v, Pow(2, -s));
    } else if prec >= 0 {
      PowAdd(2, prec, s);
      RoundedBelow(DirectionOfRnd(rnd), r, v, Pow(2, s), Pow(2, prec));
      if prec >= 1 {
        PowAdd(2, prec - 1, s);
        RoundedAbove(DirectionOfRnd(rnd), r, v, Pow(2, s), Pow(2, prec - 1));
      }
    } else {
      PowMonotone(2, l, s - 1);
      PowStep(2, s - 1);
      RoundedToZero(DirectionOfRnd(rnd), r, v, Pow(2, s));
    }
    if prec >= 0 {
      PowersOfTwo();
      PowMonotone(2, prec, 53);
    }
  }

  lemma RoundedNear(d: Direction, r: nat, v: nat, u: nat)
    requires u > 0 && RoundedQuotient(d, r, v as real, u)
    ensures r * u - u < v < r * u + u
  {
    PartsNear(d, r, v as real, r * u, u);
  }

  lemma PartsNear(d: Direction, r: int, y: real, ru: int, u: nat)
    requires u > 0 && RoundedParts(d, r, y, ru, u)
    ensures (ru - u) as real < y < (ru + u) as real
  {}

  lemma RoundedBelow(d: Direction, r: nat, v: nat, u: nat, t: nat)
    requires u > 0 && v <= t * u && RoundedQuotient(d, r, v as real, u)
    ensures r <= t
  {
    hide RoundedQuotient;
    RoundedNear(d, r, v, u);
    if r > t { StrictMonotone(t, r, u); }
  }

  lemma RoundedAbove(d: Direction, r: nat, v: nat, u: nat, t: nat)
    requires u > 0 && v >= t * u && RoundedQuotient(d, r, v as real, u)
    ensures r >= t
  {
    hide RoundedQuotient;
    RoundedNear(d, r, v, u);
    if r < t { StrictMonotone(r, t, u); }
  }

  lemma RoundedToZero(d: Direction, r: nat, v: nat, u: nat)
    requires u > 0 && 2 * v < u && d != Away && RoundedQuotient(d, r, v as real, u)
    ensures r == 0
  {
    if r > 0 { Positive(r, u); }
  }

  lemma ProperRounded(r: nat, e: int)
    requires KeptBits(r, Precision(e))
    ensures ProperFloat(Normalised(r, Precision(e), e))
  {
    hide Pow;
    var prec := Precision(e);
    PowersOfTwo();
    PowStep(2, 0);
    if prec >= 0 {
      var k := 53 - prec;
      PowAdd(2, prec, k);
      Monotone(r, Pow(2, prec), Pow(2, k));
      if prec >= 1 {
        PowAdd(2, prec - 1, k);
        Monotone(Pow(2, prec - 1), r, Pow(2, k));
      }
      DivUnique(r * Pow(2, k), Pow(2, k), r, 0);
      if e < -1022 {
        PowAdd(2, 52 - (k - 1), k - 1);
        DivUnique(TWO52, Pow(2, k - 1), Pow(2, 52 - (k - 1)), 0);
      }
    }
  }

  /** The exponent field, counted from zero, of a number with binary exponent e. */
  function Binade(e: int): nat { if e + 1021 < 0 then 0 else e + 1021 }

  lemma PatternNormalised(r: nat, e: int)
    requires KeptBits(r, Precision(e))
    ensures PatternOf(Normalised(r, Precision(e), e)) == Binade(e) * 0x10_0000_0000_0000 + r
  {
    hide Pow;
    var prec := Precision(e);
    PowersOfTwo();
    PowStep(2, 0);
    if e < -1021 {
      if prec >= 0 {
        SubnormalPattern(r, prec, e);
      }
    }
  }

  lemma SubnormalPattern(r: nat, prec: nat, e: int)
    requires e < -1021 && prec == 53 - (-1021 - e) && r <= Pow(2, prec)
    ensures PatternOf(Normalised(r, prec, e)) == r
  {
    hide Pow;
    PowersOfTwo();
    var k := 53 - prec;
    PowAdd(2, prec, k);
    Monotone(r, Pow(2, prec), Pow(2, k));
    if r < Pow(2, prec) {
      StrictMonotone(r, Pow(2, prec), Pow(2, k));
      DivUnique(r * Pow(2, k), Pow(2, k), r, 0);
    } else {
      PowStep(2, k - 1);
      PowStep(2, 0);
      HalvedTop(Pow(2, prec), Pow(2, k - 1));
      DivUnique(TWO52, Pow(2, k - 1), r, 0);
    }
  }

  lemma HalvedTop(p: nat, k: nat)
    requires p * (2 * k) == TWO53
    ensures p * k == TWO52
  {}

  lemma RoundedFloat(v: nat, y: real, eOffset: int, rnd: Rnd, r: nat, z: real)
    requires v > 0 && Represents(v, y) && z == y * Scale(2, 1074 - eOffset)
    requires var e := BitLength(v) - eOffset;
             var s := BitLength(v) - Precision(e);
             && (s <= 0 ==> r == v * Pow(2, -s))
             && (s > 0 ==> RoundedQuotient(DirectionOfRnd(rnd), r, v as real, Pow(2, s)))
    ensures var e := BitLength(v) - eOffset;
            RoundedTo(DirectionOfRnd(rnd), PatternOf(Normalised(r, Precision(e), e)), z)
  {
    hide Tracks, Pow, Scale, BitLength, RoundedQuotient, RoundedTo, KeptBits, Normalised, PatternOf;
    var l := BitLength(v);
    var e := l - eOffset;
    var prec := Precision(e);
    var s, d := l - prec, DirectionOfRnd(rnd);
    var w := y * Scale(2, -s);
    RepresentsBits(v, y);
    RoundedSize(v, l, prec, rnd, r);
    ShiftRounds(d, r, v, y, s, w);
    PatternNormalised(r, e);
    SignificandRange(v, y, s, prec, w);
    BinadeScale(y, s, e, eOffset, l, w, z);
    KeptLeading(r, prec);
    SignificandRounds(d, Binade(e), r, w, 1, z);
  }

  lemma KeptLeading(r: nat, prec: int)
    requires KeptBits(r, prec) && prec <= 53
    ensures prec == 53 ==> TWO52 <= r <= TWO53
  {
    hide Pow;
    PowersOfTwo();
  }

  lemma RepresentsBits(v: nat, y: real)
    requires v > 0 && Represents(v, y)
    ensures y == v as real || (Tracks(v, y, 2) && BitLength(v) >= 56)
  {
    hide Tracks, Pow, BitLength;
    if v >= 0x80_0000_0000_0000 {
      PowersOfTwo();
      PowStep(2, 54);
      BitLengthAtLeast(v, 55);
    }
  }

  lemma SignificandRange(v: nat, y: real, s: int, prec: int, w: real)
    requires v > 0 && (y == v as real || (Tracks(v, y, 2) && BitLength(v) >= 56)) && w == y * Scale(2, -s)
    requires prec <= 53 && s == BitLength(v) - prec
    ensures 0.0 <= w < 9007199254740992.0
    ensures prec == 53 ==> w >= 4503599627370496.0
  {
    hide *;
    var l: int := BitLength(v);
    RepresentedRange(v, y);
    ScaleAdd(2, l, -s);
    ScaleAdd(2, l - 1, -s);
    ScalePositive(2, -s);
    ScalePositive(2, prec - 1);
    RealOrder(y, Scale(2, l), Scale(2, -s));
    RealOrder(Scale(2, l - 1), y, Scale(2, -s));
    ScaleMonotone(2, prec, 53);
    SignificandScale();
    assert l + -s == prec && l - 1 + -s == prec - 1;
    assert w < Scale(2, prec);
    assert w >= Scale(2, prec - 1);
  }

  lemma SignificandScale()
    ensures Scale(2, 53) == 9007199254740992.0 && Scale(2, 52) == 4503599627370496.0
  {
    hide Pow;
    PowersOfTwo();
  }

  lemma RepresentedRange(v: nat, y: real)
    requires v > 0 && (y == v as real || (Tracks(v, y, 2) && BitLength(v) >= 56))
    ensures Scale(2, BitLength(v) - 1) <= y < Scale(2, BitLength(v))
  {
    hide Tracks, Pow, Scale, BitLength;
    var l := BitLength(v);
    BitLengthBounds(v);
    ScaleNat(2, l);
    ScaleNat(2, l - 1);
    if y != v as real {
      PowStep(2, l - 1);
      PowStep(2, l - 2);
      TracksCompare(v, y, 2, Pow(2, l - 1));
      TracksCompare(v, y, 2, Pow(2, l - 2));
    }
  }

  lemma BinadeScale(y: real, s: int, e: int, eOffset: int, l: int, w: real, z: real)
    requires e == l - eOffset && s == l - Precision(e)
    requires w == y * Scale(2, -s) && z == y * Scale(2, 1074 - eOffset)
    ensures z * 1.0 == w * Pow(2, Binade(e)) as real
  {
    hide Scale, Pow;
    ScaleNat(2, Binade(e));
    ScaleAdd(2, -s, Binade(e));
    RealAssoc(y, Scale(2, -s), Scale(2, Binade(e)));
  }

  // ---------- a * radix^f as a double ----------

  /** The value of a * radix^f in units of 2^-1074. */
  ghost function ExactDouble(v: nat, radix1: nat, radixShift: nat, f: int): real
    requires radix1 > 0
  {
    ExactScaled(v, radix1, radixShift, f, 1074)
  }

  /** (m, e) such that m * 2^(e - 53) = round(a * radix^f). */
  method MulPowRoundToD(a: Mpb, radix1: nat, radixShift: nat, f: int, rnd: Rnd) returns (x: Float)
    requires a.Valid() && a.Value() > 0 && OddRadix(radix1)
    requires ScaledLen(a.len, a.Value(), radix1, radixShift, f, false, 55) + 2 <= a.tab.Length
    modifies a`len, a.tab
    ensures ProperFloat(x)
    ensures RoundedTo(DirectionOfRnd(rnd), PatternOf(x), ExactDouble(old(a.Value()), radix1, radixShift, f))
  {
    hide Val, Base, Pow, Scale, Scaled, ExactScaled, DivisionShift, Tracks, RoundedTo, Represents, PatternOf;
    ghost var v := a.Value();
    var eOffset := MulPow(a, radix1, radixShift, f, false, 55);
    ghost var now := a.Value();
    ghost var y, z := ExactScaled(v, radix1, radixShift, f, eOffset), ExactDouble(v, radix1, radixShift, f);
    ScaledRepresents(v, radix1, radixShift, f, now, eOffset);
    OffsetShift(v, radix1, radixShift, f, eOffset, 1074);
    assert z == y * Scale(2, 1074 - eOffset);
    x := RoundToD(a, eOffset, rnd, y);
  }

  lemma ScaledRepresents(v: nat, radix1: nat, radixShift: nat, f: int, now: nat, eOffset: int)
    requires v > 0 && OddRadix(radix1) && Scaled(v, radix1, radixShift, f, false, 55, now, eOffset)
    ensures now > 0 && Represents(now, ExactScaled(v, radix1, radixShift, f, eOffset))
  {
    hide Pow, Tracks, ExactScaled, DivisionShift, StickyQuotient;
    ScaledTracks(v, radix1, radixShift, f, false, 55, now, eOffset);
    ScaledPositive(v, radix1, radixShift, f, false, 55, now, eOffset);
    if radix1 > 1 && f < 0 {
      QuotientLarge(v, radix1, radixShift, -f, 55);
      PowersOfTwo();
      PowStep(2, 54);
    }
  }
}
