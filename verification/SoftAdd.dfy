/** Addition and subtraction: correctly rounded in every mode. */
module SoftAdd {
  import opened Arith
  import opened Powers
  import opened Tracking
  import opened Rounding
  import opened Binary64
  import opened SoftFloat

  /** The exponent of a finite magnitude, subnormals counted as exponent one. */
  function EffectiveExponent(p: nat): nat { if ExponentField(p) == 0 then 1 else ExponentField(p) }

  /** The significand with its hidden bit and three guard bits below. */
  function GuardedMantissa(p: nat): (m: nat)
    ensures m < 0x100_0000_0000_0000
  {
    MantissaField(p) * 8 + if ExponentField(p) == 0 then 0 else 0x80_0000_0000_0000
  }

  /** |a| >= |b|, both finite: b's guarded significand moved under a's. */
  function Aligned(p: nat, q: nat): (m: nat)
    requires q <= p
    ensures m <= GuardedMantissa(p)
  {
    var d := EffectiveExponent(p) - EffectiveExponent(q);
    AlignedBound(p, q);
    RshiftRnd(GuardedMantissa(q), d)
  }

  lemma AlignedBound(p: nat, q: nat)
    requires q <= p
    ensures EffectiveExponent(p) >= EffectiveExponent(q)
    ensures RshiftRnd(GuardedMantissa(q), EffectiveExponent(p) - EffectiveExponent(q)) <= GuardedMantissa(p)
  {
    hide Pow;
    DivMod(p, 0x10_0000_0000_0000);
    DivMod(q, 0x10_0000_0000_0000);
    var d := EffectiveExponent(p) - EffectiveExponent(q);
    if d > 0 {
      var m, f := GuardedMantissa(q), Pow(2, d);
      PowStep(2, d - 1);
      HalfBound(m, f);
    }
  }

  lemma HalfBound(m: nat, f: nat)
    requires f >= 2 && m < 0x100_0000_0000_0000
    ensures m / f < 0x80_0000_0000_0000
  {
    DivMod(m, f);
    Monotone(2, f, m / f);
  }

  /** |a| >= |b|. */
  function AddOrdered(a: nat, b: nat, rm: RoundingMode, clz0: int): nat
    requires IsBits(a) && IsBits(b) && Magnitude(b) <= Magnitude(a)
  {
    var p, q := Magnitude(a), Magnitude(b);
    if ExponentField(p) == 0x7FF then
      if MantissaField(p) * 8 != 0 then QNAN
      else if ExponentField(q) == 0x7FF && Negative(a) != Negative(b) then QNAN
      else a
    else
      var am, bm, exp := GuardedMantissa(p), Aligned(p, q), EffectiveExponent(p) + 7;
      if Negative(a) == Negative(b) then Normalize(Negative(a), exp, am + bm, rm, clz0)
      else
        var negative := if am - bm == 0 then rm == RDN else Negative(a);
        Normalize(negative, exp, am - bm, rm, clz0)
  }

  function AddSf(a: nat, b: nat, rm: RoundingMode, clz0: int): nat
    requires IsBits(a) && IsBits(b)
  {
    if Magnitude(a) < Magnitude(b) then AddOrdered(b, a, rm, clz0) else AddOrdered(a, b, rm, clz0)
  }

  function FlipSign(b: nat): nat
    requires IsBits(b)
  {
    if Negative(b) then b - TWO63 else b + TWO63
  }

  function SubSf(a: nat, b: nat, rm: RoundingMode, clz0: int): nat
    requires IsBits(a) && IsBits(b)
  {
    AddSf(a, FlipSign(b), rm, clz0)
  }

  // ---------- correctness ----------

  lemma GuardedValue(p: nat) returns (e: nat, r: nat)
    ensures e == EffectiveExponent(p) - 1 && GuardedMantissa(p) == 8 * r && r < TWO53
    ensures e > 0 ==> r >= TWO52
    ensures Mag(p) == r * Pow(2, e)
  {
    hide Mag, Pow;
    e, r := EffectiveExponent(p) - 1, GuardedMantissa(p) / 8;
    DivMod(p, 0x10_0000_0000_0000);
    MagForm(e, r);
  }

  /** What alignment by d bits keeps of the smaller operand: everything if d <= 3, its place among the even numbers always. */
  lemma AlignedTracks(r: nat, d: nat) returns (y: real)
    requires r < TWO53
    ensures y * Pow(2, d) as real == (8 * r) as real
    ensures Tracks(RshiftRnd(8 * r, d), y, 2)
    ensures d <= 3 ==> y == RshiftRnd(8 * r, d) as real
    ensures d >= 4 ==> RshiftRnd(8 * r, d) <= 0x10_0000_0000_0000
  {
    hide Tracks, Pow, RshiftRnd;
    var f := Pow(2, d);
    y := (8 * r) as real / f as real;
    TracksExact(8 * r, 2);
    RshiftRndTracks(8 * r, (8 * r) as real, d, y, 1);
    if d <= 3 {
      ExactShift(r, d, y);
    } else {
      SixteenIsPower();
      PowMonotone(2, 4, d);
      SixteenthBound(8 * r, d);
    }
  }

  /** The guard bits absorb a shift by up to three. */
  lemma ExactShift(r: nat, d: nat, y: real)
    requires d <= 3 && y * Pow(2, d) as real == (8 * r) as real
    ensures y == RshiftRnd(8 * r, d) as real
  {
    hide Pow;
    EightIsPower();
    if d == 1 {
      DivUnique(8 * r, 2, 4 * r, 0);
    } else if d == 2 {
      DivUnique(8 * r, 4, 2 * r, 0);
    } else if d == 3 {
      DivUnique(8 * r, 8, r, 0);
    }
  }

  lemma EightIsPower()
    ensures Pow(2, 0) == 1 && Pow(2, 1) == 2 && Pow(2, 2) == 4 && Pow(2, 3) == 8
  {}

  lemma SixteenIsPower()
    ensures Pow(2, 4) == 16
  {}

  lemma SixteenthBound(m: nat, d: nat)
    requires Pow(2, d) >= 16 && m < 0x100_0000_0000_0000
    ensures RshiftRnd(m, d) <= 0x10_0000_0000_0000
  {
    hide Pow;
    PowStep(2, d);
    var f := Pow(2, d);
    DivMod(m, f);
    Monotone(16, f, m / f);
  }

  /** x = y * 2^(e - 3) is the exact sum or difference of the two magnitudes. */
  lemma ExactSum(r: nat, t: nat, e: nat, d: nat, y: real)
    requires d <= e && y * Pow(2, d) as real == (8 * t) as real
    ensures ((8 * r) as real + y) * Scale(2, e - 3) == (r * Pow(2, e) + t * Pow(2, e - d)) as real
    ensures ((8 * r) as real - y) * Scale(2, e - 3) == (r * Pow(2, e) - t * Pow(2, e - d)) as real
  {
    hide *;
    var s := Scale(2, e - 3);
    EighthScale(r, e);
    PowAdd(2, d, e - d);
    EighthScale(t, e - d);
    ScaleAdd(2, e - d - 3, d);
    ScaleNat(2, d);
    assert y * s == (t * Pow(2, e - d)) as real by {
      MoveScale(y, s, Scale(2, e - d - 3), Pow(2, d) as real, (8 * t) as real);
    }
    RealDistribute((8 * r) as real, y, s);
  }

  lemma MoveScale(y: real, s: real, u: real, p: real, m: real)
    requires s == u * p && y * p == m
    ensures y * s == m * u
  {
    RealAssoc(y, p, u);
    assert u * p == p * u;
  }

  lemma EighthScale(r: nat, e: nat)
    ensures (8 * r) as real * Scale(2, e - 3) == (r * Pow(2, e)) as real
  {
    hide *;
    EightIsPower();
    ScaleAdd(2, 3, e - 3);
    ScaleNat(2, 3);
    ScaleNat(2, e);
    RealAssoc(r as real, 8.0, Scale(2, e - 3));
    assert (8 * r) as real == r as real * 8.0;
    assert (r * Pow(2, e)) as real == r as real * Pow(2, e) as real;
  }

  ghost predicate SignedResult(bits: nat, rm: RoundingMode, ifZero: bool, v: int) {
    IsRoundedResult(bits, rm, if v == 0 then ifZero else v < 0, Abs(v) as real)
  }

  /** The sign of an exact zero sum: IEEE 754 section 6.3. */
  function ZeroSumSign(a: nat, b: nat, rm: RoundingMode): bool {
    if Negative(a) == Negative(b) then Negative(a) else rm == RDN
  }

  /** Sum and difference of the aligned significands, with the exact y they stand for. */
  ghost predicate Stands(m: int, y: real, e: int, v: int) {
    && 0 <= m < TWO63 && Tracks(m, y, 2)
    && y * Scale(2, e) == v as real
    && (y == m as real || m >= 0x40_0000_0000_0000)
  }

  lemma AlignedSums(p: nat, q: nat) returns (y: real)
    requires q <= p
    ensures Stands(GuardedMantissa(p) + Aligned(p, q), GuardedMantissa(p) as real + y,
                   EffectiveExponent(p) - 4, Mag(p) + Mag(q))
    ensures Stands(GuardedMantissa(p) - Aligned(p, q), GuardedMantissa(p) as real - y,
                   EffectiveExponent(p) - 4, Mag(p) - Mag(q))
  {
    hide *;
    AlignedIs(p, q);
    var e, r := GuardedValue(p);
    var f, t := GuardedValue(q);
    y := AlignedTracks(t, e - f);
    StandsSums(r, t, e, e - f, Aligned(p, q), y, Mag(p), Mag(q));
  }

  lemma AlignedIs(p: nat, q: nat)
    requires q <= p
    ensures EffectiveExponent(p) >= EffectiveExponent(q)
    ensures Aligned(p, q) == RshiftRnd(GuardedMantissa(q), EffectiveExponent(p) - EffectiveExponent(q))
  {
    AlignedBound(p, q);
  }

  lemma StandsSums(r: nat, t: nat, e: nat, d: nat, m: nat, y: real, vp: nat, vq: nat)
    requires r < TWO53 && t < TWO53 && d <= e && (e > 0 ==> r >= TWO52) && m <= 8 * r
    requires y * Pow(2, d) as real == (8 * t) as real && Tracks(m, y, 2)
    requires (d <= 3 && y == m as real) || (d >= 4 && m <= 0x10_0000_0000_0000)
    requires vp == r * Pow(2, e) && vq == t * Pow(2, e - d)
    ensures Stands(8 * r + m, (8 * r) as real + y, e - 3, vp + vq)
    ensures Stands(8 * r - m, (8 * r) as real - y, e - 3, vp - vq)
  {
    hide Pow, Scale, Tracks;
    TracksShifted(m, y, 2, 4 * r);
    ExactSum(r, t, e, d, y);
  }

  lemma StandsCorrect(m: nat, y: real, e: int, v: int, rm: RoundingMode, clz0: int, negative: bool)
    requires Stands(m, y, e, v)
    ensures v >= 0 && (m == 0 <==> v == 0)
    ensures IsRoundedResult(Normalize(negative, e + 11, m, rm, clz0), rm, negative, v as real)
  {
    hide Normalize, IsRoundedResult, Scale;
    TracksCompare(m, y, 2, 0);
    ScalePositive(2, e);
    RealOrder(0.0, y, Scale(2, e));
    if m == 0 {
      NormalizeZero(negative, e + 11, rm, clz0);
    } else {
      NormalizeCorrect(negative, e + 11, m, rm, clz0, y, v as real);
    }
  }

  lemma AddOrderedCorrect(a: nat, b: nat, rm: RoundingMode, clz0: int)
    requires IsFinite(a) && IsFinite(b) && Magnitude(b) <= Magnitude(a)
    ensures SignedResult(AddOrdered(a, b, rm, clz0), rm, ZeroSumSign(a, b, rm), Value(a) + Value(b))
  {
    hide Mag, Stands, Normalize, IsRoundedResult, GuardedMantissa, EffectiveExponent, Aligned;
    var p, q := Magnitude(a), Magnitude(b);
    var y := AlignedSums(p, q);
    var am, bm, e := GuardedMantissa(p), Aligned(p, q), EffectiveExponent(p) - 4;
    if Negative(a) == Negative(b) {
      StandsCorrect(am + bm, am as real + y, e, Mag(p) + Mag(q), rm, clz0, Negative(a));
    } else {
      var negative := if am - bm == 0 then rm == RDN else Negative(a);
      StandsCorrect(am - bm, am as real - y, e, Mag(p) - Mag(q), rm, clz0, negative);
    }
  }

  /** Addition of finite doubles, subnormal results, cancellation and overflow included. */
  lemma AddCorrect(a: nat, b: nat, rm: RoundingMode, clz0: int)
    requires IsFinite(a) && IsFinite(b)
    ensures SignedResult(AddSf(a, b, rm, clz0), rm, ZeroSumSign(a, b, rm), Value(a) + Value(b))
  {
    if Magnitude(a) < Magnitude(b) {
      AddOrderedCorrect(b, a, rm, clz0);
    } else {
      AddOrderedCorrect(a, b, rm, clz0);
    }
  }

  /** NaN and infinite operands: IEEE 754 sections 6.1, 6.2 and 7.2. */
  lemma AddSpecial(a: nat, b: nat, rm: RoundingMode, clz0: int)
    requires IsBits(a) && IsBits(b) && !(IsFinite(a) && IsFinite(b))
    ensures var p, q := Magnitude(a), Magnitude(b);
            AddSf(a, b, rm, clz0) ==
            if p > INF || q > INF || (p == INF && q == INF && Negative(a) != Negative(b)) then QNAN
            else if p == INF then a else b
  {}

  /** Subtraction: the sum with the second sign flipped. */
  lemma SubCorrect(a: nat, b: nat, rm: RoundingMode, clz0: int)
    requires IsFinite(a) && IsFinite(b)
    ensures SignedResult(SubSf(a, b, rm, clz0), rm, ZeroSumSign(a, FlipSign(b), rm), Value(a) - Value(b))
  {
    hide Mag, AddSf, SignedResult;
    AddCorrect(a, FlipSign(b), rm, clz0);
  }
}
