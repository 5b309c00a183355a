/** The rounding and packing core of the software floating point library, at 64 bits. */
module SoftFloat {
  import opened Arith
  import opened Powers
  import opened Tracking
  import opened Rounding
  import opened Binary64
  import opened Bits

  const TWO62: nat := 0x4000_0000_0000_0000
  const TWO64: nat := 0x1_0000_0000_0000_0000

  predicate Negative(a: nat) { a >= TWO63 }

  function Magnitude(a: nat): nat { if a >= TWO63 then a - TWO63 else a }

  predicate IsBits(a: nat) { a < TWO64 }

  predicate IsFinite(a: nat) { IsBits(a) && Magnitude(a) < INF }

  function ExponentField(p: nat): nat { p / 0x10_0000_0000_0000 }

  function MantissaField(p: nat): nat { p % 0x10_0000_0000_0000 }

  /** The exact value of a finite double, in units of 2^-1074. */
  function Value(a: nat): int { if Negative(a) then 0 - Mag(Magnitude(a)) else Mag(Magnitude(a)) }

  function Abs(v: int): nat { if v < 0 then -v else v }

  function Pack(negative: bool, exp: nat, mant: nat): nat {
    (if negative then TWO63 else 0) + exp * 0x10_0000_0000_0000 + mant % 0x10_0000_0000_0000
  }

  /** Right shift oring what is lost into bit 0; a shift by the word size or more keeps only that bit. */
  function RshiftRnd(a: nat, d: nat): nat {
    if d == 0 then a
    else if d >= 64 then if a != 0 then 1 else 0
    else Jam(a / Pow(2, d), a % Pow(2, d) != 0)
  }

  function Addend(rm: RoundingMode, negative: bool): nat {
    match rm
    case RNE => 0x200
    case RMM => 0x200
    case RTZ => 0
    case RDN => if negative then 0x3FF else 0
    case RUP => if negative then 0 else 0x3FF
  }

  /** The ten low bits are rounded away. */
  function RoundMantissa(m: nat, rm: RoundingMode, negative: bool): nat {
    var r := (m + Addend(rm, negative)) / 1024;
    if rm == RNE && m % 1024 == 0x200 then r - r % 2 else r
  }

  /** mant has its most significant bit at position 62, unless it is zero. */
  function RoundPack(negative: bool, exp: int, mant: nat, rm: RoundingMode): nat {
    var m := if exp <= 0 then RshiftRnd(mant, 1 - exp) else mant;
    var r := RoundMantissa(m, rm, negative);
    var e := (if exp <= 0 then 1 else exp) + r / 0x20_0000_0000_0000;
    if r < TWO52 then Pack(negative, 0, r)
    else if e >= 0x7FF then
      if Addend(rm, negative) == 0 then Pack(negative, 0x7FE, 0xF_FFFF_FFFF_FFFF) else Pack(negative, 0x7FF, 0)
    else Pack(negative, e, r)
  }

  lemma LeadingZeros(a: nat)
    requires a < TWO63
    ensures BitLength(a) <= 63
  {
    hide Pow, BitLength;
    PowersOfTwo();
    BitLengthAtMost(a, 63);
  }

  /** clz0 is whatever the count-leading-zeros builtin returns for zero, where it is unspecified. */
  function Normalize(negative: bool, exp: int, mant: nat, rm: RoundingMode, clz0: int): nat
    requires mant < TWO63
  {
    if mant == 0 then RoundPack(negative, exp - (clz0 - 1), 0, rm)
    else
      LeadingZeros(mant);
      var shift := 63 - BitLength(mant);
      RoundPack(negative, exp - shift, mant * Pow(2, shift), rm)
  }

  // ---------- correctness ----------

  lemma MantissaRounded(m: nat, rm: RoundingMode, negative: bool)
    ensures RoundedQuotient(DirectionOf(rm, negative), RoundMantissa(m, rm, negative), m as real, 1024)
  {}

  lemma RoundMantissaCorrect(m: nat, y: real, rm: RoundingMode, negative: bool)
    requires Tracks(m, y, 512)
    ensures RoundedQuotient(DirectionOf(rm, negative), RoundMantissa(m, rm, negative), y, 1024)
  {
    hide Tracks;
    var r := RoundMantissa(m, rm, negative);
    TrackedRoundsAlike(DirectionOf(rm, negative), r, m, y, 512);
    MantissaRounded(m, rm, negative);
  }

  /** rshift_rnd divides, as far as the multiples of an even number can tell. */
  lemma RshiftRndTracks(a: nat, y: real, d: nat, z: real, c: nat)
    requires a < TWO64 && c > 0 && Tracks(a, y, 2 * c) && z * Pow(2, d) as real == y
    ensures Tracks(RshiftRnd(a, d), z, 2 * c)
  {
    hide Tracks, Pow;
    PowStep(2, d);
    TracksShiftRight(a, y, Pow(2, d), z, c);
    if d >= 64 {
      PowersOfTwo();
      PowMonotone(2, 64, d);
      DivUnique(a, Pow(2, d), 0, a);
    }
  }

  lemma RshiftRndBound(a: nat, d: nat)
    requires a < TWO63 && d > 0
    ensures RshiftRnd(a, d) <= TWO62
  {
    hide Pow;
    PowStep(2, d - 1);
    var h := Pow(2, d);
    DivMod(a, h);
    if a / h >= TWO62 {
      Monotone(TWO62, a / h, h);
      Monotone(2, h, TWO62);
    }
  }

  /** A tracked 63-bit mantissa with its exponent, rounded: the pattern and its two bounds. */
  lemma MantissaRounds(negative: bool, e: nat, m: nat, rm: RoundingMode, y: real, x: real)
    requires m < TWO63 && (e > 0 ==> m >= TWO62) && Tracks(m, y, 512)
    requires x * 1024.0 == y * Pow(2, e) as real
    ensures var r := RoundMantissa(m, rm, negative);
            && r <= TWO53 && (e > 0 ==> r >= TWO52)
            && RoundedTo(DirectionOf(rm, negative), e * 0x10_0000_0000_0000 + r, x)
  {
    var r := RoundMantissa(m, rm, negative);
    MantissaSize(m, rm, negative);
    hide *;
    RoundMantissaCorrect(m, y, rm, negative);
    TracksCompare(m, y, 512, 0);
    TracksCompare(m, y, 512, 0x20_0000_0000_0000);
    TracksCompare(m, y, 512, 0x40_0000_0000_0000);
    SignificandRounds(DirectionOf(rm, negative), e, r, y, 1024, x);
  }

  lemma MantissaSize(m: nat, rm: RoundingMode, negative: bool)
    requires m < TWO63
    ensures RoundMantissa(m, rm, negative) <= TWO53
    ensures m >= TWO62 ==> RoundMantissa(m, rm, negative) >= TWO52
  {}

  lemma PackedPattern(negative: bool, e: nat, r: nat, rm: RoundingMode)
    requires r <= TWO53 && (e > 0 ==> r >= TWO52)
    ensures var p := e * 0x10_0000_0000_0000 + r;
            var d := DirectionOf(rm, negative);
            var q := if p < INF then p else if d == Toward then INF - 1 else INF;
            var b := e + 1 + r / 0x20_0000_0000_0000;
            (if r < TWO52 then Pack(negative, 0, r)
             else if b >= 0x7FF then
               if Addend(rm, negative) == 0 then Pack(negative, 0x7FE, 0xF_FFFF_FFFF_FFFF) else Pack(negative, 0x7FF, 0)
             else Pack(negative, b, r)) == (if negative then TWO63 else 0) + q
  {}

  ghost predicate IsRoundedResult(bits: nat, rm: RoundingMode, negative: bool, x: real) {
    IsBits(bits) && Negative(bits) == negative && CorrectlyRounded(rm, negative, Magnitude(bits), x)
  }

  /** Rounding and packing a normalised mantissa, subnormal results and overflow included. */
  lemma RoundPackCorrect(negative: bool, exp: int, mant: nat, rm: RoundingMode, y: real, x: real)
    requires TWO62 <= mant < TWO63 && Tracks(mant, y, 512)
    requires x == y * Scale(2, exp - 11)
    ensures IsRoundedResult(RoundPack(negative, exp, mant, rm), rm, negative, x)
  {
    hide Tracks, Pow, Scale, RoundMantissa, RoundedTo, Rounded, Pack, Addend, Mag, RshiftRnd;
    var e := if exp <= 0 then 0 else exp - 1;
    var m := if exp <= 0 then RshiftRnd(mant, 1 - exp) else mant;
    var z := ShiftedMantissa(exp, mant, y, x);
    MantissaRounds(negative, e, m, rm, z, x);
    var r := RoundMantissa(m, rm, negative);
    PackedPattern(negative, e, r, rm);
    ClampRounded(DirectionOf(rm, negative), e * 0x10_0000_0000_0000 + r, x);
  }

  lemma ShiftedMantissa(exp: int, mant: nat, y: real, x: real) returns (z: real)
    requires mant < TWO63 && Tracks(mant, y, 512) && x == y * Scale(2, exp - 11)
    ensures var m := if exp <= 0 then RshiftRnd(mant, 1 - exp) else mant;
            m < TWO63 && Tracks(m, z, 512)
    ensures x * 1024.0 == z * Pow(2, if exp <= 0 then 0 else exp - 1) as real
  {
    hide Tracks, Pow, Scale, RshiftRnd;
    ScaleAdd(2, exp - 11, 10);
    ScaleNat(2, 10);
    PowersOfTwo();
    RealAssoc(y, Scale(2, exp - 11), 1024.0);
    assert x * 1024.0 == y * Scale(2, exp - 1);
    if exp <= 0 {
      var d := 1 - exp;
      ScaleInverse(2, d);
      ScaleNat(2, d);
      PowStep(2, 0);
      z := y * Scale(2, -d);
      RealAssoc(y, Scale(2, -d), Pow(2, d) as real);
      RshiftRndTracks(mant, y, d, z, 256);
      RshiftRndBound(mant, d);
    } else {
      z := y;
      ScaleNat(2, exp - 1);
    }
  }

  // ---------- normalisation ----------

  lemma NormalShift(mant: nat) returns (s: nat)
    requires 0 < mant < TWO63
    ensures s == 63 - BitLength(mant)
    ensures TWO62 <= mant * Pow(2, s) < TWO63
    ensures mant >= 0x40_0000_0000_0000 ==> s <= 8
  {
    hide Pow, BitLength;
    PowersOfTwo();
    var l := BitLength(mant);
    BitLengthBounds(mant);
    BitLengthAtMost(mant, 63);
    s := 63 - l;
    PowAdd(2, l - 1, s);
    PowAdd(2, l, s);
    PowStep(2, s);
    Monotone(Pow(2, l - 1), mant, Pow(2, s));
    StrictMonotone(mant, Pow(2, l), Pow(2, s));
    if mant >= 0x40_0000_0000_0000 {
      BitLengthAtLeast(mant, 54);
    }
  }

  /** At least two bits are still to be rounded away after a shift by up to eight. */
  lemma ShiftedTracks(mant: nat, y: real, s: nat)
    requires Tracks(mant, y, 2) && s <= 8
    ensures Tracks(mant * Pow(2, s), y * Pow(2, s) as real, 512)
  {
    hide *;
    PowAdd(2, s, 8 - s);
    SmallPowersOfTwo();
    ScaledTo512(mant, y, Pow(2, s), Pow(2, 8 - s));
  }

  lemma ScaledTo512(mant: nat, y: real, f: nat, c: nat)
    requires Tracks(mant, y, 2) && f * c == 256
    ensures Tracks(mant * f, y * f as real, 512)
  {
    hide *;
    TracksScaled(mant, y, 2, f);
    TracksCoarser(mant * f, y * f as real, 2 * f, c, 512);
  }

  lemma ScaleShift(y: real, k: int, s: nat)
    ensures y * Scale(2, k) == (y * Pow(2, s) as real) * Scale(2, k - s)
  {
    hide *;
    ScaleAdd(2, s, k - s);
    ScaleNat(2, s);
    RealAssoc(y, Scale(2, s), Scale(2, k - s));
  }

  lemma NormalizeCorrect(negative: bool, exp: int, mant: nat, rm: RoundingMode, clz0: int, y: real, x: real)
    requires 0 < mant < TWO63 && x == y * Scale(2, exp - 11)
    requires y == mant as real || (Tracks(mant, y, 2) && mant >= 0x40_0000_0000_0000)
    ensures IsRoundedResult(Normalize(negative, exp, mant, rm, clz0), rm, negative, x)
  {
    hide Tracks, Pow, Scale, BitLength, IsRoundedResult, RoundPack;
    var s := NormalShift(mant);
    ShiftedExact(mant, y, s);
    ScaleShift(y, exp - 11, s);
    RoundPackCorrect(negative, exp - s, mant * Pow(2, s), rm, y * Pow(2, s) as real, x);
  }

  lemma ShiftedExact(mant: nat, y: real, s: nat)
    requires y == mant as real || (Tracks(mant, y, 2) && s <= 8)
    ensures Tracks(mant * Pow(2, s), y * Pow(2, s) as real, 512)
  {
    hide *;
    if y == mant as real {
      TracksExact(mant * Pow(2, s), 512);
      assert (mant * Pow(2, s)) as real == mant as real * Pow(2, s) as real;
    } else {
      ShiftedTracks(mant, y, s);
    }
  }

  /** A zero mantissa gives a zero, whatever clz returned for it. */
  lemma NormalizeZero(negative: bool, exp: int, rm: RoundingMode, clz0: int)
    ensures Normalize(negative, exp, 0, rm, clz0) == if negative then TWO63 else 0
    ensures IsRoundedResult(Normalize(negative, exp, 0, rm, clz0), rm, negative, 0.0)
  {
    assert forall d: nat :: RshiftRnd(0, d) == 0;
    ExactRounds(DirectionOf(rm, negative), 0);
  }
}
