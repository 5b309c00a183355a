/** Operands with the hidden bit in place, the half-word product, and correctly rounded multiplication. */
module SoftMul {
  import opened Arith
  import opened Powers
  import opened Tracking
  import opened Rounding
  import opened Binary64
  import opened Bits
  import opened SoftFloat

  datatype Operand = Operand(exp: int, mant: nat)

  predicate IsNan(p: nat) { ExponentField(p) == 0x7FF && MantissaField(p) != 0 }

  /** A nonzero finite magnitude with its significand brought to 53 bits. */
  function NormalOperand(p: nat): Operand
    requires 0 < p < INF
  {
    if ExponentField(p) == 0 then
      SubnormalBits(p);
      var shift := 53 - BitLength(MantissaField(p));
      Operand(1 - shift, MantissaField(p) * Pow(2, shift))
    else Operand(ExponentField(p), MantissaField(p) + TWO52)
  }

  lemma SubnormalBits(p: nat)
    requires 0 < p < TWO52
    ensures MantissaField(p) == p && BitLength(p) <= 52
  {
    hide Pow, BitLength;
    PowersOfTwo();
    BitLengthAtMost(p, 52);
  }

  lemma NormalOperandValue(p: nat)
    requires 0 < p < INF
    ensures var o := NormalOperand(p);
            TWO52 <= o.mant < TWO53 && Mag(p) as real == o.mant as real * Scale(2, o.exp - 1)
  {
    hide Pow, BitLength, Scale, Mag;
    DivMod(p, 0x10_0000_0000_0000);
    if ExponentField(p) == 0 {
      SubnormalBits(p);
      SubnormalValue(p);
    } else {
      MagFields(ExponentField(p), MantissaField(p));
      ScaleNat(2, ExponentField(p) - 1);
    }
  }

  lemma SubnormalValue(p: nat)
    requires 0 < p < TWO52 && BitLength(p) <= 52
    ensures var s := 53 - BitLength(p);
            TWO52 <= p * Pow(2, s) < TWO53 && Mag(p) as real == (p * Pow(2, s)) as real * Scale(2, -s)
  {
    hide Pow, BitLength, Scale, Mag;
    var l, s := BitLength(p), 53 - BitLength(p);
    var f := Pow(2, s);
    MagFields(0, p);
    PowersOfTwo();
    BitLengthBounds(p);
    PowAdd(2, l - 1, s);
    PowAdd(2, l, s);
    Monotone(Pow(2, l - 1), p, f);
    StrictMonotone(p, Pow(2, l), f);
    ScaleInverse(2, s);
    ScaleNat(2, s);
    UnscaleNat(p, f, Scale(2, -s));
  }

  lemma UnscaleNat(p: nat, f: nat, u: real)
    requires f as real * u == 1.0
    ensures (p * f) as real * u == p as real
  {
    assert (p * f) as real == p as real * f as real;
    RealAssoc(p as real, f as real, u);
  }

  // ---------- the double-word product ----------

  datatype Wide = Wide(hi: nat, lo: nat)

  /** mul_u on half words: four partial products. */
  function MulU(a: nat, b: nat): Wide
    requires IsBits(a) && IsBits(b)
  {
    var a0, a1, b0, b1 := a % 0x1_0000_0000, a / 0x1_0000_0000, b % 0x1_0000_0000, b / 0x1_0000_0000;
    AddPartials(a0 * b0, a0 * b1, a1 * b0, a1 * b1)
  }

  /** Their sum, with carries kept in 32 bits where the code keeps them. */
  function AddPartials(r00: nat, r01: nat, r10: nat, r11: nat): Wide {
    var h := 0x1_0000_0000;
    var c := r00 / h + r01 % h + r10 % h;
    var c' := c / h + r01 / h + r10 / h + r11 % h;
    var r3 := (c' / h + r11 / h) % h;
    Wide(r3 * h + c' % h, (c % h) * h + r00 % h)
  }

  lemma PartialProducts(a0: nat, a1: nat, b0: nat, b1: nat)
    ensures (a1 * 0x1_0000_0000 + a0) * (b1 * 0x1_0000_0000 + b0)
            == a1 * b1 * 0x1_0000_0000_0000_0000 + (a0 * b1 + a1 * b0) * 0x1_0000_0000 + a0 * b0
  {
    var h := 0x1_0000_0000;
    var y := b1 * h + b0;
    Distribute(a1 * h, a0, y);
    Distribute(b1 * h, b0, a1);
    Distribute(b1 * h, b0, a0);
  }

  lemma ProductBelow(a: nat, b: nat, m: nat, n: nat)
    requires a < m && b < n
    ensures a * b < m * n
  {
    Monotone(a, m, b);
    StrictMonotone(b, n, m);
  }

  lemma MulUExact(a: nat, b: nat)
    requires IsBits(a) && IsBits(b)
    ensures var w := MulU(a, b);
            w.hi * 0x1_0000_0000_0000_0000 + w.lo == a * b && IsBits(w.hi) && IsBits(w.lo)
  {
    hide AddPartials;
    var a0, a1, b0, b1 := a % 0x1_0000_0000, a / 0x1_0000_0000, b % 0x1_0000_0000, b / 0x1_0000_0000;
    PartialProducts(a0, a1, b0, b1);
    ProductBelow(a, b, 0x1_0000_0000_0000_0000, 0x1_0000_0000_0000_0000);
    Carries(a0 * b0, a0 * b1, a1 * b0, a1 * b1, a * b);
  }

  lemma Carries(r00: nat, r01: nat, r10: nat, r11: nat, ab: nat)
    requires ab == r11 * 0x1_0000_0000_0000_0000 + (r01 + r10) * 0x1_0000_0000 + r00
    requires ab < 0x1_0000_0000_0000_0000_0000_0000_0000_0000
    ensures var w := AddPartials(r00, r01, r10, r11);
            w.hi * 0x1_0000_0000_0000_0000 + w.lo == ab && IsBits(w.hi) && IsBits(w.lo)
  {
    var h := 0x1_0000_0000;
    var p, p0 := Cell(r00, h);
    var q, q0 := Cell(r01, h);
    var s, s0 := Cell(r10, h);
    var v, v0 := Cell(r11, h);
    var c, c0 := Cell(p + q0 + s0, h);
    var d, d0 := Cell(c + q + s + v0, h);
    DivUnique(r00, h, p, p0);
    DivUnique(r01, h, q, q0);
    DivUnique(r10, h, s, s0);
    DivUnique(r11, h, v, v0);
    DivUnique(p + q0 + s0, h, c, c0);
    DivUnique(c + q + s + v0, h, d, d0);
    TopBelow(d + v, d0, c0, p0, ab);
    DivUnique(d + v, h, 0, d + v);
  }

  lemma TopBelow(t: nat, d0: nat, c0: nat, p0: nat, ab: nat)
    requires ab == (t * 0x1_0000_0000 + d0) * 0x1_0000_0000_0000_0000 + c0 * 0x1_0000_0000 + p0
    requires ab < 0x1_0000_0000_0000_0000_0000_0000_0000_0000
    ensures t < 0x1_0000_0000
  {}

  // ---------- multiplication ----------

  function MulSf(a: nat, b: nat, rm: RoundingMode, clz0: int): nat
    requires IsBits(a) && IsBits(b)
  {
    var p, q, negative := Magnitude(a), Magnitude(b), Negative(a) != Negative(b);
    if ExponentField(p) == 0x7FF || ExponentField(q) == 0x7FF then
      if IsNan(p) || IsNan(q) then QNAN
      else if q == 0 || p == 0 then QNAN
      else Pack(negative, 0x7FF, 0)
    else if p == 0 then Pack(negative, 0, 0)
    else if q == 0 then Pack(negative, 0, 0)
    else
      var o, u := NormalOperand(p), NormalOperand(q);
      NormalOperandValue(p);
      NormalOperandValue(q);
      Normalize(negative, o.exp + u.exp - 1024 + 2, JammedProduct(o.mant, u.mant), rm, clz0)
  }

  /** The high word of the shifted product, with the low word in its sticky bit. */
  function JammedProduct(m: nat, n: nat): (r: nat)
    requires TWO52 <= m < TWO53 && TWO52 <= n < TWO53
    ensures 0x2000_0000_0000_0000 <= r < TWO63
  {
    ProductRange(m, n);
    var w := MulU(m * 0x400, n * 0x800);
    Jam(w.hi, w.lo != 0)
  }

  lemma MantissaProduct(m: nat, n: nat)
    requires TWO52 <= m < TWO53 && TWO52 <= n < TWO53
    ensures 0x100_0000_0000_0000_0000_0000_0000 <= m * n < 0x400_0000_0000_0000_0000_0000_0000
  {
    ProductBelow(m, n, 0x20_0000_0000_0000, 0x20_0000_0000_0000);
    Monotone(0x10_0000_0000_0000, m, n);
  }

  lemma ProductRange(m: nat, n: nat)
    requires TWO52 <= m < TWO53 && TWO52 <= n < TWO53
    ensures var w := MulU(m * 0x400, n * 0x800); 0x2000_0000_0000_0000 <= w.hi < TWO63
  {
    hide MulU;
    MantissaProduct(m, n);
    MulUExact(m * 0x400, n * 0x800);
    ScaledProduct(m, n);
    HighWord(MulU(m * 0x400, n * 0x800), m * n);
  }

  lemma HighWord(w: Wide, t: nat)
    requires w.hi * 0x1_0000_0000_0000_0000 + w.lo == t * 0x20_0000 && w.lo < 0x1_0000_0000_0000_0000
    requires 0x100_0000_0000_0000_0000_0000_0000 <= t < 0x400_0000_0000_0000_0000_0000_0000
    ensures 0x2000_0000_0000_0000 <= w.hi < TWO63
  {}

  lemma ScaledProduct(m: nat, n: nat)
    ensures (m * 0x400) * (n * 0x800) == (m * n) * 0x20_0000
  {
    Swap(m, 0x400, n, 0x800);
  }

  /** The product of two finite doubles, in units of 2^-1074. */
  ghost function ExactProduct(a: nat, b: nat): real {
    (Mag(Magnitude(a)) * Mag(Magnitude(b))) as real * Scale(2, -1074)
  }

  /** IEEE 754 sections 5.4.1 and 6.3: correctly rounded, the sign is the exclusive or of the signs. */
  lemma MulCorrect(a: nat, b: nat, rm: RoundingMode, clz0: int)
    requires IsFinite(a) && IsFinite(b)
    ensures IsRoundedResult(MulSf(a, b, rm, clz0), rm, Negative(a) != Negative(b), ExactProduct(a, b))
  {
    hide *;
    if Magnitude(a) == 0 || Magnitude(b) == 0 {
      MulZero(a, b, rm, clz0);
    } else {
      MulNonzero(a, b, rm, clz0);
    }
  }

  lemma MulZero(a: nat, b: nat, rm: RoundingMode, clz0: int)
    requires IsFinite(a) && IsFinite(b) && (Magnitude(a) == 0 || Magnitude(b) == 0)
    ensures IsRoundedResult(MulSf(a, b, rm, clz0), rm, Negative(a) != Negative(b), ExactProduct(a, b))
  {
    hide Mag, Normalize, NormalOperand, MulU, Rounded, ExactProduct;
    ZeroProduct(a, b);
    ExactRounds(DirectionOf(rm, Negative(a) != Negative(b)), 0);
  }

  lemma MulNonzero(a: nat, b: nat, rm: RoundingMode, clz0: int)
    requires IsFinite(a) && IsFinite(b) && Magnitude(a) != 0 && Magnitude(b) != 0
    ensures IsRoundedResult(MulSf(a, b, rm, clz0), rm, Negative(a) != Negative(b), ExactProduct(a, b))
  {
    hide Mag, Normalize, NormalOperand, JammedProduct, Scale, IsRoundedResult;
    var p, q := Magnitude(a), Magnitude(b);
    NormalOperandValue(p);
    NormalOperandValue(q);
    FiniteProduct(NormalOperand(p), NormalOperand(q), Mag(p), Mag(q), ExactProduct(a, b),
                  Negative(a) != Negative(b), rm, clz0);
  }

  lemma ZeroProduct(a: nat, b: nat)
    requires Magnitude(a) == 0 || Magnitude(b) == 0
    ensures ExactProduct(a, b) == 0.0 && Mag(0) == 0
  {
    hide Pow, Scale;
    assert Mag(0) == 0;
    assert Mag(Magnitude(a)) * Mag(Magnitude(b)) == 0;
  }

  lemma FiniteProduct(o: Operand, u: Operand, x: nat, y: nat, xy: real, negative: bool, rm: RoundingMode, clz0: int)
    requires TWO52 <= o.mant < TWO53 && x as real == o.mant as real * Scale(2, o.exp - 1)
    requires TWO52 <= u.mant < TWO53 && y as real == u.mant as real * Scale(2, u.exp - 1)
    requires xy == (x * y) as real * Scale(2, -1074)
    ensures IsRoundedResult(Normalize(negative, o.exp + u.exp - 1022, JammedProduct(o.mant, u.mant), rm, clz0),
                            rm, negative, xy)
  {
    hide Normalize, Scale, Tracks, IsRoundedResult, JammedProduct;
    var z := ProductTracks(o.mant, u.mant);
    ProductScale(o.mant, u.mant, o.exp, u.exp, x, y, z);
    NormalizeCorrect(negative, o.exp + u.exp - 1022, JammedProduct(o.mant, u.mant), rm, clz0, z, xy);
  }

  lemma ProductTracks(m: nat, n: nat) returns (z: real)
    requires TWO52 <= m < TWO53 && TWO52 <= n < TWO53
    ensures z == (m * n) as real * Scale(2, -43)
    ensures Tracks(JammedProduct(m, n), z, 2)
  {
    hide MulU, Tracks, Jam, Scale;
    MulUExact(m * 0x400, n * 0x800);
    ScaledProduct(m, n);
    var w := MulU(m * 0x400, n * 0x800);
    var t := m * n * 0x20_0000;
    DivUnique(t, TWO64, w.hi, w.lo);
    z := t as real / TWO64 as real;
    JamTracks(t, TWO64, z, Jam(w.hi, w.lo != 0));
    Scale43();
  }

  lemma Scale43()
    ensures Scale(2, -43) == 2097152.0 / TWO64 as real
  {
    hide Pow;
    SmallPowersOfTwo();
    PowersOfTwo();
    PowAdd(2, 32, 10);
    PowStep(2, 42);
  }

  lemma ProductScale(m: nat, n: nat, e: int, f: int, x: nat, y: nat, z: real)
    requires x as real == m as real * Scale(2, e - 1) && y as real == n as real * Scale(2, f - 1)
    requires z == (m * n) as real * Scale(2, -43)
    ensures (x * y) as real * Scale(2, -1074) == z * Scale(2, e + f - 1033)
  {
    hide *;
    ScaleAdd(2, e - 1, f - 1);
    ScaleAdd(2, e + f - 2, -1074);
    ScaleAdd(2, -43, e + f - 1033);
    var s, t, u, mn := Scale(2, e - 1), Scale(2, f - 1), Scale(2, -1074), (m * n) as real;
    assert (x * y) as real == x as real * y as real;
    assert mn == m as real * n as real;
    SwapReal(m as real, s, n as real, t);
    RealAssoc(mn, s * t, u);
    RealAssoc(mn, Scale(2, -43), Scale(2, e + f - 1033));
  }

  lemma SwapReal(a: real, b: real, c: real, d: real)
    ensures (a * b) * (c * d) == (a * c) * (b * d)
  {
    RealAssoc(a * b, c, d);
    RealAssoc(a, b, c);
    RealAssoc(a, c, b);
    RealAssoc(a * c, b, d);
    assert b * c == c * b;
  }

  /** NaN and infinite operands: section 7.2 and section 6.1. */
  lemma MulSpecial(a: nat, b: nat, rm: RoundingMode, clz0: int)
    requires IsBits(a) && IsBits(b) && !(IsFinite(a) && IsFinite(b))
    ensures var p, q := Magnitude(a), Magnitude(b);
            MulSf(a, b, rm, clz0) ==
            if p > INF || q > INF || p == 0 || q == 0 then QNAN
            else (if Negative(a) != Negative(b) then TWO63 else 0) + INF
  {}
}
