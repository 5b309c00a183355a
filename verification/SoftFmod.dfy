/** The exact floating point remainder. */
module SoftFmod {
  import opened Arith
  import opened Powers
  import opened Rounding
  import opened Binary64
  import opened SoftFloat
  import opened SoftMul

  /** Doubling a residue and subtracting the modulus once if it fits. */
  lemma DoubleResidue(x: nat, r: nat, b: nat)
    requires b > 0 && r == x % b
    ensures (if 2 * r >= b then 2 * r - b else 2 * r) == (2 * x) % b
  {
    var q, s := Cell(x, b);
    DivUnique(x, b, q, s);
    Assoc(2, q, b);
    if 2 * r >= b {
      Distribute(2 * q, 1, b);
      DivUnique(2 * x, b, 2 * q + 1, 2 * r - b);
    } else {
      DivUnique(2 * x, b, 2 * q, 2 * r);
    }
  }

  lemma FirstResidue(x: nat, b: nat)
    requires 0 < b && x < 2 * b
    ensures (if x >= b then x - b else x) == (x * Pow(2, 0)) % b
  {
    hide Pow;
    PowStep(2, 0);
    if x >= b {
      DivUnique(x, b, 1, x - b);
    } else {
      DivUnique(x, b, 0, x);
    }
  }

  lemma NextResidue(x: nat, r: nat, b: nat, i: nat)
    requires b > 0 && r == (x * Pow(2, i)) % b
    ensures (if 2 * r >= b then 2 * r - b else 2 * r) == (x * Pow(2, i + 1)) % b
  {
    hide Pow;
    PowStep(2, i);
    DoubleResidue(x * Pow(2, i), r, b);
    Assoc(2, x, Pow(2, i));
  }

  /** Every 53-bit significand times a power of two has a pattern, subnormals included. */
  lemma {:induction false} Representable(r: nat, e: nat) returns (p: nat)
    requires r < TWO53
    ensures Mag(p) == r * Pow(2, e)
    decreases e
  {
    hide Mag, Pow;
    if e == 0 || r >= TWO52 {
      p := e * 0x10_0000_0000_0000 + r;
      MagForm(e, r);
    } else {
      p := Representable(2 * r, e - 1);
      PowStep(2, e - 1);
      Assoc(2, r, Pow(2, e - 1));
    }
  }

  /** A value below 2^1024 with a pattern is returned unrounded. */
  lemma ExactResult(bits: nat, rm: RoundingMode, negative: bool, x: nat, r: nat, e: nat)
    requires IsRoundedResult(bits, rm, negative, x as real)
    requires r < TWO53 && x == r * Pow(2, e) && x < Mag(INF)
    ensures IsFinite(bits) && Negative(bits) == negative && Mag(Magnitude(bits)) == x
  {
    hide Mag, Pow, Rounded;
    var p := Representable(r, e);
    if p >= INF { MagMonotone(INF, p); }
    ExactRounds(DirectionOf(rm, negative), p);
    RoundedUnique(DirectionOf(rm, negative), p, Magnitude(bits), x as real);
  }

  /** Residues of the magnitudes are residues of the aligned significands. */
  lemma ResidueScale(x: nat, y: nat, m: nat, b: nat, u: real, r: nat)
    requires y > 0 && b > 0 && u > 0.0 && x as real == m as real * u && y as real == b as real * u && r == m % b
    ensures (x % y) as real == r as real * u
  {
    var q, s := Cell(m, b);
    DivUnique(m, b, q, s);
    ResidueEquation(x, y, m, b, u, q, r);
    ProductOrder(r, b, u);
    DivUnique(x, y, q, x - q * y);
  }

  lemma ResidueEquation(x: nat, y: nat, m: nat, b: nat, u: real, q: nat, r: nat)
    requires x as real == m as real * u && y as real == b as real * u && m == q * b + r
    ensures (x - q * y) as real == r as real * u
  {
    assert (q * b) as real == q as real * b as real;
    assert (q * y) as real == q as real * y as real;
    RealAssoc(q as real, b as real, u);
    RealDistribute((q * b) as real, r as real, u);
  }

  lemma ProductOrder(r: nat, b: nat, u: real)
    requires r < b && u > 0.0
    ensures 0.0 <= r as real * u < b as real * u
  {
    RealOrder(r as real, b as real, u);
  }

  /** The remainder v = x mod y as a significand and a power of two. */
  lemma RemainderForm(q: nat, r: nat, v: nat) returns (m: nat, e: nat)
    requires 0 < q < INF && v < Mag(q)
    requires var u := NormalOperand(q); r < u.mant && v as real == r as real * Scale(2, u.exp - 1)
    ensures m < TWO53 && v == m * Pow(2, e)
  {
    hide Mag, Scale, Pow, NormalOperand;
    NormalOperandValue(q);
    if ExponentField(q) == 0 {
      MagFields(0, q);
      PowStep(2, 0);
      m, e := v, 0;
    } else {
      NormalExponent(q);
      m, e := r, NormalOperand(q).exp - 1;
      ScaleNat(2, e);
    }
  }

  lemma NormalExponent(q: nat)
    requires 0 < q < INF && ExponentField(q) != 0
    ensures NormalOperand(q).exp >= 1
  {}

  lemma FmodExact(a: nat, b: nat, r: nat, n: nat, clz0: int)
    requires IsFinite(a) && IsFinite(b) && 0 < Magnitude(b) < Magnitude(a)
    requires var o, u := NormalOperand(Magnitude(a)), NormalOperand(Magnitude(b));
             n == o.exp - u.exp && u.mant > 0 && r == (o.mant * Pow(2, n)) % u.mant && r < u.mant < TWO53
    ensures var res := Normalize(Negative(a), NormalOperand(Magnitude(b)).exp, r * 1024, RNE, clz0);
            Mag(Magnitude(b)) > 0 && IsFinite(res) && Negative(res) == Negative(a)
            && Mag(Magnitude(res)) == Mag(Magnitude(a)) % Mag(Magnitude(b))
  {
    hide Mag, Scale, Pow, NormalOperand, Normalize, IsRoundedResult;
    var p, q := Magnitude(a), Magnitude(b);
    var o, u := NormalOperand(p), NormalOperand(q);
    NormalOperandValue(p);
    NormalOperandValue(q);
    var s := Scale(2, u.exp - 1);
    ScalePositive(2, u.exp - 1);
    MagMonotone(0, q);
    MagMonotone(q, INF);
    AlignScale(o, u.exp, n, Mag(p));
    ResidueScale(Mag(p), Mag(q), o.mant * Pow(2, n), u.mant, s, r);
    var v := Mag(p) % Mag(q);
    DivMod(Mag(p), Mag(q));
    FmodRounds(Negative(a), u.exp, r, v, clz0);
    var m, e := RemainderForm(q, r, v);
    ExactResult(Normalize(Negative(a), u.exp, r * 1024, RNE, clz0), RNE, Negative(a), v, m, e);
  }

  lemma AlignScale(o: Operand, f: int, n: nat, x: nat)
    requires n == o.exp - f && x as real == o.mant as real * Scale(2, o.exp - 1) && o.mant >= 0
    ensures x as real == (o.mant * Pow(2, n)) as real * Scale(2, f - 1)
  {
    hide *;
    ScaleAdd(2, n, f - 1);
    ScaleNat(2, n);
    RealAssoc(o.mant as real, Scale(2, n), Scale(2, f - 1));
    assert (o.mant * Pow(2, n)) as real == o.mant as real * Pow(2, n) as real;
  }

  lemma FmodRounds(negative: bool, exp: int, r: nat, v: nat, clz0: int)
    requires r < TWO53 && v as real == r as real * Scale(2, exp - 1)
    ensures IsRoundedResult(Normalize(negative, exp, r * 1024, RNE, clz0), RNE, negative, v as real)
  {
    hide Scale, Normalize, IsRoundedResult;
    if r == 0 {
      NormalizeZero(negative, exp, RNE, clz0);
    } else {
      KibiScale(r, exp, v as real);
      NormalizeCorrect(negative, exp, r * 1024, RNE, clz0, (r * 1024) as real, v as real);
    }
  }

  lemma KibiScale(r: nat, exp: int, v: real)
    requires v == r as real * Scale(2, exp - 1)
    ensures v == (r * 1024) as real * Scale(2, exp - 11)
  {
    hide Scale, Pow;
    PowersOfTwo();
    ScaleNat(2, 10);
    ScaleAdd(2, 10, exp - 11);
    RealAssoc(r as real, 1024.0, Scale(2, exp - 11));
  }

  /** a - b * trunc(a / b), never rounded; an infinite b leaves a alone. */
  method FmodSf(a: nat, b: nat, clz0: int) returns (res: nat)
    requires IsBits(a) && IsBits(b)
    ensures Magnitude(b) == 0 || Magnitude(a) >= INF || Magnitude(b) > INF ==> res == QNAN
    ensures 0 < Magnitude(b) <= INF && Magnitude(a) < INF ==>
              Mag(Magnitude(b)) > 0 && IsFinite(res) && Negative(res) == Negative(a)
              && Mag(Magnitude(res)) == Mag(Magnitude(a)) % Mag(Magnitude(b))
  {
    hide Mag, Pow, NormalOperand, Normalize;
    var p, q := Magnitude(a), Magnitude(b);
    if q == 0 || p >= 0x7FF * 0x10_0000_0000_0000 || q > 0x7FF * 0x10_0000_0000_0000 {
      return QNAN;
    }
    MagMonotone(0, q);
    if p <= q {
      MagMonotone(p, q);
      SmallRemainder(p, q);
      return if p < q then a else a - p;
    }
    var o, u := NormalOperand(p), NormalOperand(q);
    NormalOperandValue(p);
    NormalOperandValue(q);
    OrderedExponents(p, q);
    var m, n := o.mant, o.exp - u.exp;
    FirstResidue(o.mant, u.mant);
    if m >= u.mant {
      m := m - u.mant;
    }
    ghost var i := 0;
    while n != 0
      invariant n >= 0 && i == o.exp - u.exp - n
      invariant 0 <= m < u.mant && m == (o.mant * Pow(2, i)) % u.mant
      decreases n
    {
      NextResidue(o.mant, m, u.mant, i);
      m := m * 2;
      if m >= u.mant {
        m := m - u.mant;
      }
      n := n - 1;
      i := i + 1;
    }
    FmodExact(a, b, m, i, clz0);
    res := Normalize(Negative(a), u.exp, m * 1024, RNE, clz0);
  }

  lemma SmallRemainder(p: nat, q: nat)
    requires p <= q && Mag(q) > 0 && Mag(p) + (q - p) <= Mag(q)
    ensures Mag(p) % Mag(q) == if p < q then Mag(p) else Mag(0)
  {
    hide Pow;
    assert Mag(0) == 0;
    if p < q {
      DivUnique(Mag(p), Mag(q), 0, Mag(p));
    } else {
      DivUnique(Mag(p), Mag(q), 1, 0);
    }
  }

  /** The larger of two magnitudes does not have the smaller normalised exponent. */
  lemma OrderedExponents(p: nat, q: nat)
    requires 0 < q < p < INF
    ensures NormalOperand(p).exp >= NormalOperand(q).exp
  {
    hide Mag, Scale, NormalOperand, Pow;
    NormalOperandValue(p);
    NormalOperandValue(q);
    MagMonotone(q, p);
    var o, u := NormalOperand(p), NormalOperand(q);
    if o.exp < u.exp {
      BelowNextBinade(o.mant, o.exp, Mag(p));
      AtLeastBinade(u.mant, u.exp, Mag(q));
      ScaleMonotone(2, o.exp + 52, u.exp + 51);
    }
  }

  lemma BelowNextBinade(m: nat, e: int, x: nat)
    requires m < TWO53 && x as real == m as real * Scale(2, e - 1)
    ensures x as real < Scale(2, e + 52)
  {
    hide Scale, Pow;
    PowersOfTwo();
    ScaleNat(2, 53);
    ScaleAdd(2, 53, e - 1);
    ScalePositive(2, e - 1);
    RealOrder(m as real, 9007199254740992.0, Scale(2, e - 1));
  }

  lemma AtLeastBinade(m: nat, e: int, x: nat)
    requires m >= TWO52 && x as real == m as real * Scale(2, e - 1)
    ensures x as real >= Scale(2, e + 51)
  {
    hide Scale, Pow;
    PowersOfTwo();
    ScaleNat(2, 52);
    ScaleAdd(2, 52, e - 1);
    ScalePositive(2, e - 1);
    RealOrder(4503599627370496.0, m as real, Scale(2, e - 1));
  }
}
