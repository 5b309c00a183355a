/** Bit-by-bit division, and correctly rounded division built on it. */
module SoftDiv {
  import opened Arith
  import opened Powers
  import opened Tracking
  import opened Rounding
  import opened Binary64
  import opened SoftFloat
  import opened SoftMul

  /** One bit of the quotient: the 128-bit window moves up and b leaves its top half if it fits. */
  lemma WindowStep(n: int, t: int, q: nat, b: nat, qb: nat, p: nat, n': int)
    requires n == p * t - q * (b * 0x1_0000_0000_0000_0000 - 1)
    requires n' == 2 * n - qb * (b * 0x1_0000_0000_0000_0000 - 1)
    ensures n' == (2 * p) * t - (2 * q + qb) * (b * 0x1_0000_0000_0000_0000 - 1)
  {
    var k := b * 0x1_0000_0000_0000_0000 - 1;
    Assoc(2, p, t);
    Assoc(2, q, k);
    Distribute(2 * q, qb, k);
  }

  lemma WindowEnd(a1: nat, a0: nat, t: nat, q: nat, b: nat)
    requires a1 * 0x1_0000_0000_0000_0000 + a0
             == 0x1_0000_0000_0000_0000 * t - q * (b * 0x1_0000_0000_0000_0000 - 1)
    requires a0 < 0x1_0000_0000_0000_0000 && q < 0x1_0000_0000_0000_0000
    ensures a0 == q && t == q * b + a1
  {
    assert q * (b * 0x1_0000_0000_0000_0000 - 1) == (q * b) * 0x1_0000_0000_0000_0000 - q;
  }

  datatype Window = Window(hi: nat, lo: nat, qb: nat)

  /** The loop body of divrem_u, with the carry out of the word-sized shift. */
  function ShiftSubtract(hi: nat, lo: nat, b: nat): Window
    requires IsBits(hi) && IsBits(lo) && IsBits(b)
  {
    var carry := hi / 0x8000_0000_0000_0000;
    var up := (hi * 2) % 0x1_0000_0000_0000_0000 + lo / 0x8000_0000_0000_0000;
    var qb := if carry != 0 || up >= b then 1 else 0;
    Window(if qb == 1 then (up + 0x1_0000_0000_0000_0000 - b) % 0x1_0000_0000_0000_0000 else up,
           (lo * 2) % 0x1_0000_0000_0000_0000 + qb, qb)
  }

  lemma ShiftSubtractExact(hi: nat, lo: nat, b: nat)
    requires hi < b && IsBits(lo) && IsBits(b)
    ensures var w := ShiftSubtract(hi, lo, b);
            && w.hi < b && IsBits(w.lo) && w.qb <= 1
            && w.hi * 0x1_0000_0000_0000_0000 + w.lo
               == 2 * (hi * 0x1_0000_0000_0000_0000 + lo) - w.qb * (b * 0x1_0000_0000_0000_0000 - 1)
  {
    var c, h0 := Cell(hi, 0x8000_0000_0000_0000);
    var l, l0 := Cell(lo, 0x8000_0000_0000_0000);
    DivUnique(hi, 0x8000_0000_0000_0000, c, h0);
    DivUnique(lo, 0x8000_0000_0000_0000, l, l0);
    DivUnique(hi * 2, 0x1_0000_0000_0000_0000, c, h0 * 2);
    DivUnique(lo * 2, 0x1_0000_0000_0000_0000, l, l0 * 2);
    var up := h0 * 2 + l;
    if c != 0 {
      DivUnique(up + 0x1_0000_0000_0000_0000 - b, 0x1_0000_0000_0000_0000, 0, up + 0x1_0000_0000_0000_0000 - b);
    } else if up >= b {
      DivUnique(up + 0x1_0000_0000_0000_0000 - b, 0x1_0000_0000_0000_0000, 1, up - b);
    }
  }

  /** After i steps the window holds 2^i * t with `bits` subtractions made and recorded. */
  ghost predicate Dividing(hi: nat, lo: nat, b: nat, t: nat, i: nat, bits: nat) {
    && hi < b && IsBits(lo) && bits < Pow(2, i)
    && hi * 0x1_0000_0000_0000_0000 + lo == Pow(2, i) * t - bits * (b * 0x1_0000_0000_0000_0000 - 1)
  }

  lemma DividingStart(a1: nat, a0: nat, b: nat)
    requires a1 < b && IsBits(a0)
    ensures Dividing(a1, a0, b, a1 * 0x1_0000_0000_0000_0000 + a0, 0, 0)
  {
    hide Pow;
    PowStep(2, 0);
  }

  lemma DividingStep(hi: nat, lo: nat, b: nat, t: nat, i: nat, bits: nat)
    requires Dividing(hi, lo, b, t, i, bits) && IsBits(b)
    ensures var w := ShiftSubtract(hi, lo, b); Dividing(w.hi, w.lo, b, t, i + 1, 2 * bits + w.qb)
  {
    hide Pow, ShiftSubtract;
    var w := ShiftSubtract(hi, lo, b);
    ShiftSubtractExact(hi, lo, b);
    WindowStep(hi * 0x1_0000_0000_0000_0000 + lo, t, bits, b, w.qb, Pow(2, i),
               w.hi * 0x1_0000_0000_0000_0000 + w.lo);
    PowStep(2, i);
  }

  lemma DividingEnd(hi: nat, lo: nat, b: nat, t: nat, bits: nat)
    requires Dividing(hi, lo, b, t, 64, bits)
    ensures lo == t / b && hi == t % b
  {
    hide Pow;
    PowersOfTwo();
    WindowEnd(hi, lo, t, bits, b);
    DivUnique(t, b, lo, hi);
  }

  /** divrem_u without a double-word type. */
  method DivRemU(a1: nat, a0: nat, b: nat) returns (q: nat, r: nat)
    requires IsBits(a0) && IsBits(b) && a1 < b
    ensures q == (a1 * 0x1_0000_0000_0000_0000 + a0) / b && r == (a1 * 0x1_0000_0000_0000_0000 + a0) % b
    ensures IsBits(q)
  {
    hide ShiftSubtract, Dividing;
    q, r := a0, a1;
    ghost var t: nat, bits: nat := a1 * 0x1_0000_0000_0000_0000 + a0, 0;
    DividingStart(a1, a0, b);
    for i := 0 to 64
      invariant IsBits(r) && IsBits(q) && Dividing(r, q, b, t, i, bits)
    {
      var w := ShiftSubtract(r, q, b);
      DividingStep(r, q, b, t, i, bits);
      r, q := w.hi, w.lo;
      bits := 2 * bits + w.qb;
      assert IsBits(r) && IsBits(q) by { DividingBits(r, q, b, t, i + 1, bits); }
    }
    DividingEnd(r, q, b, t, bits);
  }

  lemma DividingBits(hi: nat, lo: nat, b: nat, t: nat, i: nat, bits: nat)
    requires Dividing(hi, lo, b, t, i, bits) && IsBits(b)
    ensures IsBits(hi) && IsBits(lo)
  {}

  // ---------- division ----------

  /** The quotient of two finite doubles, in units of 2^-1074. */
  ghost function ExactQuotient(a: nat, b: nat): real
    requires Mag(Magnitude(b)) > 0
  {
    Mag(Magnitude(a)) as real / Mag(Magnitude(b)) as real * Scale(2, 1074)
  }

  lemma MagPositive(p: nat)
    requires p > 0
    ensures Mag(p) > 0
  {
    hide Mag;
    MagMonotone(0, p);
  }

  function SignedPattern(negative: bool, p: nat): nat { (if negative then TWO63 else 0) + p }

  /** Invalid operations, infinities and division by zero: IEEE 754 sections 6.1, 7.2 and 7.3. */
  function DivSpecial(p: nat, q: nat, negative: bool): nat {
    if p > INF || q > INF || (p == INF && q == INF) || (p == 0 && q == 0) then QNAN
    else SignedPattern(negative, if p == INF || q == 0 then INF else 0)
  }

  method DivSf(a: nat, b: nat, rm: RoundingMode, clz0: int) returns (res: nat)
    requires IsBits(a) && IsBits(b)
    ensures IsFinite(a) && IsFinite(b) && Magnitude(b) != 0 ==>
              Mag(Magnitude(b)) > 0
              && IsRoundedResult(res, rm, Negative(a) != Negative(b), ExactQuotient(a, b))
    ensures !IsFinite(a) || !IsFinite(b) || Magnitude(b) == 0 ==>
              res == DivSpecial(Magnitude(a), Magnitude(b), Negative(a) != Negative(b))
  {
    hide Mag, NormalOperand, Normalize, IsRoundedResult, ExactQuotient;
    var p, q, negative := Magnitude(a), Magnitude(b), Negative(a) != Negative(b);
    if q > 0 { MagPositive(q); }
    if ExponentField(p) == 0x7FF {
      if MantissaField(p) != 0 || IsNan(q) {
        return QNAN;
      } else if ExponentField(q) == 0x7FF {
        return QNAN;
      } else {
        return Pack(negative, 0x7FF, 0);
      }
    } else if ExponentField(q) == 0x7FF {
      return if MantissaField(q) != 0 then QNAN else Pack(negative, 0, 0);
    }
    if q == 0 {
      return if p == 0 then QNAN else Pack(negative, 0x7FF, 0);
    }
    if p == 0 {
      QuotientOfZero(a, b, rm);
      return Pack(negative, 0, 0);
    }
    res := DivNonzero(a, b, rm, clz0);
  }

  method DivNonzero(a: nat, b: nat, rm: RoundingMode, clz0: int) returns (res: nat)
    requires IsFinite(a) && IsFinite(b) && Magnitude(a) != 0 && Magnitude(b) != 0
    ensures Mag(Magnitude(b)) > 0
    ensures IsRoundedResult(res, rm, Negative(a) != Negative(b), ExactQuotient(a, b))
  {
    hide Mag, NormalOperand, Normalize, IsRoundedResult, ExactQuotient, Scale;
    var o, u := NormalOperand(Magnitude(a)), NormalOperand(Magnitude(b));
    NormalOperandValue(Magnitude(a));
    NormalOperandValue(Magnitude(b));
    MagPositive(Magnitude(b));
    var m, r := DivRemU(o.mant, 0, u.mant * 4);
    QuotientRange(o.mant, u.mant, m);
    QuotientEquation(a, b, ExactQuotient(a, b));
    FiniteQuotient(o, u, Mag(Magnitude(a)), Mag(Magnitude(b)), ExactQuotient(a, b), m, r != 0,
                   Negative(a) != Negative(b), rm, clz0);
    res := Normalize(Negative(a) != Negative(b), o.exp - u.exp + 1024 - 1, Jam(m, r != 0), rm, clz0);
  }

  lemma QuotientOfZero(a: nat, b: nat, rm: RoundingMode)
    requires IsFinite(a) && IsFinite(b) && Magnitude(a) == 0 && Mag(Magnitude(b)) > 0
    ensures IsRoundedResult(Pack(Negative(a) != Negative(b), 0, 0), rm, Negative(a) != Negative(b), ExactQuotient(a, b))
  {
    hide Rounded, Scale;
    assert Mag(0) == 0;
    ExactRounds(DirectionOf(rm, Negative(a) != Negative(b)), 0);
  }

  lemma QuotientEquation(a: nat, b: nat, x: real)
    requires Mag(Magnitude(b)) > 0 && x == ExactQuotient(a, b)
    ensures x * Mag(Magnitude(b)) as real == Mag(Magnitude(a)) as real * Scale(2, 1074)
  {
    hide Mag, Scale;
    QuotientTimes(Mag(Magnitude(a)) as real, Mag(Magnitude(b)) as real, Scale(2, 1074));
  }

  lemma QuotientTimes(m: real, n: real, s: real)
    requires n > 0.0
    ensures (m / n * s) * n == m * s
  {
    RealAssoc(m / n, s, n);
    RealAssoc(m / n, n, s);
    assert s * n == n * s;
    assert m / n * n == m;
  }

  lemma QuotientRange(m: nat, n: nat, q: nat)
    requires TWO52 <= m < TWO53 && TWO52 <= n < TWO53
    requires q == (m * 0x1_0000_0000_0000_0000 + 0) / (n * 4)
    ensures 0x2000_0000_0000_0000 <= q < TWO63
  {
    var d, t := n * 4, m * 0x1_0000_0000_0000_0000;
    var k, r := Cell(t, d);
    DivUnique(t, d, k, r);
    if k < 0x2000_0000_0000_0000 {
      Monotone(k, 0x1FFF_FFFF_FFFF_FFFF, d);
    }
    if k >= 0x8000_0000_0000_0000 {
      Monotone(0x8000_0000_0000_0000, k, d);
    }
  }

  lemma FiniteQuotient(o: Operand, u: Operand, x: nat, y: nat, xy: real, q: nat, inexact: bool, negative: bool,
                       rm: RoundingMode, clz0: int)
    requires TWO52 <= o.mant < TWO53 && x as real == o.mant as real * Scale(2, o.exp - 1)
    requires TWO52 <= u.mant < TWO53 && y as real == u.mant as real * Scale(2, u.exp - 1)
    requires y > 0 && xy * y as real == x as real * Scale(2, 1074)
    requires q == (o.mant * 0x1_0000_0000_0000_0000 + 0) / (u.mant * 4)
    requires inexact <==> (o.mant * 0x1_0000_0000_0000_0000 + 0) % (u.mant * 4) != 0
    requires 0x2000_0000_0000_0000 <= q < TWO63
    ensures IsRoundedResult(Normalize(negative, o.exp - u.exp + 1023, Jam(q, inexact), rm, clz0), rm, negative, xy)
  {
    hide Normalize, Scale, Tracks, IsRoundedResult;
    var t, d := o.mant * 0x1_0000_0000_0000_0000, u.mant * 4;
    var z := t as real / d as real;
    assert z * d as real == t as real;
    JamTracks(t, d, z, Jam(q, inexact));
    QuotientScale(o.mant, u.mant, o.exp, u.exp, x, y, z, xy);
    NormalizeCorrect(negative, o.exp - u.exp + 1023, Jam(q, inexact), rm, clz0, z, xy);
  }

  lemma QuotientScale(m: nat, n: nat, e: int, f: int, x: nat, y: nat, z: real, xy: real)
    requires x as real == m as real * Scale(2, e - 1) && y as real == n as real * Scale(2, f - 1)
    requires y > 0 && xy * y as real == x as real * Scale(2, 1074)
    requires z * (n * 4) as real == (m * 0x1_0000_0000_0000_0000) as real
    ensures xy == z * Scale(2, e - f + 1012)
  {
    hide *;
    var k := e - f + 1012;
    var zn := z * n as real;
    QuarterWord(z, m, n);
    ScaleAdd(2, k, f - 1);
    ScaleAdd(2, 62, k + f - 1);
    ScaleAdd(2, e - 1, 1074);
    SwapReal(z, Scale(2, k), n as real, Scale(2, f - 1));
    RealAssoc(m as real, Scale(2, 62), Scale(2, k + f - 1));
    RealAssoc(m as real, Scale(2, e - 1), Scale(2, 1074));
    CancelFactor(y as real, xy, z * Scale(2, k));
  }

  lemma QuarterWord(z: real, m: nat, n: nat)
    requires z * (n * 4) as real == (m * 0x1_0000_0000_0000_0000) as real
    ensures z * n as real == m as real * Scale(2, 62)
  {
    hide Pow, Scale;
    PowersOfTwo();
    ScaleNat(2, 62);
    assert (n * 4) as real == n as real * 4.0;
    RealAssoc(z, n as real, 4.0);
  }
}
