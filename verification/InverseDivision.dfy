/** Division of two limbs by one through a precomputed inverse, wrap-around written out. */
module InverseDivision {
  import opened Arith
  import opened Powers
  import opened Limbs

  const LIMB2: nat := 0x1_0000_0000_0000_0000

  /** udiv1norm_init: the all-ones double limb below the complement of d, divided by d. */
  function InverseOf(d: nat): nat
    requires 0x8000_0000 <= d < LIMB
  {
    ((LIMB - d - 1) * 0x1_0000_0000 + 0xFFFF_FFFF) / d
  }

  datatype QuotRem = QuotRem(q: nat, r: nat)

  /** The trial quotient: n1m is all ones when the low limb has its top bit set. */
  function TrialQuotient(a1: nat, a0: nat, d: nat, dInv: nat): nat {
    var top := if a0 >= 0x8000_0000 then 1 else 0;
    var nAdj := (a0 + top * d) % 0x1_0000_0000;
    var a := (dInv * ((a1 + top) % 0x1_0000_0000) + nAdj) % 0x1_0000_0000_0000_0000;
    (a / 0x1_0000_0000 + a1) % 0x1_0000_0000
  }

  /** udiv1norm: one subtraction too many, then put back if the double limb went below zero. */
  function UDiv1Norm(a1: nat, a0: nat, d: nat, dInv: nat): QuotRem {
    var q := TrialQuotient(a1, a0, d, dInv);
    Corrected(q, a1 * 0x1_0000_0000 + a0 - q * d - d, d)
  }

  function Corrected(q: nat, rest: int, d: nat): QuotRem {
    var a := rest % 0x1_0000_0000_0000_0000;
    var ah := a / 0x1_0000_0000;
    QuotRem((q + 1 + ah) % 0x1_0000_0000,
            (a % 0x1_0000_0000 + if ah == 0xFFFF_FFFF then d else 0) % 0x1_0000_0000)
  }

  lemma InverseEquation(d: nat) returns (e: nat)
    requires 0x8000_0000 <= d < LIMB
    ensures (InverseOf(d) + 0x1_0000_0000) * d == 0xFFFF_FFFF_FFFF_FFFF - e && e < d
    ensures InverseOf(d) < LIMB
  {
    var n := (LIMB - d - 1) * 0x1_0000_0000 + 0xFFFF_FFFF;
    var q, r := Cell(n, d);
    DivUnique(n, d, q, r);
    e := r;
    Distribute(q, 0x1_0000_0000, d);
    if q >= LIMB { Monotone(0x1_0000_0000, q, d); }
  }

  /** m a + c splits into h and l: the remainder of the estimate a + h, scaled by the limb base. */
  lemma ScaledRest(a: int, c: int, d: int, m: int, e: int, h: int, l: int)
    requires (m + 0x1_0000_0000) * d == 0xFFFF_FFFF_FFFF_FFFF - e
    requires m * a + c == h * 0x1_0000_0000 + l
    ensures (a * 0x1_0000_0000 + c - (a + h) * d) * 0x1_0000_0000
            == a * (1 + e) + c * (0x1_0000_0000 - d) + d * l
  {
    calc {
      (a + h) * d * 0x1_0000_0000;
      { Distribute(a, h, d); }
      a * d * 0x1_0000_0000 + (h * 0x1_0000_0000) * d;
      { assert h * 0x1_0000_0000 == m * a + c - l; }
      a * d * 0x1_0000_0000 + (m * a + c - l) * d;
      { Distribute(m * a + c, l, d); Distribute(m * a, c, d); }
      a * d * 0x1_0000_0000 + m * a * d + c * d - l * d;
      { assert a * ((m + 0x1_0000_0000) * d) == a * d * 0x1_0000_0000 + m * a * d by {
          Distribute(m, 0x1_0000_0000, d); } }
      a * (0xFFFF_FFFF_FFFF_FFFF - e) + c * d - l * d;
    }
  }

  lemma SquareBound(a: nat, d: nat, e: nat)
    requires a <= d && e < d
    ensures 0 <= a * (1 + e) <= d * d
  {
    Monotone(a, d, 1 + e);
    Monotone(1 + e, d, d);
  }

  lemma ComplementBound(c: nat, d: nat, g: nat)
    requires c < d
    ensures 0 <= c * g <= d * g - g
  {
    StrictMonotoneBy(c, d, g);
  }

  lemma StrictMonotoneBy(c: nat, d: nat, g: nat)
    requires c < d
    ensures c * g + g <= d * g
  {
    if g > 0 { StrictMonotone(c, d, g); }
  }

  lemma RestBound(a: nat, c: nat, d: nat, e: nat, l: nat)
    requires d < 0x1_0000_0000 && a <= d && c < d && e < d && l < 0x1_0000_0000
    ensures 0 <= a * (1 + e) + c * (0x1_0000_0000 - d) + d * l < 2 * d * 0x1_0000_0000
  {
    var g := 0x1_0000_0000 - d;
    SquareBound(a, d, e);
    ComplementBound(c, d, g);
    LimbTimes(d, l);
    BoundSum(a * (1 + e), c * g, d * l, d, g);
  }

  lemma LimbTimes(d: nat, l: nat)
    requires l < 0x1_0000_0000
    ensures 0 <= d * l <= d * 0x1_0000_0000 - d
  {
    Monotone(l, 0xFFFF_FFFF, d);
  }

  lemma BoundSum(p: int, q: int, r: int, d: nat, g: nat)
    requires g == 0x1_0000_0000 - d && 0 <= p <= d * d && 0 <= q <= d * g - g && 0 <= r <= d * 0x1_0000_0000 - d
    ensures 0 <= p + q + r < 2 * d * 0x1_0000_0000
  {
    Distribute(d, g, d);
  }

  /** The estimate is the quotient or one less. */
  lemma Estimate(a: nat, c: nat, d: nat, m: nat, e: nat, h: nat, l: nat)
    requires d < 0x1_0000_0000 && a <= d && c < d && e < d && l < 0x1_0000_0000
    requires (m + 0x1_0000_0000) * d == 0xFFFF_FFFF_FFFF_FFFF - e
    requires m * a + c == h * 0x1_0000_0000 + l
    ensures 0 <= a * 0x1_0000_0000 + c - (a + h) * d < 2 * d
  {
    ScaledRest(a, c, d, m, e, h, l);
    RestBound(a, c, d, e, l);
  }

  /** The trial quotient q of n = a1 2^32 + a0 leaves a rest below 2 d, whatever wraps on the way. */
  lemma TrialQuotientClose(a1: nat, a0: nat, d: nat)
    requires 0x8000_0000 <= d < LIMB && a1 < d && a0 < LIMB
    ensures var q := TrialQuotient(a1, a0, d, InverseOf(d));
            0 <= a1 * 0x1_0000_0000 + a0 - q * d < 2 * d
  {
    hide InverseOf, TrialQuotient;
    var m := InverseOf(d);
    var e := InverseEquation(d);
    var top := if a0 >= 0x8000_0000 then 1 else 0;
    var c := if top == 1 then a0 + d - LIMB else a0;
    var h, l := SplitEstimate(m, a1 + top, c);
    Estimate(a1 + top, c, d, m, e, h, l);
    assert (a1 + top + h) * d == (a1 + h) * d + top * d by { Distribute(a1 + h, top, d); }
    QuotientFits(a1, a0, d, a1 + h);
    TrialIs(a1, a0, d, m, top, c, h, l);
  }

  lemma SplitEstimate(m: nat, a: nat, c: nat) returns (h: nat, l: nat)
    requires m < LIMB && a < LIMB && c < LIMB
    ensures m * a + c == h * 0x1_0000_0000 + l && l < 0x1_0000_0000
    ensures m * a + c < 0x1_0000_0000_0000_0000
  {
    InverseProduct(m, a, c);
    h, l := SplitLimb(m * a + c);
  }

  lemma SplitLimb(y: nat) returns (h: nat, l: nat)
    ensures y == h * 0x1_0000_0000 + l && l < 0x1_0000_0000
  {
    h, l := Cell(y, 0x1_0000_0000);
  }

  lemma InverseProduct(m: nat, a: nat, c: nat)
    requires m < 0x1_0000_0000 && a < 0x1_0000_0000 && c < 0x1_0000_0000
    ensures m * a + c < 0x1_0000_0000_0000_0000
  {
    Monotone(m, 0xFFFF_FFFF, a);
  }

  lemma QuotientFits(a1: nat, a0: nat, d: nat, q: nat)
    requires a1 < d && a0 < 0x1_0000_0000 && q * d <= a1 * 0x1_0000_0000 + a0
    ensures q < 0x1_0000_0000
  {
    if q >= 0x1_0000_0000 { Monotone(0x1_0000_0000, q, d); }
  }

  lemma TrialIs(a1: nat, a0: nat, d: nat, m: nat, top: nat, c: nat, h: nat, l: nat)
    requires a1 < d < LIMB && 0x8000_0000 <= d && a0 < LIMB && top == (if a0 >= 0x8000_0000 then 1 else 0)
    requires c == if top == 1 then a0 + d - LIMB else a0
    requires m * (a1 + top) + c == h * 0x1_0000_0000 + l && l < 0x1_0000_0000
    requires m * (a1 + top) + c < 0x1_0000_0000_0000_0000 && a1 + h < 0x1_0000_0000
    ensures TrialQuotient(a1, a0, d, m) == a1 + h
  {
    DivUnique(a0 + top * d, 0x1_0000_0000, top, c);
    DivUnique(a1 + top, 0x1_0000_0000, 0, a1 + top);
    DivUnique(m * (a1 + top) + c, 0x1_0000_0000_0000_0000, 0, m * (a1 + top) + c);
    DivUnique(m * (a1 + top) + c, 0x1_0000_0000, h, l);
    DivUnique(a1 + h, 0x1_0000_0000, 0, a1 + h);
  }

  /** udiv1norm returns the exact quotient and remainder. */
  lemma UDiv1NormExact(a1: nat, a0: nat, d: nat)
    requires 0x8000_0000 <= d < LIMB && a1 < d && a0 < LIMB
    ensures var n, w := a1 * 0x1_0000_0000 + a0, UDiv1Norm(a1, a0, d, InverseOf(d));
            w.q == n / d && w.r == n % d && w.q < LIMB && n == w.q * d + w.r && w.r < d
  {
    hide InverseOf, TrialQuotient, UDiv1Norm;
    var n, q, w := a1 * 0x1_0000_0000 + a0, TrialQuotient(a1, a0, d, InverseOf(d)), UDiv1Norm(a1, a0, d, InverseOf(d));
    TrialQuotientClose(a1, a0, d);
    Distribute(q, 1, d);
    QuotientFits(a1, a0, d, q);
    if n - q * d >= d { QuotientFits(a1, a0, d, q + 1); }
    CorrectedIs(a1, a0, d, InverseOf(d), n - q * d);
    DivUnique(n, d, w.q, w.r);
  }

  lemma CorrectedIs(a1: nat, a0: nat, d: nat, dInv: nat, rest: int)
    requires rest == a1 * 0x1_0000_0000 + a0 - TrialQuotient(a1, a0, d, dInv) * d
    requires d < LIMB && TrialQuotient(a1, a0, d, dInv) < 0x1_0000_0000 && 0 <= rest < 2 * d
    requires rest >= d ==> TrialQuotient(a1, a0, d, dInv) + 1 < 0x1_0000_0000
    ensures var q, w := TrialQuotient(a1, a0, d, dInv), UDiv1Norm(a1, a0, d, dInv);
            if rest < d then w.q == q && w.r == rest else w.q == q + 1 && w.r == rest - d
  {
    hide TrialQuotient, Corrected;
    var q := TrialQuotient(a1, a0, d, dInv);
    CorrectedRest(rest, q, d);
    assert UDiv1Norm(a1, a0, d, dInv) == Corrected(q, rest - d, d);
  }

  /** The correction step, for a rest n - q d below 2 d. */
  lemma CorrectedRest(rest: nat, q: nat, d: nat)
    requires d < 0x1_0000_0000 && q < 0x1_0000_0000 && rest < 2 * d
    ensures var w := Corrected(q, rest - d, d);
            if rest < d then w.q == q && w.r == rest else w.q == (q + 1) % 0x1_0000_0000 && w.r == rest - d
  {
    if rest < d {
      DivUnique(rest - d, 0x1_0000_0000_0000_0000, -1, rest - d + 0x1_0000_0000_0000_0000);
      DivUnique(rest - d + 0x1_0000_0000_0000_0000, 0x1_0000_0000, 0xFFFF_FFFF, rest - d + 0x1_0000_0000);
      DivUnique(rest + 0x1_0000_0000, 0x1_0000_0000, 1, rest);
      DivUnique(q + 0x1_0000_0000, 0x1_0000_0000, 1, q);
    } else {
      DivUnique(rest - d, 0x1_0000_0000_0000_0000, 0, rest - d);
      DivUnique(rest - d, 0x1_0000_0000, 0, rest - d);
    }
  }

  // ---------- a whole array divided in place ----------

  /** The divisor b is d shifted up to fill its limb; the dividend is shifted with it. */
  method DivOneNorm(tab: array<nat>, n: nat, b: nat, r0: nat, bInv: nat, shift: nat, ghost d: nat) returns (r: nat)
    requires n <= tab.Length && AreLimbs(tab[..n]) && shift < 32
    requires 0x8000_0000 <= b < LIMB && b == d * Pow(2, shift) && r0 < d && bInv == InverseOf(b)
    modifies tab
    ensures old(Val(tab[..n])) + r0 * Base(n) == Val(tab[..n]) * d + r && r < d
    ensures AreLimbs(tab[..n]) && tab[n..] == old(tab[n..])
  {
    hide Base, Val, Pow, InverseOf;
    r := r0;
    ghost var original, carry: nat := Val(tab[..n]), 0;
    PowStep(2, 0);
    if shift != 0 {
      PowStep(2, shift - 1);
      var c := ShiftLeft(tab, n, shift, 0);
      ShiftedRemainder(r0, d, Pow(2, shift), c);
      r := r0 * Pow(2, shift) + c;
      carry := c;
    }
    ghost var shifted, r1 := Val(tab[..n]), r;
    r := DivLimbs(tab, n, b, r, bInv);
    Unnormalise(original, shifted, Val(tab[..n]), r0, r1, r, d, Pow(2, shift), Base(n), b, carry);
    r := r / Pow(2, shift);
  }

  /** The loop over the limbs, the highest first, for a normalized divisor. */
  method DivLimbs(tab: array<nat>, n: nat, b: nat, r1: nat, bInv: nat) returns (r: nat)
    requires n <= tab.Length && AreLimbs(tab[..n]) && 0x8000_0000 <= b < LIMB && r1 < b && bInv == InverseOf(b)
    modifies tab
    ensures old(Val(tab[..n])) + r1 * Base(n) == Val(tab[..n]) * b + r && r < b
    ensures AreLimbs(tab[..n]) && tab[n..] == old(tab[n..])
  {
    hide Base, Val, DivDone, Pow, InverseOf, UDiv1Norm;
    r := r1;
    ghost var was := tab[..];
    DivStart(b, r);
    assert was[n..n] == [] && tab[n..n] == [];
    var i := n;
    while i > 0
      invariant i <= n && 0 <= r < b && AreLimbs(tab[..n]) && tab[..i] == was[..i] && tab[n..] == was[n..]
      invariant DivDone(was[i..n], tab[i..n], b, r1, r)
    {
      i := i - 1;
      assert tab[i] == tab[..n][i] && tab[i] == tab[..i + 1][i] == was[i];
      UDiv1NormExact(r, tab[i], b);
      var w := UDiv1Norm(r, tab[i], b, bInv);
      ghost var t := tab[..];
      assert t[i + 1..n] == tab[i + 1..n];
      DivNext(was, t, i, n, b, r1, r, w);
      tab[i] := w.q;
      r := w.r;
      assert tab[..] == t[i := w.q] && tab[..][i..n] == tab[i..n];
    }
    assert was[0..n] == was[..n] && tab[0..n] == tab[..n];
    DivFinish(was[..n], tab[..n], b, r1, r);
  }

  /** One more limb divided. */
  lemma DivNext(was: seq<nat>, t: seq<nat>, i: nat, n: nat, b: nat, r1: nat, r: nat, w: QuotRem)
    requires i < n <= |t| == |was| && DivDone(was[i + 1..n], t[i + 1..n], b, r1, r)
    requires r * 0x1_0000_0000 + was[i] == w.q * b + w.r && w.r < b
    ensures DivDone(was[i..n], t[i := w.q][i..n], b, r1, w.r)
  {
    hide DivDone;
    DivStep(was[i + 1..n], t[i + 1..n], b, r1, r, was[i], w.q, w.r);
    assert was[i..n] == [was[i]] + was[i + 1..n] && t[i := w.q][i..n] == [w.q] + t[i + 1..n];
  }

  lemma ShiftedRemainder(r: nat, d: nat, f: nat, c: nat)
    requires r < d && c < f
    ensures r * f + c < d * f
  {
    StrictMonotone(r, d, f);
  }

  /** Dividing f v by f d: the quotient is that of v by d, the remainder is f times its remainder. */
  lemma Unnormalise(v: nat, fv: nat, q: nat, r0: nat, r1: nat, r: nat, d: nat, f: nat, w: nat, b: nat,
                    c: nat)
    requires f > 0 && b == d * f && fv + r1 * w == q * b + r && r < b
    requires fv + c * w == f * v && r1 == r0 * f + c
    ensures v + r0 * w == q * d + r / f && 0 <= r / f < d
  {
    Distribute(r0 * f, c, w);
    assert (r0 * f) * w == (r0 * w) * f;
    Distribute(v, r0 * w, f);
    Assoc(q, d, f);
    var t := v + r0 * w - q * d;
    Distribute(v + r0 * w, q * d, f);
    assert t * f == r;
    if t < 0 { StrictMonotone(t, 0, f); }
    DivUnique(r, f, t, 0);
    if t >= d { Monotone(d, t, f); }
  }
}
