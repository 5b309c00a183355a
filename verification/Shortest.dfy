/** Decimals that read back to a double: the reading interval, and why the nearest decimal is the one to try. */
module Shortest {
  import opened Arith
  import opened Powers
  import opened Rounding
  import opened Binary64
  import opened Scaling
  import opened Log10

  /** d * 10^q. */
  ghost function DecimalValue(d: nat, q: int): real { d as real * Scale(10, q) }

  /** m * 2^(e - 53). */
  ghost function FloatValue(x: Float): real { x.m as real * Scale(2, x.e - 53) }

  /** Reading the real number z, rounded to nearest even, gives the double x. */
  ghost predicate Reads(x: Float, z: real) {
    RoundedTo(NearestEven, PatternOf(x), z * Scale(2, 1074))
  }

  // ---------- the reading interval ----------

  /** The pattern is not at the foot of a binade, so its neighbours are equally far. */
  predicate HasEqualGaps(x: Float) { x.m != TWO52 || x.e <= -1021 }

  lemma PatternParts(x: Float)
    requires ProperFloat(x) && x.m > 0
    ensures var e, r := Binade(x.e), PatternOf(x) - Binade(x.e) * 0x10_0000_0000_0000;
            && 0 < r < TWO53 && (e > 0 ==> r == x.m && r >= TWO52)
            && Mag(PatternOf(x)) == r * Pow(2, e)
            && r as real * Scale(2, e) == FloatValue(x) * Scale(2, 1074)
  {
    hide Mag, Pow, Scale;
    var e, r := Binade(x.e), PatternOf(x) - Binade(x.e) * 0x10_0000_0000_0000;
    ScaleAdd(2, x.e - 53, 1074);
    RealAssoc(x.m as real, Scale(2, x.e - 53), Scale(2, 1074));
    if x.e < -1021 {
      var k := -x.e - 1021;
      PowStep(2, k - 1);
      var f := Pow(2, k);
      DivMod(x.m, f);
      Halved(x.m, f);
      ScaleInverse(2, k);
      ScaleNat(2, k);
      ScaleZero(2);
      UnscaledBy(x.m, r, f, Scale(2, -k));
    }
    MagForm(e, r);
  }

  lemma Halved(m: nat, f: nat)
    requires f >= 2 && 0 < m < TWO53 && m % f == 0
    ensures 0 < m / f < TWO52
  {
    var q, r := Cell(m, f);
    DivUnique(m, f, q, r);
    Monotone(2, f, q);
    if q <= 0 { Monotone(q, 0, f); }
  }

  lemma UnscaledBy(m: nat, r: nat, f: nat, u: real)
    requires m == r * f && f as real * u == 1.0
    ensures m as real * u == r as real
  {
    assert m as real == r as real * f as real;
    RealAssoc(r as real, f as real, u);
  }

  /** Half-gaps around the value of x, in units of 2^-1074. */
  lemma Gaps(x: Float) returns (u: nat)
    requires ProperFloat(x) && x.m > 0
    ensures var p := PatternOf(x);
            && p > 0 && u > 0 && Mag(p) == (p - Binade(x.e) * 0x10_0000_0000_0000) * u
            && Mag(p + 1) == Mag(p) + u
            && (if HasEqualGaps(x) then Mag(p - 1) == Mag(p) - u else 2 * Mag(p - 1) == 2 * Mag(p) - u)
  {
    hide Mag, Pow, Scale, PatternOf;
    PatternParts(x);
    var e, r := Binade(x.e), PatternOf(x) - Binade(x.e) * 0x10_0000_0000_0000;
    MagNeighbours(e, r);
    u := Pow(2, e);
  }

  ghost function Far(a: real, b: real): real { if a < b then b - a else a - b }

  /** Where gaps are equal, whatever is at least as near as a decimal that reads back reads back too. */
  lemma NearerReads(x: Float, z: real, w: real)
    requires ProperFloat(x) && x.m > 0 && HasEqualGaps(x)
    requires Reads(x, z) && Far(w, FloatValue(x)) <= Far(z, FloatValue(x))
    ensures Reads(x, w)
  {
    hide *;
    var u := Gaps(x);
    MagIsValue(x);
    var p, s := PatternOf(x), Scale(2, 1074);
    var zs, ws := z * s, w * s;
    FarScaled(w, z, FloatValue(x), s, Mag(p) as real, ws, zs);
    EqualGapRounds(p, u, zs);
    EqualGapRounds(p, u, ws);
    ReadsIs(x, z, zs);
    ReadsIs(x, w, ws);
  }

  lemma ReadsIs(x: Float, z: real, zs: real)
    requires zs == z * Scale(2, 1074)
    ensures Reads(x, z) <==> RoundedTo(NearestEven, PatternOf(x), zs)
  {}

  /** With equal gaps u, rounding to p is being within half a gap, the ends included when p is even. */
  lemma EqualGapRounds(p: nat, u: nat, w: real)
    requires p > 0 && Mag(p + 1) == Mag(p) + u && Mag(p - 1) == Mag(p) - u
    ensures RoundedTo(NearestEven, p, w) <==>
            2.0 * Far(w, Mag(p) as real) < u as real || (2.0 * Far(w, Mag(p) as real) == u as real && p % 2 == 0)
  {
    hide Mag;
  }

  lemma NearGapRounds(p: nat, u: nat, w: real)
    requires p > 0 && Mag(p + 1) == Mag(p) + u
    requires Mag(p - 1) == Mag(p) - u || 2 * Mag(p - 1) == 2 * Mag(p) - u
    requires 4.0 * Far(w, Mag(p) as real) < u as real
    ensures RoundedTo(NearestEven, p, w)
  {
    hide Mag;
  }

  lemma MagIsValue(x: Float)
    requires ProperFloat(x) && x.m > 0
    ensures Mag(PatternOf(x)) as real == FloatValue(x) * Scale(2, 1074)
  {
    hide Mag, Scale, Pow, PatternOf;
    PatternParts(x);
    ScaleNat(2, Binade(x.e));
    var r := PatternOf(x) - Binade(x.e) * 0x10_0000_0000_0000;
    assert (r * Pow(2, Binade(x.e))) as real == r as real * Pow(2, Binade(x.e)) as real;
  }

  lemma FarScaled(w: real, z: real, v: real, s: real, vs: real, ws: real, zs: real)
    requires Far(w, v) <= Far(z, v)
    requires s == Scale(2, 1074) && vs == v * s && ws == w * s && zs == z * s
    ensures Far(ws, vs) <= Far(zs, vs)
  {
    hide Scale;
    ScalePositive(2, 1074);
    var f, g := Far(w, v), Far(z, v);
    var fs, gs := f * s, g * s;
    FarTimes(w, v, s, ws, vs, fs);
    FarTimes(z, v, s, zs, vs, gs);
    RealOrder(f, g, s);
  }

  lemma FarTimes(a: real, b: real, s: real, sa: real, bs: real, d: real)
    requires s > 0.0 && sa == a * s && bs == b * s && d == Far(a, b) * s
    ensures Far(sa, bs) == d
  {
    RealOrder(a, b, s);
    RealDistribute(a, b, s);
    RealDistribute(b, a, s);
  }

  /** A decimal within 2^-54 of the value, relatively, reads back. */
  lemma CloseReads(x: Float, w: real)
    requires ProperFloat(x) && x.m > 0 && 18014398509481984.0 * Far(w, FloatValue(x)) < FloatValue(x)
    ensures Reads(x, w)
  {
    hide *;
    var u := Gaps(x);
    var p, s, v := PatternOf(x), Scale(2, 1074), FloatValue(x);
    MagIsValue(x);
    ScalePositive(2, 1074);
    var ws := w * s;
    CloseScaled(w, v, s, Mag(p) as real, ws);
    CloseGap(x, p, u);
    if HasEqualGaps(x) {
      EqualGapRounds(p, u, ws);
    } else {
      NearGapRounds(p, u, ws);
    }
    ReadsIs(x, w, ws);
  }

  lemma CloseGap(x: Float, p: nat, u: nat)
    requires ProperFloat(x) && x.m > 0 && p == PatternOf(x) && u > 0
    requires Mag(p) == (p - Binade(x.e) * 0x10_0000_0000_0000) * u
    ensures Mag(p) < 0x20_0000_0000_0000 * u
    ensures !HasEqualGaps(x) ==> Mag(p) == 0x10_0000_0000_0000 * u
  {
    hide Mag, Pow, Scale, PatternOf;
    PatternParts(x);
    GapIsLarge(p - Binade(x.e) * 0x10_0000_0000_0000, u, Mag(p));
  }

  lemma CloseScaled(w: real, v: real, s: real, vs: real, ws: real)
    requires s > 0.0 && vs == v * s && ws == w * s && 18014398509481984.0 * Far(w, v) < v
    ensures 18014398509481984.0 * Far(ws, vs) < vs
  {
    hide Far;
    var d := Far(w, v) * s;
    FarTimes(w, v, s, ws, vs, d);
    RealOrder(18014398509481984.0 * Far(w, v), v, s);
    RealAssoc(18014398509481984.0, Far(w, v), s);
  }

  lemma GapIsLarge(r: nat, u: nat, v: nat)
    requires r < 0x20_0000_0000_0000 && v == r * u && u > 0
    ensures v < 0x20_0000_0000_0000 * u
  {
    StrictMonotone(r, 0x20_0000_0000_0000, u);
  }

  /** At the foot of a binade the interval reaches half as far down as up. */
  ghost predicate NearFoot(w: real, v: real) {
    18014398509481984.0 * (v - w) <= v && 9007199254740992.0 * (w - v) <= v
  }

  lemma FootReads(x: Float, w: real)
    requires ProperFloat(x) && x.m > 0 && !HasEqualGaps(x)
    ensures Reads(x, w) <==> NearFoot(w, FloatValue(x))
  {
    hide *;
    var u := Gaps(x);
    var p, s, v := PatternOf(x), Scale(2, 1074), FloatValue(x);
    MagIsValue(x);
    ScalePositive(2, 1074);
    var ws := w * s;
    CloseGap(x, p, u);
    FootPattern(x);
    FootRounds(p, u, ws);
    FootScaled(w, v, s, Mag(p) as real, ws);
    ReadsIs(x, w, ws);
  }

  lemma FootPattern(x: Float)
    requires ProperFloat(x) && !HasEqualGaps(x)
    ensures PatternOf(x) % 2 == 0
  {
    hide Pow;
    DivUnique(PatternOf(x), 2, (x.e + 1022) * 0x8_0000_0000_0000, 0);
  }

  lemma FootRounds(p: nat, u: nat, w: real)
    requires p > 0 && p % 2 == 0 && Mag(p) == 0x10_0000_0000_0000 * u && u > 0
    requires Mag(p + 1) == Mag(p) + u && 2 * Mag(p - 1) == 2 * Mag(p) - u
    ensures RoundedTo(NearestEven, p, w) <==> NearFoot(w, Mag(p) as real)
  {
    hide Mag;
  }

  lemma FootScaled(w: real, v: real, s: real, vs: real, ws: real)
    requires s > 0.0 && vs == v * s && ws == w * s
    ensures NearFoot(w, v) <==> NearFoot(ws, vs)
  {
    RealDistribute(v, w, s);
    RealDistribute(w, v, s);
    RealAssoc(18014398509481984.0, v - w, s);
    RealAssoc(9007199254740992.0, w - v, s);
    RealOrder(18014398509481984.0 * (v - w), v, s);
    RealOrder(9007199254740992.0 * (w - v), v, s);
  }
}
