/** Newton's integer square root, and the correctly rounded square root built on it. */
module SoftSqrt {
  import opened Arith
  import opened Powers
  import opened Tracking
  import opened Rounding
  import opened Binary64
  import opened Bits
  import opened SoftFloat
  import opened SoftMul
  import opened SoftDiv

  /** s is the integer square root of a. */
  ghost predicate IsRoot(s: nat, a: nat) { s * s <= a && Covers(s, a) }

  /** s is at least the integer square root of a. */
  ghost predicate Covers(s: nat, a: nat) { a < (s + 1) * (s + 1) }

  /** The first guess is 2^StartBits; clz is undefined at zero, so a1 = 1 and a = 1 are left out. */
  function StartBits(a1: nat, a0: nat): nat
    requires a1 != 1 && (a1 == 0 ==> a0 > 1)
  {
    ((if a1 != 0 then 64 + BitLength(a1 - 1) else BitLength(a0 - 1)) + 1) / 2
  }

  /** From any positive guess, one step does not fall below the root. */
  lemma NewtonAbove(a: nat, s: nat)
    requires s > 0
    ensures var v := (a / s + s) / 2 + 1; v * v > a
  {
    var q, r := Cell(a, s);
    DivUnique(a, s, q, r);
    var v := (q + s) / 2 + 1;
    Distribute(q, 1, s);
    MeansInequality(q + 1, s, v);
  }

  lemma MeansInequality(x: nat, y: nat, v: nat)
    requires x + y <= 2 * v
    ensures x * y <= v * v
  {
    var d := v - y;
    assert x <= v + d;
    Monotone(x, v + d, y);
    assert (v + d) * (v - d) == v * v - d * d;
    assert d * d >= 0;
  }

  /** A step that does not move down starts at or below the root. */
  lemma NewtonStop(a: nat, s: nat)
    requires s > 0 && (a / s + s) / 2 >= s
    ensures s * s <= a
  {
    var q, r := Cell(a, s);
    DivUnique(a, s, q, r);
    Monotone(s, q, s);
  }

  lemma SquareOfNext(s: nat)
    ensures (s + 1) * (s + 1) == s * s + 2 * s + 1
  {}

  /** A guess whose successor squares above a also keeps the dividend's high word below it. */
  lemma HighWordBelow(a1: nat, s: nat)
    requires s <= TWO63 && (s + 1) * (s + 1) > a1 * 0x1_0000_0000_0000_0000 && a1 > 0
    ensures a1 < s
  {
    SquareOfNext(s);
    Monotone(s, 0x8000_0000_0000_0000, s);
    if a1 >= s {
      Monotone(s, a1, 0x1_0000_0000_0000_0000);
    }
  }

  /** The sum in the Newton step stays within a word. */
  lemma SumFits(a: nat, s: nat, q: nat)
    requires 0 < s <= TWO63 && q * s <= a && a < 0x3FFF_FFFF_FFFF_FFFF_FFFF_FFFF_FFFF_FFFF
    requires a < (s + 1) * (s + 1) || (4 <= s <= TWO62 && a < s * s + 0x1_0000_0000_0000_0000)
    ensures q + s < TWO64
  {
    SquareOfNext(s);
    if q + s >= TWO64 {
      if s <= TWO62 {
        Monotone(0xC000_0000_0000_0000, q, s);
        Monotone(s, 0x4000_0000_0000_0000, s);
      } else if s < TWO63 - 1 {
        Monotone(s + 3, q, s);
        Distribute(s, 3, s);
      } else if s == TWO63 - 1 {
        Monotone(0x8000_0000_0000_0001, q, s);
      } else {
        Monotone(0x8000_0000_0000_0000, q, s);
      }
    }
  }

  lemma StartAbove(a1: nat, a0: nat)
    requires a1 != 1 && (a1 == 0 ==> a0 > 1) && a1 < TWO62 && IsBits(a0)
    ensures var u := Pow(2, StartBits(a1, a0));
            && 0 < u <= TWO63 && u * u >= a1 * 0x1_0000_0000_0000_0000 && (a1 == 0 ==> u * u >= a0)
            && (u < TWO63 ==> u <= TWO62) && (a1 > 0 ==> u >= 4)
  {
    hide Pow, BitLength;
    var m := if a1 != 0 then a1 - 1 else a0 - 1;
    var n, h := BitLength(m), StartBits(a1, a0);
    var l := if a1 != 0 then 64 + n else n;
    BitLengthBounds(m);
    PowersOfTwo();
    BitLengthAtMost(m, if a1 != 0 then 62 else 64);
    PowAdd(2, h, h);
    PowMonotone(2, l, 2 * h);
    PowMonotone(2, h, 63);
    if h < 63 { PowMonotone(2, h, 62); }
    if a1 != 0 {
      PowMonotone(2, 32, h);
      PowAdd(2, n, 64);
      Monotone(a1, Pow(2, n), 0x1_0000_0000_0000_0000);
    }
  }

  /** What every guess u keeps: it is the first one, or its successor squares above a. */
  ghost predicate Guess(a: nat, a1: nat, start: nat, u: nat) {
    && 0 < u <= TWO63 && a1 * 0x1_0000_0000_0000_0000 < (u + 1) * (u + 1)
    && (a < (u + 1) * (u + 1) ||
        (u == start && 4 <= u <= TWO62 && a < u * u + 0x1_0000_0000_0000_0000))
    && (u == start || (u < start && a < (start + 1) * (start + 1)))
  }

  lemma FirstGuess(a1: nat, a0: nat)
    requires a1 != 1 && (a1 == 0 ==> a0 > 1) && a1 < TWO62 && IsBits(a0)
    requires a1 * 0x1_0000_0000_0000_0000 + a0 < 0x3FFF_FFFF_FFFF_FFFF_FFFF_FFFF_FFFF_FFFF
    ensures var u := Pow(2, StartBits(a1, a0)); Guess(a1 * 0x1_0000_0000_0000_0000 + a0, a1, u, u)
  {
    hide Pow, StartBits;
    StartAbove(a1, a0);
    var u := Pow(2, StartBits(a1, a0));
    SquareOfNext(u);
    if u == TWO63 {
      assert u * u == 0x4000_0000_0000_0000_0000_0000_0000_0000;
    }
  }

  /** One Newton step from guess s to u: it ends at s, or goes down to another guess. */
  lemma NewtonStep(a: nat, a1: nat, start: nat, s: nat)
    requires Guess(a, a1, start, s) && a1 * 0x1_0000_0000_0000_0000 <= a
    requires 0 < a < 0x3FFF_FFFF_FFFF_FFFF_FFFF_FFFF_FFFF_FFFF
    ensures a1 > 0 ==> a1 < s
    ensures a / s + s < TWO64
    ensures var u := (a / s + s) / 2;
            if u >= s then IsRoot(s, a) <==> Covers(start, a) else u > 0 && Guess(a, a1, start, u)
  {
    if a1 > 0 { HighWordBelow(a1, s); }
    var q, r := Cell(a, s);
    DivUnique(a, s, q, r);
    SumFits(a, s, q);
    NewtonAbove(a, s);
    var u := (q + s) / 2;
    if u >= s {
      NewtonStop(a, s);
    } else if a >= (s + 1) * (s + 1) {
      LowGuessStops(a, s, q, r);
    } else {
      Monotone(s + 1, start + 1, s + 1);
      Monotone(s + 1, start + 1, start + 1);
    }
  }

  lemma LowGuessStops(a: nat, s: nat, q: nat, r: nat)
    requires s > 0 && a == q * s + r && r < s && a >= (s + 1) * (s + 1)
    ensures q >= s
  {
    SquareOfNext(s);
    if q < s { Monotone(q, s, s); }
  }

  /**
   sqrtrem_u without a double-word type.  Its comment 2^l >= a holds only for a zero low word; the
   result is the integer root exactly when the first guess is not too low.  The one dividend of 126
   bits shut out makes q + s wrap to zero, and the next division fails its assertion.
   */
  method SqrtRemU(a1: nat, a0: nat) returns (s: nat, inexact: bool)
    requires a1 != 1 && (a1 == 0 ==> a0 != 1) && a1 < TWO62 && IsBits(a0)
    requires a1 * 0x1_0000_0000_0000_0000 + a0 < 0x3FFF_FFFF_FFFF_FFFF_FFFF_FFFF_FFFF_FFFF
    ensures IsBits(s) && inexact == (s * s != a1 * 0x1_0000_0000_0000_0000 + a0)
    ensures a1 == a0 == 0 ==> s == 0
    ensures a1 + a0 > 0 ==>
              var u := Pow(2, StartBits(a1, a0));
              IsRoot(s, a1 * 0x1_0000_0000_0000_0000 + a0)
              <==> Covers(u, a1 * 0x1_0000_0000_0000_0000 + a0)
  {
    hide Pow, StartBits, Guess, IsRoot, Covers;
    if a1 == 0 && a0 == 0 {
      return 0, false;
    }
    s := NewtonRoot(a1, a0);
    inexact := SquareDiffers(s, a1, a0);
  }

  /** Newton's iteration from the first guess down. */
  method NewtonRoot(a1: nat, a0: nat) returns (s: nat)
    requires a1 != 1 && (a1 == 0 ==> a0 > 1) && a1 < TWO62 && IsBits(a0)
    requires a1 * 0x1_0000_0000_0000_0000 + a0 < 0x3FFF_FFFF_FFFF_FFFF_FFFF_FFFF_FFFF_FFFF
    ensures IsBits(s)
    ensures var u := Pow(2, StartBits(a1, a0));
            IsRoot(s, a1 * 0x1_0000_0000_0000_0000 + a0)
            <==> Covers(u, a1 * 0x1_0000_0000_0000_0000 + a0)
  {
    hide Pow, StartBits, Guess, IsRoot, Covers;
    var u: nat := Pow(2, StartBits(a1, a0));
    ghost var start: nat, a: nat := u, a1 * 0x1_0000_0000_0000_0000 + a0;
    FirstGuess(a1, a0);
    while true
      invariant Guess(a, a1, start, u)
      decreases u
    {
      s := u;
      NewtonStep(a, a1, start, s);
      GuessBits(a, a1, start, s);
      var q, r := DivRemU(a1, a0, s);
      QuotientIs(a, s, q, r);
      u := (q + s) % 0x1_0000_0000_0000_0000 / 2;
      if u >= s { break; }
    }
  }

  lemma QuotientIs(a: nat, s: nat, q: nat, r: nat)
    requires s > 0 && a == q * s + r && r < s && a / s + s < TWO64
    ensures q == a / s && (q + s) % 0x1_0000_0000_0000_0000 == q + s
  {
    DivUnique(a, s, q, r);
  }

  method SquareDiffers(s: nat, a1: nat, a0: nat) returns (differs: bool)
    requires IsBits(s) && IsBits(a1) && IsBits(a0)
    ensures differs == (s * s != a1 * 0x1_0000_0000_0000_0000 + a0)
  {
    hide MulU;
    var w := MulU(s, s);
    MulUExact(s, s);
    differs := w.lo != a0 || w.hi != a1;
  }

  lemma GuessBits(a: nat, a1: nat, start: nat, s: nat)
    requires Guess(a, a1, start, s)
    ensures 0 < s <= TWO63
  {}

  /** With a zero low word, as sqrt_sf calls it, the first guess is never too low. */
  lemma StartHighForZeroLow(a1: nat)
    requires 1 < a1 < TWO62
    ensures var u := Pow(2, StartBits(a1, 0)); Covers(u, a1 * 0x1_0000_0000_0000_0000)
  {
    hide Pow, StartBits;
    StartAbove(a1, 0);
    SquareOfNext(Pow(2, StartBits(a1, 0)));
  }

  /** A low word the comment overlooks: the root of 2^66 + 2^63 is above the first guess 2^33. */
  lemma StartTooLow()
    ensures var u := Pow(2, StartBits(4, 0x8000_0000_0000_0000));
            !Covers(u, 4 * 0x1_0000_0000_0000_0000 + 0x8000_0000_0000_0000)
  {
    assert BitLength(3) == 2;
    assert StartBits(4, 0x8000_0000_0000_0000) == 33;
    hide Pow, StartBits;
    PowersOfTwo();
    PowStep(2, 32);
  }

  // ---------- square root ----------

  ghost predicate IsRealRoot(x: real, v: real) { x >= 0.0 && x * x == v }

  /** The magnitude p in units of 2^-2148, those of squares of units of 2^-1074. */
  ghost function Radicand(p: nat): real { Mag(p) as real * Scale(2, 1074) }

  /** The even exponent and the significand with its root's leading bit at position 62. */
  function RootOperand(p: nat): (o: Operand)
    requires 0 < p < INF
  {
    NormalOperandValue(p);
    var o := NormalOperand(p);
    var e := o.exp - 1023;
    var odd := e % 2;
    Operand((e - odd) / 2 + 1023, o.mant * (if odd == 1 then 2 else 1) * 256)
  }

  lemma RootOperandValue(p: nat)
    requires 0 < p < INF
    ensures var o := RootOperand(p);
            && 0x1000_0000_0000_0000 <= o.mant < TWO62
            && o.mant as real * Scale(2, 64) * Scale(2, 2 * o.exp - 22) == Radicand(p)
  {
    hide Mag, Scale, NormalOperand, Pow;
    NormalOperandValue(p);
    var o := NormalOperand(p);
    var odd := (o.exp - 1023) % 2;
    RootScale(o.mant, o.exp, odd, RootOperand(p).mant, RootOperand(p).exp, Mag(p));
  }

  lemma RootScale(m: nat, e: int, odd: nat, n: nat, f: int, x: nat)
    requires odd <= 1 && 2 * f == e - odd + 1023 && n == m * (if odd == 1 then 2 else 1) * 256
    requires x as real == m as real * Scale(2, e - 1)
    ensures n as real * Scale(2, 64) * Scale(2, 2 * f - 22) == x as real * Scale(2, 1074)
  {
    hide Scale, Pow;
    OddFactor(m, odd, n);
    ScaleAdd(2, 8 + odd, 64);
    ScaleAdd(2, 72 + odd, 2 * f - 22);
    ScaleAdd(2, e - 1, 1074);
    RealAssoc(m as real, Scale(2, 8 + odd), Scale(2, 64));
    RealAssoc(m as real, Scale(2, 72 + odd), Scale(2, 2 * f - 22));
    RealAssoc(m as real, Scale(2, e - 1), Scale(2, 1074));
  }

  lemma OddFactor(m: nat, odd: nat, n: nat)
    requires odd <= 1 && n == m * (if odd == 1 then 2 else 1) * 256
    ensures n as real == m as real * Scale(2, 8 + odd)
  {
    hide Scale, Pow;
    SmallPowersOfTwo();
    PowStep(2, 8);
    ScaleNat(2, 8 + odd);
  }

  lemma OrderOfSquares(a: real, b: real)
    requires a >= 0.0 && b >= 0.0
    ensures a < b <==> a * a < b * b
    ensures a == b <==> a * a == b * b
  {
    RealDistribute(a, b, a + b);
    assert (a - b) * (a + b) == a * a - b * b;
    if a + b > 0.0 {
      RealOrder(a - b, 0.0, a + b);
      assert 0.0 * (a + b) == 0.0;
    }
  }

  lemma RealSquare(s: nat)
    ensures (s * s) as real == s as real * s as real
  {}

  /** The integer root with its inexact bit keeps the place of what lies from it to the next. */
  lemma BetweenTracks(s: nat, inexact: bool, y: real)
    requires if inexact then s as real < y < (s + 1) as real else y == s as real
    ensures Tracks(Jam(s, inexact), y, 2)
  {}

  lemma RootRange(s: nat, a: nat)
    requires IsRoot(s, a)
    requires 0x1000_0000_0000_0000_0000_0000_0000_0000 <= a < 0x4000_0000_0000_0000_0000_0000_0000_0000
    ensures 0x4000_0000_0000_0000 <= s < 0x8000_0000_0000_0000
  {
    if s < 0x4000_0000_0000_0000 {
      SquareBelow(s + 1, 0x4000_0000_0000_0000);
    } else if s >= 0x8000_0000_0000_0000 {
      SquareBelow(0x8000_0000_0000_0000, s);
    }
  }

  lemma SquareBelow(x: nat, y: nat)
    requires x <= y
    ensures x * x <= y * y
  {
    Monotone(x, y, x);
    Monotone(x, y, y);
  }

  ghost predicate RootResult(o: Operand, s: nat, inexact: bool, rm: RoundingMode, clz0: int, x: real)
    requires s < 0x8000_0000_0000_0000
  {
    IsRoundedResult(Normalize(false, o.exp, Jam(s, inexact), rm, clz0), rm, false, x)
  }

  lemma ProductNonnegative(x: real, f: real)
    requires x >= 0.0 && f > 0.0
    ensures x * f >= 0.0
  {}

  lemma UnscaleBy(x: real, y: real, k: int)
    requires y == x * Scale(2, k)
    ensures x == y * Scale(2, -k)
  {
    hide *;
    ScaleInverse(2, k);
    RealAssoc(x, Scale(2, k), Scale(2, -k));
  }

  // ---------- the root by its square ----------

  /** lo and hi enclose the square root of v, as their squares show: both are it, or it lies between them. */
  ghost predicate Encloses(lo: real, hi: real, v: real) {
    0.0 <= lo <= hi && if lo == hi then lo * lo == v else lo * lo < v < hi * hi
  }

  ghost predicate Between(x: real, lo: real, hi: real) { if lo == hi then x == lo else lo < x < hi }

  /** The square root of v is rounded: every number is, between two that enclose it. */
  ghost predicate RoundedRoot(bits: nat, rm: RoundingMode, v: real) {
    exists lo, hi :: Encloses(lo, hi, v) && AllRound(bits, rm, lo, hi)
  }

  ghost predicate AllRound(bits: nat, rm: RoundingMode, lo: real, hi: real) {
    forall x: real | Between(x, lo, hi) :: IsRoundedResult(bits, rm, false, x)
  }

  /** So is the root itself. */
  lemma RoundedRootIs(bits: nat, rm: RoundingMode, v: real, x: real)
    requires RoundedRoot(bits, rm, v) && IsRealRoot(x, v)
    ensures IsRoundedResult(bits, rm, false, x)
  {
    hide IsRoundedResult;
    var lo, hi :| Encloses(lo, hi, v) && AllRound(bits, rm, lo, hi);
    OrderOfSquares(lo, x);
    OrderOfSquares(x, hi);
    assert Between(x, lo, hi);
  }

  lemma ScaledSquares(s: nat, f: real, g: real, w: nat, v: real)
    requires g > 0.0 && g == f * f && v == w as real * g && IsRoot(s, w)
    ensures s * s == w ==> (s as real * f) * (s as real * f) == v
    ensures s * s != w ==> (s as real * f) * (s as real * f) < v < ((s + 1) as real * f) * ((s + 1) as real * f)
  {
    var a, b, c := s as real, (s + 1) as real, w as real;
    RealSquare(s);
    RealSquare(s + 1);
    var x, y := a * a, b * b;
    SquareOfProduct(a, f);
    SquareOfProduct(b, f);
    assert s * s == w ==> x == c;
    assert s * s != w ==> x < c;
    assert c < y;
    OrderedProducts(x, c, y, g);
  }

  lemma OrderedProducts(a: real, b: real, c: real, g: real)
    requires g > 0.0
    ensures a < b <==> a * g < b * g
    ensures b < c <==> b * g < c * g
  {
    RealOrder(a, b, g);
    RealOrder(b, c, g);
  }

  lemma SquareOfProduct(a: real, f: real)
    ensures (a * f) * (a * f) == (a * a) * (f * f)
  {
    SwapReal(a, f, a, f);
  }

  lemma RootOperandSquare(o: Operand, w: nat, v: real)
    requires w == o.mant * 0x1_0000_0000_0000_0000
    requires v == o.mant as real * Scale(2, 64) * Scale(2, 2 * o.exp - 22)
    ensures v == w as real * Scale(2, 2 * o.exp - 22)
    ensures Scale(2, 2 * o.exp - 22) == Scale(2, o.exp - 11) * Scale(2, o.exp - 11)
  {
    hide Scale, Pow;
    ScaleAdd(2, o.exp - 11, o.exp - 11);
    PowersOfTwo();
    ScaleNat(2, 64);
  }

  /** Between the scaled integer root and the next integer everything rounds alike. */
  lemma AlikeRounds(o: Operand, s: nat, inexact: bool, x: real, lo: real, hi: real, rm: RoundingMode, clz0: int)
    requires 0x4000_0000_0000_0000 <= s < 0x8000_0000_0000_0000
    requires lo == s as real * Scale(2, o.exp - 11) && hi == (s + 1) as real * Scale(2, o.exp - 11)
    requires if inexact then lo < x < hi else x == lo
    ensures RootResult(o, s, inexact, rm, clz0, x)
  {
    hide Scale, Normalize, IsRoundedResult, Tracks, RootResult;
    var f, y := Scale(2, o.exp - 11), x * Scale(2, 11 - o.exp);
    ScalePositive(2, o.exp - 11);
    UnscaleBy(x, y, 11 - o.exp);
    assert x == y * f by { assert -(11 - o.exp) == o.exp - 11; }
    RealOrder(s as real, y, f);
    RealOrder(y, (s + 1) as real, f);
    RootPlaced(o, s, inexact, y, x, rm, clz0);
  }

  lemma RootPlaced(o: Operand, s: nat, inexact: bool, y: real, x: real, rm: RoundingMode, clz0: int)
    requires 0x4000_0000_0000_0000 <= s < 0x8000_0000_0000_0000 && x == y * Scale(2, o.exp - 11)
    requires if inexact then s as real < y < (s + 1) as real else y == s as real
    ensures RootResult(o, s, inexact, rm, clz0, x)
  {
    hide Scale, Normalize, IsRoundedResult, Tracks;
    BetweenTracks(s, inexact, y);
    JamSize(s, inexact);
    NormalizeCorrect(false, o.exp, Jam(s, inexact), rm, clz0, y, x);
  }

  lemma JamSize(s: nat, inexact: bool)
    requires 0x4000_0000_0000_0000 <= s < 0x8000_0000_0000_0000
    ensures 0x4000_0000_0000_0000 <= Jam(s, inexact) < 0x8000_0000_0000_0000
  {}

  lemma EnclosesRoot(s: nat, f: real, g: real, w: nat, v: real, lo: real, up: real)
    requires f > 0.0 && g > 0.0 && g == f * f && v == w as real * g && IsRoot(s, w)
    requires lo == s as real * f && up == (s + 1) as real * f
    ensures lo < up && Encloses(lo, if s * s != w then up else lo, v)
  {
    hide IsRoot;
    ScaledSquares(s, f, g, w, v);
    RealOrder(s as real, (s + 1) as real, f);
    ProductNonnegative(s as real, f);
  }

  /** The ends that enclose the root of an operand. */
  lemma RootEnds(o: Operand, s: nat, w: nat, v: real) returns (lo: real, up: real)
    requires w == o.mant * 0x1_0000_0000_0000_0000 && IsRoot(s, w)
    requires v == o.mant as real * Scale(2, 64) * Scale(2, 2 * o.exp - 22)
    ensures lo == s as real * Scale(2, o.exp - 11) && up == (s + 1) as real * Scale(2, o.exp - 11)
    ensures lo < up && Encloses(lo, if s * s != w then up else lo, v)
  {
    hide *;
    var f := Scale(2, o.exp - 11);
    ScalePositive(2, o.exp - 11);
    var g := Scale(2, 2 * o.exp - 22);
    ScalePositive(2, 2 * o.exp - 22);
    RootOperandSquare(o, w, v);
    lo, up := s as real * f, (s + 1) as real * f;
    EnclosesRoot(s, f, g, w, v, lo, up);
  }

  lemma RootEnclosed(o: Operand, s: nat, inexact: bool, w: nat, v: real, rm: RoundingMode, clz0: int, bits: nat)
    requires 0x4000_0000_0000_0000 <= s < 0x8000_0000_0000_0000
    requires bits == Normalize(false, o.exp, Jam(s, inexact), rm, clz0)
    requires w == o.mant * 0x1_0000_0000_0000_0000 && IsRoot(s, w) && inexact == (s * s != w)
    requires v == o.mant as real * Scale(2, 64) * Scale(2, 2 * o.exp - 22)
    ensures RoundedRoot(bits, rm, v)
  {
    hide *;
    var lo, up := RootEnds(o, s, w, v);
    EnclosedAlike(o, s, inexact, lo, up, rm, clz0, bits);
    RoundedRootBy(bits, rm, v, lo, if inexact then up else lo);
  }

  lemma RoundedRootBy(bits: nat, rm: RoundingMode, v: real, lo: real, hi: real)
    requires Encloses(lo, hi, v) && AllRound(bits, rm, lo, hi)
    ensures RoundedRoot(bits, rm, v)
  {}

  lemma EnclosedAlike(o: Operand, s: nat, inexact: bool, lo: real, up: real, rm: RoundingMode, clz0: int, bits: nat)
    requires 0x4000_0000_0000_0000 <= s < 0x8000_0000_0000_0000 && lo < up
    requires lo == s as real * Scale(2, o.exp - 11) && up == (s + 1) as real * Scale(2, o.exp - 11)
    requires bits == Normalize(false, o.exp, Jam(s, inexact), rm, clz0)
    ensures AllRound(bits, rm, lo, if inexact then up else lo)
  {
    hide Scale, Normalize, IsRoundedResult;
    forall x: real | Between(x, lo, if inexact then up else lo) ensures IsRoundedResult(bits, rm, false, x) {
      AlikeRounds(o, s, inexact, x, lo, up, rm, clz0);
    }
  }

  method SqrtSf(a: nat, rm: RoundingMode, clz0: int) returns (res: nat)
    requires IsBits(a)
    ensures IsFinite(a) && !Negative(a) && a != 0 ==> RoundedRoot(res, rm, Radicand(a))
    ensures Magnitude(a) == 0 || a == INF ==> res == a
    ensures (Negative(a) && Magnitude(a) != 0) || Magnitude(a) > INF ==> res == QNAN
  {
    hide Radicand, Scale, Normalize, RoundedRoot, RootOperand, IsRoot, Covers, Pow, StartBits;
    var p := Magnitude(a);
    if ExponentField(p) == 0x7FF {
      return if MantissaField(p) != 0 || Negative(a) then QNAN else a;
    }
    if Negative(a) {
      return if p == 0 then a else QNAN;
    }
    assert p == a;
    if p == 0 {
      return Pack(false, 0, 0);
    }
    var o := RootOperand(p);
    RootOperandValue(p);
    StartHighForZeroLow(o.mant);
    var s, inexact := SqrtRemU(o.mant, 0);
    RootRange(s, o.mant * 0x1_0000_0000_0000_0000);
    res := Normalize(false, o.exp, Jam(s, inexact), rm, clz0);
    RootEnclosed(o, s, inexact, o.mant * 0x1_0000_0000_0000_0000, Radicand(p), rm, clz0, res);
  }
}
