/**
 Binary64 magnitudes and what IEEE 754 means by a correctly rounded one.

 A magnitude is the 63 low bits of a double, read as a number.  Mag gives its value in units of
 2^-1074, so every finite double is an integer.  Patterns at and above INF are read as if the
 exponent range went on: Mag(INF) is the value 2^1024 at which section 4.3 lets results overflow.
 */
module Binary64 {
  import opened Arith
  import opened Powers
  import opened Rounding

  const TWO52: nat := 0x10_0000_0000_0000
  const TWO53: nat := 0x20_0000_0000_0000
  const TWO63: nat := 0x8000_0000_0000_0000
  const INF: nat := 0x7FF0_0000_0000_0000
  const QNAN: nat := 0x7FF8_0000_0000_0000

  datatype RoundingMode = RNE | RTZ | RDN | RUP | RMM

  function DirectionOf(rm: RoundingMode, negative: bool): Direction {
    match rm
    case RNE => NearestEven
    case RMM => NearestAway
    case RTZ => Toward
    case RDN => if negative then Away else Toward
    case RUP => if negative then Toward else Away
  }

  function Mag(p: nat): nat {
    var e, f := p / 0x10_0000_0000_0000, p % 0x10_0000_0000_0000;
    if e == 0 then f else (TWO52 + f) * Pow(2, e - 1)
  }

  /** p is x rounded in direction d, with no bound on the exponent. */
  ghost predicate RoundedTo(d: Direction, p: nat, x: real) {
    match d
    case Toward => Mag(p) as real <= x < Mag(p + 1) as real
    case Away => x <= Mag(p) as real && (p > 0 ==> Mag(p - 1) as real < x)
    case NearestEven =>
      && 2.0 * x <= (Mag(p) + Mag(p + 1)) as real
      && (2.0 * x == (Mag(p) + Mag(p + 1)) as real ==> p % 2 == 0)
      && (p > 0 ==> 2.0 * x >= (Mag(p - 1) + Mag(p)) as real)
      && (p > 0 && 2.0 * x == (Mag(p - 1) + Mag(p)) as real ==> p % 2 == 0)
    case NearestAway =>
      && 2.0 * x < (Mag(p) + Mag(p + 1)) as real
      && (p > 0 ==> 2.0 * x >= (Mag(p - 1) + Mag(p)) as real)
  }

  /** p is the binary64 magnitude of the exact magnitude x rounded in direction d. */
  ghost predicate Rounded(d: Direction, p: nat, x: real) {
    if p < INF - 1 then RoundedTo(d, p, x)
    else if p == INF - 1 then
      match d
      case Toward => Mag(p) as real <= x
      case _ => RoundedTo(d, p, x)
    else
      && p == INF
      && match d
         case Toward => false
         case Away => Mag(INF - 1) as real < x
         case _ => 2.0 * x >= (Mag(INF - 1) + Mag(INF)) as real
  }

  ghost predicate CorrectlyRounded(rm: RoundingMode, negative: bool, p: nat, x: real) {
    Rounded(DirectionOf(rm, negative), p, x)
  }

  // ---------- the shape of Mag ----------

  lemma MagFields(e: nat, f: nat)
    requires f < TWO52
    ensures Mag(e * 0x10_0000_0000_0000 + f) == if e == 0 then f else (TWO52 + f) * Pow(2, e - 1)
  {
    hide Pow;
    DivUnique(e * 0x10_0000_0000_0000 + f, 0x10_0000_0000_0000, e, f);
  }

  /** Exponent e and significand r, the hidden bit counted in r; r = 2^53 carries into the exponent. */
  lemma MagForm(e: nat, r: nat)
    requires r <= TWO53 && (e > 0 ==> r >= TWO52)
    ensures Mag(e * 0x10_0000_0000_0000 + r) == r * Pow(2, e)
  {
    hide Pow, Mag;
    PowStep(2, e);
    if r < TWO52 {
      MagFields(0, r);
    } else if r < TWO53 {
      MagFields(e + 1, r - TWO52);
    } else {
      MagFields(e + 2, 0);
      Assoc(TWO52, 2, Pow(2, e));
    }
  }

  lemma MagSplit(p: nat) returns (e: nat, r: nat)
    ensures p == e * 0x10_0000_0000_0000 + r && r < TWO53 && (e > 0 ==> r >= TWO52)
    ensures Mag(p) == r * Pow(2, e)
  {
    DivMod(p, 0x10_0000_0000_0000);
    if p < TWO53 {
      e, r := 0, p;
    } else {
      e, r := p / 0x10_0000_0000_0000 - 1, TWO52 + p % 0x10_0000_0000_0000;
    }
    MagForm(e, r);
  }

  lemma MagStep(p: nat)
    ensures Mag(p) < Mag(p + 1)
  {
    hide Mag, Pow;
    var e, r := MagSplit(p);
    MagForm(e, r + 1);
    StrictMonotone(r, r + 1, Pow(2, e));
  }

  lemma {:induction false} MagMonotone(p: nat, q: nat)
    requires p <= q
    ensures Mag(p) + (q - p) <= Mag(q)
    decreases q
  {
    hide Mag;
    if p < q {
      MagMonotone(p, q - 1);
      MagStep(q - 1);
    }
  }

  /** The value above p, and the one below it; at the foot of a binade that gap is half as wide. */
  lemma MagNeighbours(e: nat, r: nat)
    requires r <= TWO53 && (e > 0 ==> r >= TWO52)
    ensures r < TWO53 ==> Mag(e * 0x10_0000_0000_0000 + r + 1) == r * Pow(2, e) + Pow(2, e)
    ensures r == TWO53 ==> Mag(e * 0x10_0000_0000_0000 + r + 1) == r * Pow(2, e) + 2 * Pow(2, e)
    ensures r > 0 && (e == 0 || r > TWO52) ==>
              Mag(e * 0x10_0000_0000_0000 + r - 1) == r * Pow(2, e) - Pow(2, e)
    ensures e > 0 && r == TWO52 ==>
              2 * Mag(e * 0x10_0000_0000_0000 + r - 1) == 2 * (r * Pow(2, e)) - Pow(2, e)
  {
    hide Pow, Mag;
    var v := Pow(2, e);
    Distribute(r, 1, v);
    if r < TWO53 {
      MagForm(e, r + 1);
    } else {
      TopOfBinade(e);
    }
    if r > 0 && (e == 0 || r > TWO52) {
      MagForm(e, r - 1);
    } else if e > 0 {
      FootOfBinade(e);
    }
  }

  lemma TopOfBinade(e: nat)
    ensures Mag(e * 0x10_0000_0000_0000 + TWO53 + 1) == TWO53 * Pow(2, e) + 2 * Pow(2, e)
  {
    hide Pow, Mag;
    MagForm(e + 1, TWO52 + 1);
    PowStep(2, e);
  }

  lemma FootOfBinade(e: nat)
    requires e > 0
    ensures 2 * Mag(e * 0x10_0000_0000_0000 + TWO52 - 1) == 2 * (TWO52 * Pow(2, e)) - Pow(2, e)
  {
    hide Pow, Mag;
    MagForm(e - 1, TWO53 - 1);
    PowStep(2, e - 1);
  }

  // ---------- from an integer rounding to a pattern ----------

  /** x = (y / u) * v compares with halves of v as y does with halves of u. */
  lemma HalfOrder(r: int, j: int, x: real, y: real, u: nat, v: nat)
    requires u > 0 && v > 0 && x * u as real == y * v as real
    ensures SameSide(r * v, v, x, r * u, u, y, j)
  {
    var k := 2 * r + j;
    Distribute(2 * r, j, u);
    Distribute(2 * r, j, v);
    var U, V := u as real, v as real;
    CrossOrder(2.0 * x, 2.0 * y, k as real, U, V);
    assert (k * v) as real == k as real * V;
    assert (k * u) as real == k as real * U;
  }

  lemma CrossOrder(a: real, b: real, k: real, u: real, v: real)
    requires u > 0.0 && v > 0.0 && a * u == b * v
    ensures a < k * v <==> b < k * u
    ensures a == k * v <==> b == k * u
  {
    RealOrder(a, k * v, u);
    RealOrder(b, k * u, v);
    RealAssoc(k, v, u);
    RealAssoc(k, u, v);
  }

  /** Where x lies among the halves of v around rv is where y lies among those of u around ru. */
  ghost predicate SameHalves(rv: int, v: int, x: real, ru: int, u: int, y: real) {
    && SameSide(rv, v, x, ru, u, y, -2) && SameSide(rv, v, x, ru, u, y, -1)
    && SameSide(rv, v, x, ru, u, y, 0)
    && SameSide(rv, v, x, ru, u, y, 1) && SameSide(rv, v, x, ru, u, y, 2)
  }

  ghost predicate SameSide(rv: int, v: int, x: real, ru: int, u: int, y: real, j: int) {
    && (2.0 * x < (2 * rv + j * v) as real <==> 2.0 * y < (2 * ru + j * u) as real)
    && (2.0 * x == (2 * rv + j * v) as real <==> 2.0 * y == (2 * ru + j * u) as real)
  }

  lemma HalvesAgree(r: int, x: real, y: real, u: nat, v: nat)
    requires u > 0 && v > 0 && x * u as real == y * v as real
    ensures SameHalves(r * v, v, x, r * u, u, y)
  {
    HalfOrder(r, -2, x, y, u, v);
    HalfOrder(r, -1, x, y, u, v);
    HalfOrder(r, 0, x, y, u, v);
    HalfOrder(r, 1, x, y, u, v);
    HalfOrder(r, 2, x, y, u, v);
  }

  /** The neighbours of p in terms of its own value and gap. */
  ghost predicate HasGap(p: nat, value: int, gap: nat, top: bool, foot: bool) {
    && Mag(p) == value
    && Mag(p + 1) == (if top then value + 2 * gap else value + gap)
    && (p > 0 ==> if foot then 2 * Mag(p - 1) == 2 * value - gap else Mag(p - 1) == value - gap)
  }

  lemma RoundsAmongNeighbours(d: Direction, p: nat, r: nat, rv: int, v: nat, x: real, ru: int, u: nat, y: real,
                              top: bool, foot: bool)
    requires v > 0 && u > 0 && SameHalves(rv, v, x, ru, u, y) && HasGap(p, rv, v, top, foot)
    requires p % 2 == r % 2 && RoundedParts(d, r, y, ru, u)
    requires foot ==> y >= ru as real
    requires top ==> y <= ru as real
    ensures RoundedTo(d, p, x)
  {
    hide Mag;
  }

  lemma GapOf(e: nat, r: nat)
    requires r <= TWO53 && (e > 0 ==> r >= TWO52)
    ensures HasGap(e * 0x10_0000_0000_0000 + r, r * Pow(2, e), Pow(2, e), r == TWO53, e > 0 && r == TWO52)
  {
    hide Mag, Pow;
    MagForm(e, r);
    MagNeighbours(e, r);
  }

  /** Rounding the significand to an integer rounds the number to a pattern. */
  lemma SignificandRounds(d: Direction, e: nat, r: nat, y: real, u: nat, x: real)
    requires u > 0 && x * u as real == y * Pow(2, e) as real
    requires RoundedQuotient(d, r, y, u)
    requires r <= TWO53 && (e > 0 ==> r >= TWO52 && y >= (0x10_0000_0000_0000 * u) as real)
    requires y < (0x20_0000_0000_0000 * u) as real && y >= 0.0
    ensures RoundedTo(d, e * 0x10_0000_0000_0000 + r, x)
  {
    hide Mag, Pow, SameHalves, RoundedTo, RoundedParts, HasGap;
    GapOf(e, r);
    var v: nat := Pow(2, e);
    HalvesAgree(r, x, y, u, v);
    var p, rv, ru := e * 0x10_0000_0000_0000 + r, r * v, r * u;
    assert r == TWO52 ==> ru == 0x10_0000_0000_0000 * u;
    assert r == TWO53 ==> ru == 0x20_0000_0000_0000 * u;
    RoundsAmongNeighbours(d, p, r, rv, v, x, ru, u, y, r == TWO53, e > 0 && r == TWO52);
  }

  // ---------- what correct rounding gives ----------

  /** Overflow: outside the range, the bounded result is the largest double or infinity. */
  lemma ClampRounded(d: Direction, p: nat, x: real)
    requires RoundedTo(d, p, x)
    ensures Rounded(d, if p < INF then p else if d == Toward then INF - 1 else INF, x)
  {
    hide Mag;
    if p >= INF {
      MagMonotone(INF - 1, p - 1);
      MagMonotone(INF, p);
      MagStep(INF - 1);
    }
  }

  /** Rounding is a function: at most one pattern is correct. */
  lemma RoundedUnique(d: Direction, p: nat, q: nat, x: real)
    requires Rounded(d, p, x) && Rounded(d, q, x)
    ensures p == q
  {
    hide Mag;
    if p < q {
      RoundedOrder(d, p, q, x);
    } else if q < p {
      RoundedOrder(d, q, p, x);
    }
  }

  lemma RoundedOrder(d: Direction, p: nat, q: nat, x: real)
    requires p < q && Rounded(d, p, x)
    ensures !Rounded(d, q, x)
  {
    hide Mag;
    if q <= INF {
      MagMonotone(p, q - 1);
      MagMonotone(p + 1, q);
    }
  }

  ghost function Distance(x: real, p: nat): real {
    if x < Mag(p) as real then Mag(p) as real - x else x - Mag(p) as real
  }

  /** No finite double is nearer than a finite result of either nearest mode. */
  lemma NearestIsClosest(d: Direction, p: nat, x: real, q: nat)
    requires (d == NearestEven || d == NearestAway) && Rounded(d, p, x) && p < INF
    ensures Distance(x, p) <= Distance(x, q)
  {
    hide Mag;
    if q < p {
      MagMonotone(q, p - 1);
      MagStep(p - 1);
    } else if q > p {
      MagMonotone(p + 1, q);
      MagStep(p);
    }
  }

  /** A representable value rounds to itself in every direction. */
  lemma ExactRounds(d: Direction, p: nat)
    requires p < INF
    ensures Rounded(d, p, Mag(p) as real)
  {
    hide Mag;
    MagStep(p);
    if p > 0 { MagStep(p - 1); }
  }
}
