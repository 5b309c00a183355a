/** Reading single bits and sticky bits of a limb sequence. */
module LimbBits {
  import opened Arith
  import opened Powers
  import opened Rounding
  import opened Bits
  import opened Limbs

  /** v / 2^k for a sequence: drop k / 32 limbs, then divide. */
  lemma DropLimbs(s: seq<nat>, l: nat) returns (low: nat)
    requires l <= |s| && AreLimbs(s)
    ensures low == Val(s[..l]) && low < Base(l) && Val(s) == low + Base(l) * Val(s[l..])
  {
    hide Base, Val;
    low := Val(s[..l]);
    ValSplit(s, l);
    ValBound(s[..l]);
  }

  function BitAt(v: nat, k: nat): nat { (v / Pow(2, k)) % 2 }

  /** Whether any bit below position k is set. */
  predicate BitsBelow(v: nat, k: nat) { v % Pow(2, k) != 0 }

  lemma BitSplit(v: nat, k: nat, h: nat, b: nat, r: nat)
    requires v == (2 * h + b) * Pow(2, k) + r && b < 2 && r < Pow(2, k)
    ensures BitAt(v, k) == b && (BitsBelow(v, k) <==> r != 0)
  {
    hide Pow;
    PowStep(2, k);
    DivUnique(v, Pow(2, k), 2 * h + b, r);
  }

  /** Bit k of limb l. */
  lemma LimbBit(s: seq<nat>, l: nat, k: nat)
    requires AreLimbs(s) && l < |s| && k < 32
    ensures (s[l] / Pow(2, k)) % 2 == BitAt(Val(s), 32 * l + k)
    ensures BitsBelow(Val(s), 32 * l + k) <==> Val(s[..l]) != 0 || s[l] % Pow(2, k) != 0
  {
    hide Base, Val, Pow, BitAt, BitsBelow;
    var low := DropLimbs(s, l);
    ValCons(s, l);
    var f, g := Pow(2, k), Pow(2, 31 - k);
    PowersOfTwo();
    PowAdd(2, k, 31 - k);
    BaseIsPowerOfTwo(l);
    PowAdd(2, 32 * l, k);
    var t, r := Cell(s[l], f);
    DivUnique(s[l], f, t, r);
    var h, b := t / 2 + g * Val(s[l + 1..]), t % 2;
    PositionOf(Val(s), low, Base(l), s[l], Val(s[l + 1..]), f, g, t, r, h, b);
    BitSplit(Val(s), 32 * l + k, h, b, low + Base(l) * r);
    if r > 0 { Positive(Base(l), r); }
  }

  lemma PositionOf(v: nat, low: nat, w: nat, x: nat, up: nat, f: nat, g: nat, t: nat, r: nat, h: nat, b: nat)
    requires v == low + w * (x + 0x1_0000_0000 * up) && low < w && f * g == 0x8000_0000
    requires x == t * f + r && r < f && h == t / 2 + g * up && b == t % 2
    ensures v == (2 * h + b) * (w * f) + (low + w * r) && low + w * r < w * f
  {
    assert 2 * h + b == t + 2 * (g * up);
    UpperPart(t, f, g, up);
    assert x + 0x1_0000_0000 * up == (2 * h + b) * f + r;
    Distribute((2 * h + b) * f, r, w);
    assert (2 * h + b) * f * w == (2 * h + b) * (w * f);
    StrictMonotone(r, f, w);
  }

  lemma UpperPart(t: nat, f: nat, g: nat, up: nat)
    requires f * g == 0x8000_0000
    ensures (t + 2 * (g * up)) * f == t * f + 0x1_0000_0000 * up
  {
    Distribute(t, 2 * (g * up), f);
    assert (g * up) * f == (f * g) * up;
  }

  lemma BitBeyond(s: seq<nat>, l: nat, k: nat)
    requires AreLimbs(s) && l >= |s|
    ensures BitAt(Val(s), 32 * l + k) == 0 && Val(s) < Pow(2, 32 * l + k)
    ensures BitsBelow(Val(s), 32 * l + k) <==> Val(s) != 0
  {
    hide Base, Val, Pow;
    ValBound(s);
    BaseIsPowerOfTwo(|s|);
    PowMonotone(2, 32 * |s|, 32 * l + k);
    DivUnique(Val(s), Pow(2, 32 * l + k), 0, Val(s));
  }

  lemma {:induction false} AllZero(s: seq<nat>)
    ensures Val(s) == 0 <==> forall i | 0 <= i < |s| :: s[i] == 0
  {
    if |s| > 0 {
      AllZero(s[1..]);
      assert forall i | 1 <= i < |s| :: s[i] == s[1..][i - 1];
    }
  }

  // ---------- rounding a shift from its bits ----------

  datatype Rnd = RNDN | RNDNA | RNDZ

  function DirectionOfRnd(rnd: Rnd): Direction {
    match rnd
    case RNDN => NearestEven
    case RNDNA => NearestAway
    case RNDZ => Toward
  }

  /** The increment the code decides on from the bit below the cut, the ones below it, and the one above. */
  function RoundUp(v: nat, shift: nat, rnd: Rnd): nat
    requires shift > 0
  {
    match rnd
    case RNDZ => 0
    case RNDNA => BitAt(v, shift - 1)
    case RNDN =>
      if BitAt(v, shift - 1) == 0 then 0 else if BitsBelow(v, shift - 1) then 1 else BitAt(v, shift)
  }

  lemma RoundUpCorrect(v: nat, shift: nat, rnd: Rnd)
    requires shift > 0
    ensures RoundedQuotient(DirectionOfRnd(rnd), v / Pow(2, shift) + RoundUp(v, shift, rnd), v as real, Pow(2, shift))
  {
    hide Pow;
    var u := Pow(2, shift - 1);
    PowStep(2, shift - 1);
    var t, r := Cell(v, u);
    DivUnique(v, u, t, r);
    HalvedCell(v, u, t, r);
    RoundedFromHalf(rnd, v, u, t / 2, t % 2, r, RoundUp(v, shift, rnd));
  }

  lemma HalvedCell(v: nat, u: nat, t: nat, r: nat)
    requires u > 0 && v == t * u + r && r < u
    ensures v / (2 * u) == t / 2 && v == t / 2 * (2 * u) + (t % 2) * u + r
  {
    HalvedParts(v, u, t / 2, t % 2, r);
  }

  lemma HalvedParts(v: nat, u: nat, q: nat, b: nat, r: nat)
    requires u > 0 && b < 2 && r < u && v == (2 * q + b) * u + r
    ensures v / (2 * u) == q && v == q * (2 * u) + b * u + r
  {
    var d, x, y := 2 * u, q * (2 * u), b * u;
    TimesParts(q, b, u);
    assert y < d - r by { if b == 0 { assert y == 0; } else { assert y == u; } }
    DivUnique(v, d, q, y + r);
  }

  lemma TimesParts(q: nat, b: nat, u: nat)
    ensures (2 * q + b) * u == q * (2 * u) + b * u
  {
    Distribute(2 * q, b, u);
    Assoc(q, 2, u);
    assert 2 * q == q * 2;
  }

  lemma RoundedFromHalf(rnd: Rnd, v: nat, u: nat, q: nat, b: nat, r: nat, up: nat)
    requires u > 0 && v == q * (2 * u) + b * u + r && b < 2 && r < u
    requires match rnd
             case RNDZ => up == 0
             case RNDNA => up == b
             case RNDN => up == if b == 0 then 0 else if r != 0 then 1 else q % 2
    ensures RoundedQuotient(DirectionOfRnd(rnd), q + up, v as real, 2 * u)
  {
    Distribute(q, up, 2 * u);
    if b == 0 { assert b * u == 0; } else { assert b * u == u; }
  }
}
