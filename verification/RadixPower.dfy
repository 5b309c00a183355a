/** Powers of the radix: the tables of dtoa.c and scaling a big number by radix^f with a sticky bit. */
module RadixPower {
  import opened Arith
  import opened Powers
  import opened Tracking
  import opened Rounding
  import opened Bits
  import opened Limbs
  import opened LimbBits
  import opened InverseDivision
  import opened Bignum

  const DIGITS_PER_LIMB: seq<nat> :=
    [32, 20, 16, 13, 12, 11, 10, 10, 9, 9, 8, 8, 8, 8, 8, 7, 7, 7, 7, 7, 7, 7, 6, 6, 6, 6, 6, 6, 6, 6, 6, 6, 6, 6, 6]

  const POW5: seq<nat> :=
    [0x00000005, 0x00000019, 0x0000007d, 0x00000271, 0x00000c35, 0x00003d09, 0x0001312d, 0x0005f5e1,
     0x001dcd65, 0x009502f9, 0x02e90edd, 0x0e8d4a51, 0x48c27395, 0x6bcc41e9, 0x1afd498d, 0x86f26fc1,
     0xa2bc2ec5]

  const POW5_HIGH: seq<nat> := [0x1, 0x7, 0x23, 0xb1]

  const POW5_INV: seq<nat> :=
    [0x99999999, 0x47ae147a, 0x0624dd2f, 0xa36e2eb1, 0x4f8b588e, 0x0c6f7a0b, 0xad7f29ab, 0x5798ee23,
     0x12e0be82, 0xb7cdfd9d, 0x5fd7fe17, 0x19799812, 0xc25c2684]

  function Pow5Entry(n: nat): nat
    requires 1 <= n <= 17
  {
    POW5[n - 1] + if n >= 14 then POW5_HIGH[n - 14] * 0x1_0000_0000 else 0
  }

  lemma {:induction false} Pow5Table(n: nat)
    requires 1 <= n <= 17
    ensures Pow(5, n) == Pow5Entry(n)
  {
    hide Pow;
    if n == 1 {
      PowStep(5, 0);
    } else {
      Pow5Table(n - 1);
      PowStep(5, n - 1);
    }
  }

  const POW2: seq<nat> :=
    [0x1, 0x2, 0x4, 0x8, 0x10, 0x20, 0x40, 0x80, 0x100, 0x200, 0x400, 0x800, 0x1000, 0x2000, 0x4000, 0x8000,
     0x10000, 0x20000, 0x40000, 0x80000, 0x100000, 0x200000, 0x400000, 0x800000, 0x1000000, 0x2000000,
     0x4000000, 0x8000000, 0x10000000, 0x20000000, 0x40000000, 0x80000000]

  lemma {:induction false} Pow2Table(n: nat)
    requires n < 32
    ensures Pow(2, n) == POW2[n]
  {
    hide Pow;
    PowStep(2, if n == 0 then 0 else n - 1);
    if n > 0 { Pow2Table(n - 1); }
  }

  /** Only one shift normalises a limb. */
  lemma ShiftUnique(b: nat, s: nat)
    requires 0 < b < LIMB && s < 32 && 0x8000_0000 <= b * Pow(2, s) < LIMB
    ensures s == 32 - BitLength(b)
  {
    hide Pow, BitLength;
    var t := NormalisingShift(b);
    if s < t {
      DoubledShift(b, s, t);
    } else if t < s {
      DoubledShift(b, t, s);
    }
  }

  lemma DoubledShift(b: nat, s: nat, t: nat)
    requires s < t
    ensures b * Pow(2, t) >= 2 * (b * Pow(2, s))
  {
    hide Pow;
    PowMonotone(2, s + 1, t);
    PowStep(2, s);
    Monotone(2 * Pow(2, s), Pow(2, t), b);
  }

  /** The precomputed inverse of 5^n is the one udiv1norm_init would compute, for 5^n shifted up to fill a limb. */
  ghost predicate InverseMatches(n: nat)
    requires 1 <= n <= 13
  {
    var b := Pow5Entry(n);
    0 < b < LIMB && var s := 32 - BitLength(b);
    0 <= s < 32 && 0x8000_0000 <= b * Pow(2, s) < LIMB && POW5_INV[n - 1] == InverseOf(b * Pow(2, s))
  }

  lemma Pow5InverseTable(n: nat)
    requires 1 <= n <= 13
    ensures InverseMatches(n)
  {
    hide *;
    if n <= 4 {
      InversesTo4(n);
    } else if n <= 8 {
      InversesTo8(n);
    } else {
      InversesTo13(n);
    }
  }

  lemma InversesTo4(n: nat)
    requires 1 <= n <= 4
    ensures InverseMatches(n)
  {
    hide Pow, BitLength, InverseOf, InverseMatches;
    if n == 1 {
      InverseEntry(1, 29, 0x20000000, 0xa0000000);
    } else if n == 2 {
      InverseEntry(2, 27, 0x8000000, 0xc8000000);
    } else if n == 3 {
      InverseEntry(3, 25, 0x2000000, 0xfa000000);
    } else if n == 4 {
      InverseEntry(4, 22, 0x400000, 0x9c400000);
    }
  }

  lemma InversesTo8(n: nat)
    requires 5 <= n <= 8
    ensures InverseMatches(n)
  {
    hide Pow, BitLength, InverseOf, InverseMatches;
    if n == 5 {
      InverseEntry(5, 20, 0x100000, 0xc3500000);
    } else if n == 6 {
      InverseEntry(6, 18, 0x40000, 0xf4240000);
    } else if n == 7 {
      InverseEntry(7, 15, 0x8000, 0x98968000);
    } else if n == 8 {
      InverseEntry(8, 13, 0x2000, 0xbebc2000);
    }
  }

  lemma InversesTo13(n: nat)
    requires 9 <= n <= 13
    ensures InverseMatches(n)
  {
    hide Pow, BitLength, InverseOf, InverseMatches;
    if n == 9 {
      InverseEntry(9, 11, 0x800, 0xee6b2800);
    } else if n == 10 {
      InverseEntry(10, 8, 0x100, 0x9502f900);
    } else if n == 11 {
      InverseEntry(11, 6, 0x40, 0xba43b740);
    } else if n == 12 {
      InverseEntry(12, 4, 0x10, 0xe8d4a510);
    } else if n == 13 {
      InverseEntry(13, 1, 0x2, 0x9184e72a);
    }
  }

  lemma InverseEntry(n: nat, s: nat, p: nat, r: nat)
    requires 1 <= n <= 13 && s < 32 && p == POW2[s] && r == POW5[n - 1] * p && 0x8000_0000 <= r < LIMB
    requires POW5_INV[n - 1] == ((LIMB - r - 1) * 0x1_0000_0000 + 0xFFFF_FFFF) / r
    ensures InverseMatches(n)
  {
    hide Pow, BitLength;
    Pow2Table(s);
    ShiftUnique(Pow5Entry(n), s);
  }

  /** Left shift that brings the top bit of a limb to position 31. */
  lemma NormalisingShift(b: nat) returns (s: nat)
    requires 0 < b < LIMB
    ensures s == 32 - BitLength(b) && s < 32 && 0x8000_0000 <= b * Pow(2, s) < LIMB
  {
    hide Pow, BitLength;
    PowersOfTwo();
    var l := BitLength(b);
    BitLengthBounds(b);
    BitLengthAtMost(b, 32);
    s := 32 - l;
    PowAdd(2, l - 1, s);
    PowAdd(2, l, s);
    Monotone(Pow(2, l - 1), b, Pow(2, s));
    StrictMonotone(b, Pow(2, l), Pow(2, s));
  }

  // ---------- pow_ui and pow_ui_inv ----------

  /** One square-and-multiply step on 64-bit words. */
  function SquareMultiply(r: nat, a: nat, bit: bool): nat {
    var sq := (r * r) % 0x1_0000_0000_0000_0000;
    if bit then (sq * a) % 0x1_0000_0000_0000_0000 else sq
  }

  lemma SquareMultiplyExact(r: nat, a: nat, bit: bool, p: nat)
    requires p == r * r * (if bit then a else 1) && p < LIMB2 && a > 0
    ensures SquareMultiply(r, a, bit) == p
  {
    if bit {
      Monotone(1, a, r * r);
      DivUnique(r * r, 0x1_0000_0000_0000_0000, 0, r * r);
      DivUnique(r * r * a, 0x1_0000_0000_0000_0000, 0, r * r * a);
    } else {
      DivUnique(r * r, 0x1_0000_0000_0000_0000, 0, r * r);
    }
  }

  lemma HalvedExponent(a: nat, b: nat, i: nat, r: nat)
    requires a > 0 && r == Pow(a, b / Pow(2, i + 1)) && Pow(a, b) < LIMB2
    ensures 0 <= b / Pow(2, i)
    ensures SquareMultiply(r, a, (b / Pow(2, i)) % 2 == 1) == Pow(a, b / Pow(2, i))
  {
    hide Pow, SquareMultiply;
    var f := Pow(2, i);
    PowStep(2, i);
    var h, low := Cell(b, f);
    DivUnique(b, f, h, low);
    HalvedCell(b, f, h, low);
    var k := h / 2;
    PowAdd(a, k, k);
    PowAdd(a, 2 * k, h % 2);
    PowStep(a, 0);
    QuotientSmaller(b, f, h, low);
    PowMonotone(a, h, b);
    SquareMultiplyExact(r, a, h % 2 == 1, Pow(a, h));
  }

  lemma QuotientSmaller(b: nat, f: nat, h: nat, low: nat)
    requires f > 0 && b == h * f + low
    ensures h <= b
  {
    Monotone(1, f, h);
  }

  method PowUi(a: nat, b: nat) returns (r: nat)
    requires 0 < a < LIMB && Pow(a, b) < LIMB2
    ensures r == Pow(a, b)
  {
    hide Pow, BitLength, SquareMultiply;
    PowStep(a, 0);
    if b == 0 {
      return 1;
    }
    if b == 1 {
      return a;
    }
    if (a == 5 || a == 10) && b <= 17 {
      r := POW5[b - 1];
      if b >= 14 {
        r := r + POW5_HIGH[b - 14] * 0x1_0000_0000;
      }
      Pow5Table(b);
      if a == 10 {
        PowProduct(5, 2, b);
        r := (r * Pow(2, b)) % LIMB2;
      }
      return;
    }
    r := a;
    TopBit(b);
    var i := BitLength(b) - 1;
    while i > 0
      invariant 0 <= i < BitLength(b) && r == Pow(a, b / Pow(2, i))
    {
      i := i - 1;
      HalvedExponent(a, b, i, r);
      r := SquareMultiply(r, a, (b / Pow(2, i)) % 2 == 1);
    }
    PowStep(2, 0);
    DivUnique(b, 1, b, 0);
  }

  lemma TopBit(b: nat)
    requires b > 0
    ensures BitLength(b) > 0 && b / Pow(2, BitLength(b) - 1) == 1
  {
    hide Pow, BitLength;
    BitLengthBounds(b);
    var l := BitLength(b);
    PowStep(2, l - 1);
    DivUnique(b, Pow(2, l - 1), 1, b - Pow(2, l - 1));
  }

  /** a^b shifted up to fill a limb, the shift, and the inverse of the result. */
  method PowUiInv(a: nat, b: nat) returns (r: nat, rInv: nat, shift: nat)
    requires 0 < a < LIMB && Pow(a, b) < LIMB
    ensures shift < 32 && r == Pow(a, b) * Pow(2, shift) && 0x8000_0000 <= r < LIMB && rInv == InverseOf(r)
  {
    hide Pow, BitLength, InverseOf;
    if a == 5 && 1 <= b <= 13 {
      Pow5Table(b);
      r := POW5[b - 1];
      Pow5InverseTable(b);
      shift := 32 - BitLength(r);
      r := r * Pow(2, shift);
      rInv := POW5_INV[b - 1];
    } else {
      var p := PowUi(a, b);
      ghost var s := NormalisingShift(p);
      shift := 32 - BitLength(p);
      r := p * Pow(2, shift);
      rInv := InverseOf(r);
    }
  }

  // ---------- digits per limb ----------

  lemma {:induction false} PowBaseMonotone(a: nat, b: nat, n: nat)
    requires a <= b
    ensures Pow(a, n) <= Pow(b, n)
  {
    hide Pow;
    if n == 0 {
      PowStep(a, 0);
      PowStep(b, 0);
    } else {
      PowBaseMonotone(a, b, n - 1);
      PowStep(a, n - 1);
      PowStep(b, n - 1);
      Monotone(a, b, Pow(a, n - 1));
      Monotone(Pow(a, n - 1), Pow(b, n - 1), b);
    }
  }

  lemma PowersUpTo4(b: nat)
    ensures Pow(b, 1) == b && Pow(b, 2) == b * b && Pow(b, 3) == b * (b * b) && Pow(b, 4) == b * (b * (b * b))
  {
    hide Pow;
    PowStep(b, 0);
    PowStep(b, 1);
    PowStep(b, 2);
    PowStep(b, 3);
  }

  /** A limb's worth of digits, in each odd radix, fits a limb. */
  lemma DigitsFit(radix: nat)
    requires 3 <= radix <= 35 && radix % 2 == 1
    ensures Pow(radix, DIGITS_PER_LIMB[radix - 2]) < LIMB
  {
    hide Pow;
    var d := DIGITS_PER_LIMB[radix - 2];
    if radix >= 24 {
      PowBaseMonotone(radix, 36, 6);
      PowersUpTo4(36);
      PowAdd(36, 4, 2);
    } else if radix >= 17 {
      PowBaseMonotone(radix, 23, 7);
      PowersUpTo4(23);
      PowAdd(23, 4, 3);
    } else if radix >= 12 {
      PowBaseMonotone(radix, 15, 8);
      PowersUpTo4(15);
      PowAdd(15, 4, 4);
    } else if radix == 11 {
      PowersUpTo4(11);
      PowAdd(11, 4, 4);
      PowAdd(11, 8, 1);
    } else if radix == 9 {
      PowersUpTo4(9);
      PowAdd(9, 4, 4);
      PowAdd(9, 8, 2);
    } else if radix == 7 {
      PowersUpTo4(7);
      PowAdd(7, 4, 4);
      PowAdd(7, 8, 3);
    } else if radix == 5 {
      Pow5Table(13);
    } else {
      PowersUpTo4(3);
      PowAdd(3, 4, 4);
      PowAdd(3, 8, 2);
      PowAdd(3, 10, 10);
    }
  }

  predicate OddRadix(radix1: nat) { 1 <= radix1 <= 35 && radix1 % 2 == 1 }

  /** Digits handled per pass; radix 1 never gets that far. */
  function PassDigits(radix1: nat): (d: nat)
    requires OddRadix(radix1) && radix1 > 1
    ensures 0 < d <= 20
  {
    DIGITS_PER_LIMB[radix1 - 2]
  }

  function CeilDiv(f: nat, d: nat): nat
    requires d > 0
  {
    (f + d - 1) / d
  }

  // ---------- multiplication ----------

  /** One limb more for each pass. */
  method MulPasses(a: Mpb, radix1: nat, f: nat)
    requires OddRadix(radix1) && radix1 > 1 && a.Valid()
    requires a.len + CeilDiv(f, PassDigits(radix1)) <= a.tab.Length
    modifies a`len, a.tab
    ensures a.Valid() && a.Value() == old(a.Value()) * Pow(radix1, f)
    ensures a.len <= old(a.len) + CeilDiv(f, PassDigits(radix1))
  {
    hide Pow, Base, Val;
    var d, rest, n0, b := PassDigits(radix1), f, 0, 0;
    ghost var v, room := a.Value(), a.len + CeilDiv(f, d);
    PowStep(radix1, 0);
    while rest != 0
      invariant 0 <= rest <= f && a.Valid() && a.len + CeilDiv(rest, d) <= room <= a.tab.Length
      invariant a.Value() == v * Pow(radix1, f - rest)
      invariant n0 <= d && (n0 > 0 ==> b == Pow(radix1, n0))
      decreases rest
    {
      var n := if rest < d then rest else d;
      DigitsFit(radix1);
      PowMonotone(radix1, n, d);
      if n != n0 {
        b := PowUi(radix1, n);
        n0 := n;
      }
      MulStepValue(v, radix1, f - rest, n);
      PassLimb(rest, d, n);
      MulPass(a, b);
      rest := rest - n;
    }
  }

  lemma MulStepValue(v: nat, radix1: nat, done: nat, n: nat)
    ensures (v * Pow(radix1, done)) * Pow(radix1, n) == v * Pow(radix1, done + n)
  {
    hide Pow;
    PowAdd(radix1, done, n);
    Assoc(v, Pow(radix1, done), Pow(radix1, n));
  }

  lemma PassLimb(rest: nat, d: nat, n: nat)
    requires rest > 0 && d > 0 && n == if rest < d then rest else d
    ensures CeilDiv(rest - n, d) + 1 == CeilDiv(rest, d)
  {
    if rest < d {
      DivUnique(rest + d - 1, d, 1, rest - 1);
      DivUnique(d - 1, d, 0, d - 1);
    } else {
      var q, r := Cell(rest - 1, d);
      Distribute(q, 1, d);
      DivUnique(rest - 1, d, q, r);
      DivUnique(rest + d - 1, d, q + 1, r);
    }
  }

  method MulPass(a: Mpb, b: nat)
    requires a.Valid() && 0 < b < LIMB && a.len < a.tab.Length
    modifies a`len, a.tab
    ensures a.Valid() && a.Value() == old(a.Value()) * b && a.len <= old(a.len) + 1
  {
    hide Val, Base;
    ghost var was := a.tab[..a.len];
    if a.len > 1 { ValTop(was); }
    BaseStep(a.len - 1);
    var h := MulOne(a.tab, a.len, b, 0);
    if h != 0 {
      a.AppendLimb(h);
    } else {
      Monotone(1, b, Val(was));
      if a.len > 1 { TopNonzero(a.tab[..a.len]); }
    }
  }

  // ---------- division with a sticky bit ----------

  /** Dividing twice is dividing once by the product; either way nothing is lost exactly when nothing was lost twice. */
  lemma NestedDivision(v: nat, d: nat, b: nat)
    requires d > 0 && b > 0
    ensures d * b > 0 && v / d / b == v / (d * b)
    ensures v % (d * b) == 0 <==> v % d == 0 && (v / d) % b == 0
  {
    var q, r := Cell(v, d);
    DivUnique(v, d, q, r);
    var q', r' := Cell(q, b);
    DivUnique(q, b, q', r');
    Positive(d, b);
    NestedCell(v, r, d, q, b, q', r');
    DivUnique(v, d * b, q', r + d * r');
    if r' > 0 { Positive(d, r'); }
  }

  /** v divided by radix1^done so far, with lost set if a remainder was dropped. */
  ghost predicate Divided(v: nat, radix1: nat, done: nat, now: nat, lost: bool)
    requires radix1 > 0
  {
    var d := Pow(radix1, done);
    now == v / d && (lost <==> v % d != 0)
  }

  lemma DividedStart(v: nat, radix1: nat)
    requires radix1 > 0
    ensures Divided(v, radix1, 0, v, false)
  {
    hide Pow;
    PowStep(radix1, 0);
  }

  lemma DividedStep(v: nat, radix1: nat, done: nat, was: nat, lost: bool, n: nat, now: nat, r: nat)
    requires radix1 > 0 && Divided(v, radix1, done, was, lost)
    requires was == now * Pow(radix1, n) + r && r < Pow(radix1, n)
    ensures Divided(v, radix1, done + n, now, lost || r != 0)
  {
    hide Pow;
    var d, b := Pow(radix1, done), Pow(radix1, n);
    PowAdd(radix1, done, n);
    DivUnique(was, b, now, r);
    NestedDivision(v, d, b);
  }

  method DivPasses(a: Mpb, radix1: nat, f: nat) returns (lost: bool)
    requires OddRadix(radix1) && radix1 > 1 && a.Valid()
    modifies a`len, a.tab
    ensures a.Valid() && Divided(old(a.Value()), radix1, f, a.Value(), lost) && a.len <= old(a.len)
  {
    hide Pow, Base, Val, Divided, InverseOf;
    var d, rest, n0, b, bInv, shift := PassDigits(radix1), f, 0, 0, 0, 0;
    ghost var v := a.Value();
    lost := false;
    DividedStart(v, radix1);
    while rest != 0
      invariant 0 <= rest <= f && a.Valid() && a.len <= old(a.len)
      invariant Divided(v, radix1, f - rest, a.Value(), lost)
      invariant n0 <= d
      invariant n0 > 0 ==> 0 <= shift < 32 && b == Pow(radix1, n0) * Pow(2, shift) && 0x8000_0000 <= b < LIMB
                           && bInv == InverseOf(b)
      decreases rest
    {
      var n: nat := if rest < d then rest else d;
      DigitsFit(radix1);
      PowMonotone(radix1, n, d);
      if n != n0 {
        b, bInv, shift := PowUiInv(radix1, n);
        n0 := n;
      }
      var r := DivPass(a, b, bInv, shift, Pow(radix1, n));
      DividedStep(v, radix1, f - rest, a.Value() * Pow(radix1, n) + r, lost, n, a.Value(), r);
      lost := lost || r != 0;
      rest := rest - n;
    }
  }

  method DivPass(a: Mpb, b: nat, bInv: nat, shift: nat, ghost d: nat) returns (r: nat)
    requires a.Valid() && shift < 32 && d > 0
    requires 0x8000_0000 <= b < LIMB && b == d * Pow(2, shift) && bInv == InverseOf(b)
    modifies a`len, a.tab
    ensures a.Valid() && a.len <= old(a.len) && old(a.Value()) == a.Value() * d + r && r < d
  {
    hide Val, Base, Pow, InverseOf;
    r := DivOneNorm(a.tab, a.len, b, 0, bInv, shift, d);
    a.Renorm();
  }

  /** tab[0] |= sticky. */
  method OrSticky(a: Mpb, sticky: bool)
    requires a.Valid()
    modifies a.tab
    ensures a.Valid() && a.Value() == Jam(old(a.Value()), sticky) && a.len == old(a.len)
  {
    hide Val;
    ghost var was := a.tab[..a.len];
    ValCons(was, 0);
    assert was[0..] == was;
    if sticky {
      a.tab[0] := Jam(a.tab[0], true);
      ValCons(a.tab[..a.len], 0);
      assert a.tab[..a.len][0..] == a.tab[..a.len];
      assert a.tab[..a.len][1..] == was[1..];
    }
  }

  // ---------- mul_pow ----------

  /** Extra bits the code asks for below the point before dividing. */
  function ExtraBits(isInt: bool, e: int, eOffset: int, log2: int): nat {
    var bits := if isInt then 2 + e - eOffset else e - log2;
    if bits < 0 then 0 else bits
  }

  /** The left shift mul_pow makes before dividing by radix1^f. */
  function DivisionShift(radix1: nat, radixShift: nat, f: nat, isInt: bool, e: int, v: nat): nat
    requires OddRadix(radix1) && radix1 > 1
  {
    var l := CeilDiv(f, PassDigits(radix1));
    l * 32 + ExtraBits(isInt, e, f * radixShift + l * 32, BitLength(v) - 1)
  }

  /** A quotient with its lost remainder in bit 0. */
  function StickyQuotient(n: nat, d: nat): nat
    requires d > 0
  {
    Jam(n / d, n % d != 0)
  }

  /** The value mul_pow leaves and the offset it returns. */
  ghost predicate Scaled(v: nat, radix1: nat, radixShift: nat, f: int, isInt: bool, e: int, now: nat, eOffset: int)
    requires OddRadix(radix1)
  {
    if radix1 == 1 then now == v && eOffset == -f * radixShift
    else if f >= 0 then now == v * Pow(radix1, f) && eOffset == -f * radixShift
    else
      var k := DivisionShift(radix1, radixShift, -f, isInt, e, v);
      now == StickyQuotient(v * Pow(2, k), Pow(radix1, -f)) && eOffset == -f * radixShift + k
  }

  method MulPow(a: Mpb, radix1: nat, radixShift: nat, f: int, isInt: bool, e: int) returns (eOffset: int)
    requires OddRadix(radix1) && a.Valid() && a.Value() > 0
    requires radix1 > 1 && f >= 0 ==> a.len + CeilDiv(f, PassDigits(radix1)) <= a.tab.Length
    requires radix1 > 1 && f < 0 ==>
               a.len + 1 + DivisionShift(radix1, radixShift, -f, isInt, e, a.Value()) / 32 <= a.tab.Length
    modifies a`len, a.tab
    ensures a.Valid() && Scaled(old(a.Value()), radix1, radixShift, f, isInt, e, a.Value(), eOffset)
    ensures radix1 == 1 ==> a.len == old(a.len)
    ensures radix1 > 1 && f >= 0 ==> a.len <= old(a.len) + CeilDiv(f, PassDigits(radix1))
    ensures radix1 > 1 && f < 0 ==>
              a.len <= old(a.len) + 1 + DivisionShift(radix1, radixShift, -f, isInt, e, old(a.Value())) / 32
  {
    hide Pow, Base, Val, Divided, BitLength, StickyQuotient, Jam;
    eOffset := -f * radixShift;
    if radix1 != 1 {
      if f >= 0 {
        MulPasses(a, radix1, f);
      } else {
        ghost var v := a.Value();
        var l: nat := CeilDiv(-f, PassDigits(radix1));
        eOffset := eOffset + l * 32;
        var log2 := a.FloorLog2();
        var extra := ExtraBits(isInt, e, eOffset, log2);
        eOffset := eOffset + extra;
        a.ShrRound(-(l * 32 + extra), RNDZ);
        var lost := DivPasses(a, radix1, -f);
        ghost var quotient := a.Value();
        OrSticky(a, lost);
        StickyIs(v * Pow(2, l * 32 + extra), radix1, -f, quotient, lost);
      }
    }
  }

  lemma StickyIs(v: nat, radix1: nat, f: nat, now: nat, lost: bool)
    requires radix1 > 0 && Divided(v, radix1, f, now, lost)
    ensures Jam(now, lost) == StickyQuotient(v, Pow(radix1, f))
  {
    hide Pow, Jam;
  }
}
