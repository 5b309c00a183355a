/** floor(a / log2(10)) by one multiplication, exact over the exponents of doubles. */
module Log10 {
  import opened Arith
  import opened Powers

  /** mul_log2_radix for radix 10: a 24-bit fixed point product shifted down. */
  function MulLog2Radix10(a: int): int { a * 0x4d104d / 0x100_0000 }

  // ---------- two powers that bracket the logarithm ----------

  lemma SquareAbove(n: nat, u: nat, j: nat, x: nat, t: nat, w: nat)
    requires Pow(5, n) <= u * Pow(2, j) && u * u <= x * w && w == Pow(2, t)
    ensures Pow(5, 2 * n) <= x * Pow(2, 2 * j + t)
  {
    hide Pow;
    var p, q := Pow(5, n), Pow(2, j);
    PowAdd(5, n, n);
    PowAdd(2, j, j);
    PowAdd(2, 2 * j, t);
    Monotone(p, u * q, p);
    Monotone(p, u * q, u * q);
    Swap(u, q, u, q);
    Monotone(u * u, x * w, q * q);
    assert (x * w) * (q * q) == x * ((q * q) * w);
  }

  lemma SquareBelow(n: nat, u: nat, j: nat, x: nat, t: nat, w: nat)
    requires Pow(5, n) >= u * Pow(2, j) && u * u >= x * w && w == Pow(2, t)
    ensures Pow(5, 2 * n) >= x * Pow(2, 2 * j + t)
  {
    hide Pow;
    var p, q := Pow(5, n), Pow(2, j);
    PowAdd(5, n, n);
    PowAdd(2, j, j);
    PowAdd(2, 2 * j, t);
    Monotone(u * q, p, p);
    Monotone(u * q, p, u * q);
    Swap(u, q, u, q);
    Monotone(x * w, u * u, q * q);
    assert (x * w) * (q * q) == x * ((q * q) * w);
  }

  lemma SmallPowersOfFive()
    ensures Pow(5, 3) == 125 && Pow(5, 9) == 0x1dcd65 && Pow(5, 20) == 0x56bc75e2d631
  {
    hide Pow;
    PowStep(5, 0);
    PowStep(5, 1);
    PowStep(5, 2);
    PowAdd(5, 3, 3);
    PowAdd(5, 6, 3);
    PowStep(5, 9);
    PowAdd(5, 10, 10);
  }

  /** 5^643 < 2^1493, that is 10^643 < 2^2136. */
  lemma TenBelow()
    ensures Pow(10, 643) < Pow(2, 2136)
  {
    hide Pow;
    SmallPowersOfFive();
    PowersOfTwo();
    PowStep(2, 0);
    SquareAbove(20, 0x56bc75e2d631, 0, 0x1d6329f1c35ca4c0, 32, 0x1_0000_0000);
    SquareAbove(40, 0x1d6329f1c35ca4c0, 32, 0x35f9dea3e1f6be1, 64, 0x1_0000_0000_0000_0000);
    SquareAbove(80, 0x35f9dea3e1f6be1, 128, 0xb616a12b7fe62, 64, 0x1_0000_0000_0000_0000);
    SquareAbove(160, 0xb616a12b7fe62, 320, 0x81842f29f3, 64, 0x1_0000_0000_0000_0000);
    SquareAbove(320, 0x81842f29f3, 704, 0x41867bc8f2da, 32, 0x1_0000_0000);
    PowAdd(5, 640, 3);
    PowAdd(2, 53, 1440);
    ChainAbove(Pow(5, 640), 0x41867bc8f2da, Pow(2, 1440));
    PowProduct(2, 5, 643);
    PowAdd(2, 643, 1493);
    StrictMonotone(Pow(5, 643), Pow(2, 1493), Pow(2, 643));
  }

  lemma ChainAbove(p: nat, u: nat, q: nat)
    requires p <= u * q && u * 125 < 0x20_0000_0000_0000 && q > 0
    ensures p * 125 < 0x20_0000_0000_0000 * q
  {
    StrictMonotone(u * 125, 0x20_0000_0000_0000, q);
  }

  /** 2^339 < 5^146, that is 2^485 < 10^146. */
  lemma TenAbove()
    ensures Pow(2, 485) < Pow(10, 146)
  {
    hide Pow;
    SmallPowersOfFive();
    PowersOfTwo();
    PowStep(2, 0);
    SquareBelow(9, 0x1dcd65, 0, 0x3782dace9d9, 0, 1);
    SquareBelow(18, 0x3782dace9d9, 0, 0xc097ce7bc9071, 32, 0x1_0000_0000);
    SquareBelow(36, 0xc097ce7bc9071, 32, 0x90e40fbeea1d31b708, 32, 0x1_0000_0000);
    PowStep(5, 72);
    SquareBelow(73, 0x2d4744eba9291f89328, 96, 0x802221226be54b393e31d, 64, 0x1_0000_0000_0000_0000);
    PowAdd(2, 53, 30);
    Pow30();
    PowAdd(2, 83, 256);
    ChainBelow(Pow(5, 146), 0x802221226be54b393e31d, Pow(2, 256));
    PowProduct(2, 5, 146);
    PowAdd(2, 146, 339);
    StrictMonotone(Pow(2, 339), Pow(5, 146), Pow(2, 146));
  }

  lemma Pow30()
    ensures Pow(2, 30) == 0x4000_0000
  {
    hide Pow;
    PowersOfTwo();
    PowStep(2, 30);
  }

  lemma ChainBelow(p: nat, u: nat, q: nat)
    requires p >= u * q && u > 0x80000_0000_0000_0000_0000 && q > 0
    ensures p > 0x80000_0000_0000_0000_0000 * q
  {
    StrictMonotone(0x80000_0000_0000_0000_0000, u, q);
  }

  // ---------- comparing powers of ten with powers of two ----------

  /** Powers keep a strict order of their bases. */
  lemma {:induction false} PowStrict(a: nat, b: nat, n: nat)
    requires a < b && n > 0
    ensures Pow(a, n) < Pow(b, n)
  {
    hide Pow;
    PowStep(a, n - 1);
    PowStep(b, n - 1);
    PowStep(a, 0);
    PowStep(b, 0);
    if n > 1 {
      PowStrict(a, b, n - 1);
      StrictMonotone(Pow(a, n - 1), Pow(b, n - 1), b);
      Monotone(a, b, Pow(a, n - 1));
    }
  }

  /** 10^k <= 2^a when k / a is at most 643 / 2136, and strictly when k > 0. */
  lemma TenPowerBelow(k: nat, a: nat)
    requires 2136 * k <= 643 * a
    ensures Pow(10, k) <= Pow(2, a) && (k > 0 ==> Pow(10, k) < Pow(2, a))
  {
    hide Pow;
    PowStep(10, 0);
    if k > 0 {
      TenBelow();
      PowStrict(Pow(10, 643), Pow(2, 2136), k);
      PowerOfPower(10, 643, k);
      PowerOfPower(2, 2136, k);
      PowMonotone(2, 2136 * k, 643 * a);
      if Pow(10, k) >= Pow(2, a) {
        PowBaseOrder(Pow(2, a), Pow(10, k), 643);
        PowerOfPower(10, k, 643);
        PowerOfPower(2, a, 643);
      }
    }
  }

  lemma {:induction false} PowBaseOrder(a: nat, b: nat, n: nat)
    requires a <= b
    ensures Pow(a, n) <= Pow(b, n)
  {
    hide Pow;
    PowStep(a, 0);
    PowStep(b, 0);
    if a < b && n > 0 { PowStrict(a, b, n); }
  }

  /** 2^a <= 10^k when k / a is at least 146 / 485, and strictly when a > 0. */
  lemma TwoPowerBelow(a: nat, k: nat)
    requires 146 * a <= 485 * k
    ensures Pow(2, a) <= Pow(10, k) && (a > 0 ==> Pow(2, a) < Pow(10, k))
  {
    hide Pow;
    PowStep(2, 0);
    if a > 0 {
      TenAbove();
      PowStrict(Pow(2, 485), Pow(10, 146), a);
      PowerOfPower(2, 485, a);
      PowerOfPower(10, 146, a);
      PowMonotone(10, 146 * a, 485 * k);
      if Pow(2, a) >= Pow(10, k) {
        PowBaseOrder(Pow(10, k), Pow(2, a), 485);
        PowerOfPower(2, a, 485);
        PowerOfPower(10, k, 485);
      }
    }
  }

  lemma ScaleReciprocalOrder(b: nat, c: nat, j: int, k: int)
    requires b > 0 && c > 0 && j >= 0 && k >= 0
    ensures Scale(b, -j) <= Scale(c, -k) <==> Pow(c, k) <= Pow(b, j)
    ensures Scale(b, -j) < Scale(c, -k) <==> Pow(c, k) < Pow(b, j)
  {
    hide Pow, Scale;
    ScaleInverse(b, j);
    ScaleInverse(c, k);
    ScaleNat(b, j);
    ScaleNat(c, k);
    ScalePositive(b, -j);
    ScalePositive(c, -k);
    InverseOrder(Scale(b, -j), Scale(b, j), Scale(c, -k), Scale(c, k));
  }

  lemma InverseOrder(x: real, u: real, y: real, v: real)
    requires x > 0.0 && y > 0.0 && u > 0.0 && v > 0.0 && u * x == 1.0 && v * y == 1.0
    ensures x <= y <==> v <= u
    ensures x < y <==> v < u
  {
    RealOrder(x, y, u);
    RealOrder(v, u, y);
    assert u * y == y * u;
  }

  /** The multiplication gives floor(a * log10(2)) for every binary exponent of a double. */
  lemma MulLog2Radix10Exact(a: int)
    requires -2048 <= a <= 2047
    ensures var k := MulLog2Radix10(a); Scale(10, k) <= Scale(2, a) < Scale(10, k + 1)
  {
    hide Pow, Scale;
    var k := MulLog2Radix10(a);
    DivMod(a * 0x4d104d, 0x100_0000);
    if a >= 0 {
      TenPowerBelow(k, a);
      TwoPowerBelow(a, k + 1);
      ScaleNat(10, k);
      ScaleNat(2, a);
      ScaleNat(10, k + 1);
      PowStep(10, k);
      PowStep(2, 0);
    } else {
      TwoPowerBelow(-a, -k);
      TenPowerBelow(-(k + 1), -a);
      ScaleReciprocalOrder(10, 2, -k, -a);
      if k + 1 < 0 {
        ScaleReciprocalOrder(2, 10, -a, -(k + 1));
      } else {
        ScaleZero(10);
        ScaleBelowOne(a);
      }
    }
  }

  lemma ScaleBelowOne(a: int)
    requires a < 0
    ensures Scale(2, a) < 1.0
  {
    hide Pow, Scale;
    ScaleStep(2, a);
    ScaleMonotone(2, a + 1, 0);
    ScaleZero(2);
    ScalePositive(2, a);
  }
}
