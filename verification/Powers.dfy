/** Powers of a natural base: exact naturals for nonnegative exponents, reals for all of them. */
module Powers {
  import opened Arith

  function Power(b: nat, n: nat): (r: nat)
    ensures b > 0 ==> r > 0
  {
    if n == 0 then 1 else b * Power(b, n - 1)
  }

  /** b^n.  The recursion stays behind this name, so that proofs see one term for each power. */
  function Pow(b: nat, n: nat): (r: nat)
    ensures b > 0 ==> r > 0
  {
    Power(b, n)
  }

  lemma SmallPowersOfTwo()
    ensures Pow(2, 8) == 0x100 && Pow(2, 10) == 0x400 && Pow(2, 16) == 0x1_0000
  {
    assert Pow(2, 4) == 16;
    PowAdd(2, 4, 4);
    PowAdd(2, 8, 2);
    PowAdd(2, 8, 8);
  }

  /** The powers of two of the word and field sizes. */
  lemma PowersOfTwo()
    ensures Pow(2, 10) == 0x400
    ensures Pow(2, 31) == 0x8000_0000
    ensures Pow(2, 32) == 0x1_0000_0000
    ensures Pow(2, 52) == 0x10_0000_0000_0000
    ensures Pow(2, 53) == 0x20_0000_0000_0000
    ensures Pow(2, 54) == 0x40_0000_0000_0000
    ensures Pow(2, 62) == 0x4000_0000_0000_0000
    ensures Pow(2, 63) == 0x8000_0000_0000_0000
    ensures Pow(2, 64) == 0x1_0000_0000_0000_0000
  {
    hide *;
    SmallPowersOfTwo();
    PowAdd(2, 16, 16);
    PowStep(2, 31);
    PowAdd(2, 32, 10);
    PowAdd(2, 42, 10);
    PowStep(2, 52);
    PowStep(2, 53);
    PowAdd(2, 52, 10);
    PowStep(2, 62);
    PowStep(2, 63);
  }

  /** b^k for any integer k. */
  ghost function Scale(b: nat, k: int): real
    requires b > 0
  {
    if k >= 0 then Pow(b, k) as real else 1.0 / (Pow(b, -k) as real)
  }

  lemma ScalePositive(b: nat, k: int)
    requires b > 0
    ensures Scale(b, k) > 0.0
  {}

  lemma PowStep(b: nat, n: nat)
    ensures Pow(b, n + 1) == b * Pow(b, n)
    ensures Pow(b, 0) == 1
    ensures Pow(b, 1) == b
  {
    assert Power(b, 1) == b * Power(b, 0);
  }

  lemma {:induction false} PowAdd(b: nat, m: nat, n: nat)
    ensures Pow(b, m + n) == Pow(b, m) * Pow(b, n)
  {
    hide *;
    PowStep(b, 0);
    if m > 0 {
      PowAdd(b, m - 1, n);
      PowStep(b, m - 1);
      PowStep(b, m - 1 + n);
      Assoc(b, Pow(b, m - 1), Pow(b, n));
    }
  }

  lemma {:induction false} PowMonotone(b: nat, m: nat, n: nat)
    requires b > 0 && m <= n
    ensures Pow(b, m) <= Pow(b, n)
  {
    PowAdd(b, m, n - m);
    Positive(Pow(b, m), Pow(b, n - m));
  }

  lemma {:induction false} PowProduct(a: nat, b: nat, n: nat)
    ensures Pow(a * b, n) == Pow(a, n) * Pow(b, n)
  {
    hide *;
    PowStep(a, 0);
    PowStep(b, 0);
    PowStep(a * b, 0);
    if n > 0 {
      PowProduct(a, b, n - 1);
      PowStep(a, n - 1);
      PowStep(b, n - 1);
      PowStep(a * b, n - 1);
      Swap(a, b, Pow(a, n - 1), Pow(b, n - 1));
    }
  }

  lemma ScaleNat(b: nat, k: nat)
    requires b > 0
    ensures Scale(b, k) == Pow(b, k) as real
  {}

  lemma ScaleZero(b: nat)
    requires b > 0
    ensures Scale(b, 0) == 1.0
  {}

  lemma Reciprocal(b: real, p: real)
    requires b > 0.0 && p > 0.0
    ensures b * p > 0.0 && 1.0 / p == b * (1.0 / (b * p))
  {}

  lemma ScaleStep(b: nat, k: int)
    requires b > 0
    ensures Scale(b, k + 1) == b as real * Scale(b, k)
  {
    hide Pow;
    if k >= 0 {
      PowStep(b, k);
    } else {
      var p := Pow(b, -k - 1);
      PowStep(b, -k - 1);
      PowStep(b, 0);
      Reciprocal(b as real, p as real);
    }
  }

  lemma ScaleInverse(b: nat, k: int)
    requires b > 0
    ensures Scale(b, k) * Scale(b, -k) == 1.0
  {
    if k == 0 {
      assert Scale(b, 0) == 1.0;
    }
  }

  lemma StepUp(w: real, u: real, v: real, v': real, s: real, s': real)
    requires v' == w * v && s' == w * s && s == u * v
    ensures s' == u * v'
  {
    RealAssoc(u, w, v);
  }

  lemma {:induction false} ScaleAddNat(b: nat, j: int, k: nat)
    requires b > 0
    ensures Scale(b, j + k) == Scale(b, j) * Scale(b, k)
  {
    hide Scale, Pow;
    if k == 0 {
      ScaleZero(b);
    } else {
      ScaleAddNat(b, j, k - 1);
      ScaleStep(b, j + k - 1);
      ScaleStep(b, k - 1);
      StepUp(b as real, Scale(b, j), Scale(b, k - 1), Scale(b, k), Scale(b, j + k - 1), Scale(b, j + k));
    }
  }

  lemma ScaleAdd(b: nat, j: int, k: int)
    requires b > 0
    ensures Scale(b, j + k) == Scale(b, j) * Scale(b, k)
  {
    hide Scale, Pow;
    if k >= 0 {
      ScaleAddNat(b, j, k);
    } else {
      ScaleAddNat(b, j + k, -k);
      ScaleInverse(b, k);
      assert j + k + -k == j;
      Regroup(Scale(b, j), Scale(b, j + k), Scale(b, -k), Scale(b, k));
    }
  }

  lemma Regroup(a: real, b: real, c: real, d: real)
    requires a == b * c && d * c == 1.0
    ensures b == a * d
  {
    RealAssoc(b, c, d);
  }

  lemma {:induction false} ScaleMonotone(b: nat, j: int, k: int)
    requires b > 0 && j <= k
    ensures Scale(b, j) <= Scale(b, k)
    decreases k - j
  {
    hide Scale, Pow;
    if j < k {
      ScaleMonotone(b, j, k - 1);
      ScaleStep(b, k - 1);
      ScalePositive(b, k - 1);
      var s := Scale(b, k - 1);
      RealOrder(1.0, b as real, s);
      assert 1.0 * s <= b as real * s;
      assert 1.0 * s == s;
    }
  }

  /** A power of a power. */
  lemma {:induction false} PowerOfPower(b: nat, m: nat, n: nat)
    requires b > 0
    ensures Pow(Pow(b, m), n) == Pow(b, m * n)
  {
    hide Pow;
    if n == 0 {
      PowStep(Pow(b, m), 0);
      PowStep(b, 0);
    } else {
      PowerOfPower(b, m, n - 1);
      PowStep(Pow(b, m), n - 1);
      PowAdd(b, m, m * (n - 1));
      assert m + m * (n - 1) == m * n;
    }
  }
}
