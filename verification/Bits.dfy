/** Bit lengths: what clz measures. */
module Bits {
  import opened Arith
  import opened Powers

  function BitLength(a: nat): nat {
    if a == 0 then 0 else 1 + BitLength(a / 2)
  }

  lemma {:induction false} BitLengthBounds(a: nat)
    requires a > 0
    ensures BitLength(a) > 0
    ensures Pow(2, BitLength(a) - 1) <= a < Pow(2, BitLength(a))
  {
    if a == 1 {
      assert BitLength(1) == 1 + BitLength(0);
    } else {
      BitLengthBounds(a / 2);
      PowStep(2, BitLength(a / 2) - 1);
      PowStep(2, BitLength(a / 2));
    }
  }

  lemma BitLengthIs(a: nat, n: nat)
    requires n > 0 && Pow(2, n - 1) <= a < Pow(2, n)
    ensures BitLength(a) == n
  {
    hide *;
    BitLengthBounds(a);
    var l := BitLength(a);
    if l < n {
      PowMonotone(2, l, n - 1);
    } else if n < l {
      PowMonotone(2, n, l - 1);
    }
  }

  lemma BitLengthAtMost(a: nat, n: nat)
    requires a < Pow(2, n)
    ensures BitLength(a) <= n
  {
    hide *;
    if a == 0 {
      BitLengthZero();
    } else {
      BitLengthBounds(a);
      if BitLength(a) > n { PowMonotone(2, n, BitLength(a) - 1); }
    }
  }

  lemma BitLengthZero()
    ensures BitLength(0) == 0
  {}

  lemma BitLengthAtLeast(a: nat, n: nat)
    requires a >= Pow(2, n)
    ensures BitLength(a) > n
  {
    hide *;
    BitLengthBounds(a);
    if BitLength(a) <= n { PowMonotone(2, BitLength(a), n); }
  }
}
