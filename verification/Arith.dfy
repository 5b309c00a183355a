/** Small facts about multiplication and division, kept apart so that proofs can name the step they need. */
module Arith {

  lemma Swap(a: int, b: int, c: int, d: int)
    ensures (a * b) * (c * d) == (a * c) * (b * d)
  {
    assert (a * b) * (c * d) == a * (b * (c * d));
    assert b * (c * d) == c * (b * d);
    assert a * (c * (b * d)) == (a * c) * (b * d);
  }

  lemma Assoc(a: int, b: int, c: int)
    ensures (a * b) * c == a * (b * c)
    ensures b * (a * c) == a * (b * c)
  {}

  lemma Distribute(a: int, b: int, c: int)
    ensures (a + b) * c == a * c + b * c
    ensures (a - b) * c == a * c - b * c
  {}

  lemma Monotone(a: int, b: int, c: int)
    requires a <= b && c >= 0
    ensures a * c <= b * c
  {}

  lemma Positive(a: int, b: int)
    requires a > 0 && b > 0
    ensures a * b > 0
    ensures a * b >= a && a * b >= b
  {}

  lemma StrictMonotone(a: int, b: int, c: int)
    requires a < b && c > 0
    ensures a * c < b * c
    ensures a * c + c <= b * c
  {
    Distribute(b, a, c);
    Distribute(b - a, 1, c);
    Monotone(1, b - a, c);
  }

  lemma RealAssoc(a: real, b: real, c: real)
    ensures (a * b) * c == a * (b * c)
    ensures b * (a * c) == a * (b * c)
  {}

  lemma RealDistribute(a: real, b: real, c: real)
    ensures (a + b) * c == a * c + b * c
    ensures (a - b) * c == a * c - b * c
  {}

  lemma RealPositive(a: real, b: real)
    requires a > 0.0 && b > 0.0
    ensures a * b > 0.0
  {}

  lemma RealNegate(a: real, b: real)
    ensures (-a) * b == -(a * b)
  {}

  lemma CancelFactor(w: real, a: real, b: real)
    requires w != 0.0 && w * a == w * b
    ensures a == b
  {
    assert w * (a - b) == 0.0;
  }

  /** Multiplying by a positive factor keeps every comparison. */
  lemma RealOrder(a: real, b: real, c: real)
    requires c > 0.0
    ensures a < b <==> a * c < b * c
    ensures a <= b <==> a * c <= b * c
    ensures a == b <==> a * c == b * c
  {
    var d := b - a;
    RealDistribute(b, a, c);
    if d > 0.0 {
      RealPositive(d, c);
    } else if d < 0.0 {
      RealPositive(-d, c);
      RealNegate(d, c);
    } else {
      assert d * c == 0.0;
    }
  }

  /** Euclidean division is determined by its equation. */
  lemma DivUnique(n: int, d: int, q: int, r: int)
    requires d > 0 && n == q * d + r && 0 <= r < d
    ensures n / d == q && n % d == r
  {
    var q', r' := n / d, n % d;
    DivMod(n, d);
    if q' < q {
      StrictMonotone(q', q, d);
    } else if q' > q {
      StrictMonotone(q, q', d);
    }
  }

  lemma Cell(n: int, d: int) returns (q: int, r: int)
    requires d > 0
    ensures n == q * d + r && 0 <= r < d
    ensures n >= 0 ==> q >= 0
  {
    q, r := n / d, n % d;
  }

  lemma DivMod(n: int, d: int)
    requires d > 0
    ensures n == n / d * d + n % d
    ensures 0 <= n % d < d
  {}
}
