/**
 Sticky ("jammed") integers.  An integer m tracks an exact real y at granularity g when the two lie
 in the same place with respect to every multiple of g: both equal to one, or strictly between
 the same two neighbours.
 */
module Tracking {
  import opened Arith

  ghost predicate Tracks(m: int, y: real, g: nat)
    requires g > 0
  {
    var lo := m / g * g;
    if m % g == 0 then y == m as real else lo as real < y < (lo + g) as real
  }

  /** Dropped bits ored into bit 0 of what remains. */
  function Jam(q: nat, sticky: bool): (r: nat)
  {
    if sticky && q % 2 == 0 then q + 1 else q
  }

  /** A multiple of g compares with y exactly as it compares with m. */
  lemma TracksCompare(m: int, y: real, g: nat, k: int)
    requires g > 0 && Tracks(m, y, g)
    ensures y < (k * g) as real <==> m < k * g
    ensures y > (k * g) as real <==> m > k * g
  {
    var q := m / g;
    DivMod(m, g);
    if q < k {
      StrictMonotone(q, k, g);
    } else if k < q {
      StrictMonotone(k, q, g);
    }
  }

  lemma TracksExact(m: int, g: nat)
    requires g > 0
    ensures Tracks(m, m as real, g)
  {
    hide *;
    var q, r := Cell(m, g);
    TracksCell(m, m as real, g, q, r);
  }

  /** How a cell is recognised once quotient and remainder are known. */
  lemma TracksCell(m: int, y: real, g: nat, q: int, r: int)
    requires g > 0 && m == q * g + r && 0 <= r < g
    ensures Tracks(m, y, g) <==>
              if r == 0 then y == (q * g) as real else (q * g) as real < y < (q * g + g) as real
  {
    DivUnique(m, g, q, r);
  }

  /** A coarser granularity asks for less. */
  lemma TracksCoarser(m: int, y: real, g: nat, c: nat, h: nat)
    requires g > 0 && h > 0 && h == g * c && Tracks(m, y, g)
    ensures Tracks(m, y, h)
  {
    hide *;
    var q, r := Cell(m, h);
    MultipleOrder(m, y, g, c, q);
    MultipleOrder(m, y, g, c, q + 1);
    Distribute(q, 1, h);
    TracksCell(m, y, h, q, r);
  }

  lemma MultipleOrder(m: int, y: real, g: nat, c: nat, k: int)
    requires g > 0 && Tracks(m, y, g)
    ensures y < (k * (g * c)) as real <==> m < k * (g * c)
    ensures y > (k * (g * c)) as real <==> m > k * (g * c)
  {
    hide *;
    TracksCompare(m, y, g, k * c);
    assert (k * c) * g == k * (g * c);
  }

  lemma CellScaled(lo: int, y: real, g: nat, c: nat)
    requires c > 0
    ensures lo as real < y < (lo + g) as real <==> (lo * c) as real < y * c as real < (lo * c + g * c) as real
    ensures y == lo as real <==> y * c as real == (lo * c) as real
  {
    var z := c as real;
    Distribute(lo, g, c);
    RealOrder(lo as real, y, z);
    RealOrder(y, (lo + g) as real, z);
    assert (lo * c) as real == lo as real * z;
    assert ((lo + g) * c) as real == (lo + g) as real * z;
  }

  lemma TracksScaled(m: int, y: real, g: nat, c: nat)
    requires g > 0 && c > 0 && Tracks(m, y, g)
    ensures g * c > 0 && Tracks(m * c, y * c as real, g * c)
  {
    hide *;
    Positive(g, c);
    var q, r := Cell(m, g);
    Distribute(q * g, r, c);
    Assoc(q, g, c);
    StrictMonotone(r, g, c);
    if r > 0 { Positive(r, c); }
    CellScaled(q * g, y, g, c);
    TracksCell(m, y, g, q, r);
    TracksCell(m * c, y * c as real, g * c, q, r * c);
  }

  /** Adding a multiple of g to both, or subtracting both from one. */
  lemma TracksShifted(m: int, y: real, g: nat, k: int)
    requires g > 0 && Tracks(m, y, g)
    ensures Tracks(m + k * g, y + (k * g) as real, g)
    ensures Tracks(k * g - m, (k * g) as real - y, g)
  {
    hide *;
    var q, r := Cell(m, g);
    TracksCell(m, y, g, q, r);
    Distribute(q, k, g);
    Distribute(k, q, g);
    TracksCell(m + k * g, y + (k * g) as real, g, q + k, r);
    if r == 0 {
      TracksCell(k * g - m, (k * g) as real - y, g, k - q, 0);
    } else {
      Distribute(k - q, 1, g);
      TracksCell(k * g - m, (k * g) as real - y, g, k - q - 1, g - r);
    }
  }

  /** Where m lies inside its cell of 2d decides the jammed quotient. */
  lemma JamCell(m: nat, d: nat, k: nat, rest: nat)
    requires d > 0 && m == k * (2 * d) + rest && rest < 2 * d
    ensures Jam(m / d, m % d != 0) == 2 * k + (if rest == 0 then 0 else 1)
  {
    assert k * (2 * d) == (2 * k) * d;
    if rest < d {
      DivUnique(m, d, 2 * k, rest);
    } else {
      Distribute(2 * k, 1, d);
      DivUnique(m, d, 2 * k + 1, rest - d);
    }
  }

  lemma QuotientCell(k: int, d: nat, y: real, z: real)
    requires d > 0 && z * d as real == y
    ensures (2 * k) as real < z < (2 * k + 2) as real <==>
            (k * (2 * d)) as real < y < (k * (2 * d) + 2 * d) as real
    ensures z == (2 * k) as real <==> y == (k * (2 * d)) as real
  {
    assert (2 * k) * d == k * (2 * d);
    CellScaled(2 * k, z, 2, d);
  }

  lemma JamTracksIn(m: nat, d: nat, z: real, j: nat, k: nat, rest: nat)
    requires d > 0 && z * d as real == m as real && j == 2 * k + (if rest == 0 then 0 else 1)
    requires m == k * (2 * d) + rest && rest < 2 * d
    ensures Tracks(j, z, 2)
  {
    hide *;
    QuotientCell(k, d, m as real, z);
    TracksCell(j, z, 2, k, if rest == 0 then 0 else 1);
  }

  /** Jamming an exact m / d keeps its place among the even numbers. */
  lemma JamTracks(m: nat, d: nat, z: real, j: nat)
    requires d > 0 && z * d as real == m as real && j == Jam(m / d, m % d != 0)
    ensures Tracks(j, z, 2)
  {
    hide *;
    var k, rest := Cell(m, 2 * d);
    JamCell(m, d, k, rest);
    JamTracksIn(m, d, z, j, k, rest);
  }

  lemma TracksFromOrder(m: int, y: real, g: nat)
    requires g > 0
    requires forall k: int | k == m / g || k == m / g + 1 ::
               (y < (k * g) as real <==> m < k * g) && (y > (k * g) as real <==> m > k * g)
    ensures Tracks(m, y, g)
  {
    DivMod(m, g);
    Distribute(m / g, 1, g);
  }

  /** y / d compares with k as y does with k * d. */
  lemma QuotientOrder(y: real, z: real, d: nat, k: int)
    requires d > 0 && z * d as real == y
    ensures z < k as real <==> y < (k * d) as real
    ensures z > k as real <==> y > (k * d) as real
  {
    RealOrder(z, k as real, d as real);
    RealOrder(k as real, z, d as real);
    assert (k * d) as real == k as real * d as real;
  }

  /** Shifting right with a sticky bit keeps the place among the multiples of any even g. */
  lemma TracksShiftRight(m: nat, y: real, d: nat, z: real, c: nat)
    requires d > 0 && c > 0 && Tracks(m, y, 2 * c) && z * d as real == y
    ensures Tracks(Jam(m / d, m % d != 0), z, 2 * c)
  {
    hide Tracks, Jam;
    var j, g, w := Jam(m / d, m % d != 0), 2 * c, m as real / d as real;
    JamTracks(m, d, w, j);
    TracksCoarser(j, w, 2, c, 2 * c);
    forall k: int | k == j / g || k == j / g + 1
      ensures (z < (k * g) as real <==> j < k * g) && (z > (k * g) as real <==> j > k * g)
    {
      TracksCompare(j, w, g, k);
      ShiftOrder(m, y, d, z, w, g, k);
    }
    TracksFromOrder(j, z, g);
  }

  lemma ShiftOrder(m: int, y: real, d: nat, z: real, w: real, g: nat, k: int)
    requires d > 0 && g > 0 && Tracks(m, y, g)
    requires z * d as real == y && w * d as real == m as real
    ensures z < (k * g) as real <==> w < (k * g) as real
    ensures z > (k * g) as real <==> w > (k * g) as real
  {
    hide Tracks;
    QuotientOrder(y, z, d, k * g);
    QuotientOrder(m as real, w, d, k * g);
    Assoc(k, g, d);
    Assoc(k, d, g);
    assert (k * d) * g == (k * g) * d by { assert d * g == g * d; }
    TracksCompare(m, y, g, k * d);
  }
}
