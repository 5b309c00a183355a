/** Rounding an exact quotient to an integer, and why a sticky integer may stand in for it. */
module Rounding {
  import opened Arith
  import opened Tracking

  /** What a rounding mode asks of a magnitude. */
  datatype Direction = Toward | Away | NearestEven | NearestAway

  /** r is y / u rounded to an integer in direction d; ru is the product r * u. */
  ghost predicate RoundedParts(d: Direction, r: int, y: real, ru: int, u: nat) {
    match d
    case Toward => ru as real <= y < (ru + u) as real
    case Away => (ru - u) as real < y <= ru as real
    case NearestEven =>
      && (2 * ru - u) as real <= 2.0 * y <= (2 * ru + u) as real
      && (2.0 * y == (2 * ru - u) as real || 2.0 * y == (2 * ru + u) as real ==> r % 2 == 0)
    case NearestAway => (2 * ru - u) as real <= 2.0 * y < (2 * ru + u) as real
  }

  ghost predicate RoundedQuotient(d: Direction, r: int, y: real, u: nat) {
    RoundedParts(d, r, y, r * u, u)
  }

  /** The halfway points are multiples of h, so what tracks y at h rounds as y does. */
  lemma TrackedRoundsAlike(d: Direction, r: int, m: int, y: real, h: nat)
    requires h > 0 && Tracks(m, y, h)
    ensures RoundedQuotient(d, r, m as real, 2 * h) <==> RoundedQuotient(d, r, y, 2 * h)
  {
    hide Tracks;
    TracksNear(m, y, h, 2 * r, 0);
    TracksNear(m, y, h, 2 * r, 1);
    TracksNear(m, y, h, 2 * r, -1);
    TracksNear(m, y, h, 2 * r, 2);
    TracksNear(m, y, h, 2 * r, -2);
    assert r * (2 * h) == (2 * r) * h;
  }

  lemma TracksNear(m: int, y: real, h: nat, k: int, j: int)
    requires h > 0 && Tracks(m, y, h)
    ensures y < (k * h + j * h) as real <==> m < k * h + j * h
    ensures y > (k * h + j * h) as real <==> m > k * h + j * h
  {
    hide Tracks;
    Distribute(k, j, h);
    TracksCompare(m, y, h, k + j);
  }
}
