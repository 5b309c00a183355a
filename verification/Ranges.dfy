/** Tables of half-open intervals of code points: compression in place, complement, and membership by binary search. */
module Ranges {
  import opened RegexpCode
  import opened RegexpPattern

  // ---------- what a table means ----------

  /** c lies in one of intervals from..to. */
  predicate Member(t: seq<nat>, from: nat, to: nat, c: nat)
    requires 2 * to <= |t|
  {
    exists k :: from <= k < to && Within(t, k, c)
  }

  predicate Within(t: seq<nat>, k: nat, c: nat)
    requires 2 * k + 1 < |t|
  {
    t[2 * k] <= c < t[2 * k + 1]
  }

  /** Intervals that do not end before they start, in order of their starts. */
  predicate StartSorted(t: seq<nat>, from: nat, to: nat)
    requires 2 * to <= |t|
  {
    && (forall k :: from <= k < to ==> Proper(t, k))
    && (forall k :: from <= k < to - 1 ==> StartsInOrder(t, k))
  }

  predicate Proper(t: seq<nat>, k: nat)
    requires 2 * k + 1 < |t|
  {
    t[2 * k] <= t[2 * k + 1]
  }

  predicate StartsInOrder(t: seq<nat>, k: nat)
    requires 2 * k + 2 < |t|
  {
    t[2 * k] <= t[2 * k + 2]
  }

  /** No interval is empty, and each ends before the next one starts. */
  predicate Compressed(t: seq<nat>, n: nat)
    requires 2 * n <= |t|
  {
    && (forall k :: 0 <= k < n ==> NotEmpty(t, k))
    && (forall k :: 0 <= k < n - 1 ==> Apart(t, k))
  }

  predicate NotEmpty(t: seq<nat>, k: nat)
    requires 2 * k + 1 < |t|
  {
    t[2 * k] < t[2 * k + 1]
  }

  predicate Apart(t: seq<nat>, k: nat)
    requires 2 * k + 2 < |t|
  {
    t[2 * k + 1] < t[2 * k + 2]
  }

  // ---------- compression ----------

  /** The compressed part, the part still to come, and the code points of both together. */
  ghost predicate Compressing(was: seq<nat>, t: seq<nat>, len: nat, i: nat, j: nat) {
    && j <= i <= len && 2 * len <= |t| == |was| && Compressed(t, j) && StartSorted(t, i, len)
    && (j > 0 && i < len ==> t[2 * j - 1] < t[2 * i])
    && forall c :: Member(was, 0, len, c) <==> Member(t, 0, j, c) || Member(t, i, len, c)
  }

  lemma CompressingStart(t: seq<nat>, len: nat)
    requires 2 * len <= |t| && StartSorted(t, 0, len)
    ensures Compressing(t, t, len, 0, 0)
  {}

  /** An empty interval goes. */
  lemma DropEmpty(was: seq<nat>, t: seq<nat>, len: nat, i: nat, j: nat)
    requires Compressing(was, t, len, i, j) && i < len && t[2 * i] == t[2 * i + 1]
    ensures Compressing(was, t, len, i + 1, j)
  {
    forall c ensures Member(t, i, len, c) <==> Member(t, i + 1, len, c) {
      assert !Within(t, i, c);
    }
    if i + 1 < len { assert StartsInOrder(t, i); }
  }

  /** An interval that ends before the next one starts is kept. */
  lemma KeepInterval(was: seq<nat>, t: seq<nat>, u: seq<nat>, len: nat, i: nat, j: nat)
    requires Compressing(was, t, len, i, j) && i < len && t[2 * i] != t[2 * i + 1]
    requires i + 1 < len ==> t[2 * i + 1] < t[2 * i + 2]
    requires u == t[2 * j := t[2 * i]][2 * j + 1 := t[2 * i + 1]]
    ensures Compressing(was, u, len, i + 1, j + 1)
  {
    assert Proper(t, i);
    assert NotEmpty(u, j);
    forall k | 0 <= k < j ensures NotEmpty(u, k) { assert NotEmpty(t, k); }
    forall k | 0 <= k < j ensures Apart(u, k) {
      if k < j - 1 { assert Apart(t, k); }
    }
    forall k | i + 1 <= k < len ensures Proper(u, k) { assert Proper(t, k); }
    forall k | i + 1 <= k < len - 1 ensures StartsInOrder(u, k) { assert StartsInOrder(t, k); }
    forall c ensures Member(was, 0, len, c) <==> Member(u, 0, j + 1, c) || Member(u, i + 1, len, c) {
      KeptMembers(t, u, len, i, j, c);
    }
  }

  lemma KeptMembers(t: seq<nat>, u: seq<nat>, len: nat, i: nat, j: nat, c: nat)
    requires j <= i < len && 2 * len <= |t| && u == t[2 * j := t[2 * i]][2 * j + 1 := t[2 * i + 1]]
    ensures Member(t, 0, j, c) || Member(t, i, len, c) <==> Member(u, 0, j + 1, c) || Member(u, i + 1, len, c)
  {
    forall k | 0 <= k < j ensures Within(t, k, c) == Within(u, k, c) {}
    forall k | i + 1 <= k < len ensures Within(t, k, c) == Within(u, k, c) {}
    assert Within(t, i, c) == Within(u, j, c);
  }

  /** An interval that reaches the next one is joined to it. */
  lemma JoinNext(was: seq<nat>, t: seq<nat>, u: seq<nat>, len: nat, i: nat, j: nat, e: nat)
    requires Compressing(was, t, len, i, j) && i + 1 < len && t[2 * i + 1] >= t[2 * i + 2]
    requires e == (if t[2 * i + 3] > t[2 * i + 1] then t[2 * i + 3] else t[2 * i + 1])
    requires u == t[2 * i + 2 := t[2 * i]][2 * i + 3 := e]
    ensures Compressing(was, u, len, i + 1, j)
  {
    assert Proper(t, i) && Proper(t, i + 1) && StartsInOrder(t, i);
    forall k | 0 <= k < j ensures NotEmpty(u, k) { assert NotEmpty(t, k); }
    forall k | 0 <= k < j - 1 ensures Apart(u, k) { assert Apart(t, k); }
    forall k | i + 1 <= k < len ensures Proper(u, k) { assert Proper(t, k); }
    forall k | i + 1 <= k < len - 1 ensures StartsInOrder(u, k) { assert StartsInOrder(t, k); }
    forall c ensures Member(was, 0, len, c) <==> Member(u, 0, j, c) || Member(u, i + 1, len, c) {
      JoinedMembers(t, u, len, i, j, e, c);
    }
  }

  lemma JoinedMembers(t: seq<nat>, u: seq<nat>, len: nat, i: nat, j: nat, e: nat, c: nat)
    requires j <= i && i + 1 < len && 2 * len <= |t|
    requires t[2 * i] <= t[2 * i + 2] <= t[2 * i + 1] && t[2 * i + 2] <= t[2 * i + 3]
    requires e == (if t[2 * i + 3] > t[2 * i + 1] then t[2 * i + 3] else t[2 * i + 1])
    requires u == t[2 * i + 2 := t[2 * i]][2 * i + 3 := e]
    ensures Member(t, 0, j, c) || Member(t, i, len, c) <==> Member(u, 0, j, c) || Member(u, i + 1, len, c)
  {
    forall k | 0 <= k < j ensures Within(t, k, c) == Within(u, k, c) {}
    forall k | i + 2 <= k < len ensures Within(t, k, c) == Within(u, k, c) {}
    assert Within(t, i, c) || Within(t, i + 1, c) <==> Within(u, i + 1, c);
  }

  /** range_compress: the same code points in the fewest intervals, which are no longer empty and do not touch. */
  method RangeCompress(tab: array<nat>, len: nat) returns (j: nat)
    requires 2 * len <= tab.Length && StartSorted(tab[..], 0, len)
    modifies tab
    ensures j <= len && Compressed(tab[..], j)
    ensures forall c :: Member(tab[..], 0, j, c) <==> old(Member(tab[..], 0, len, c))
  {
    hide Compressing, Compressed, StartSorted, Member;
    ghost var was := tab[..];
    CompressingStart(was, len);
    var i := 0;
    j := 0;
    while i < len
      invariant j <= i <= len && Compressing(was, tab[..], len, i, j)
    {
      var start, end := tab[2 * i], tab[2 * i + 1];
      ghost var t := tab[..];
      var doCopy := false;
      if start == end {
        DropEmpty(was, t, len, i, j);
      } else if i + 1 < len {
        var start2, end2 := tab[2 * i + 2], tab[2 * i + 3];
        if end < start2 {
          doCopy := true;
        } else {
          tab[2 * i + 2] := start;
          tab[2 * i + 3] := if end2 > end then end2 else end;
          JoinNext(was, t, tab[..], len, i, j, tab[2 * i + 3]);
        }
      } else {
        doCopy := true;
      }
      if doCopy {
        tab[2 * j] := start;
        tab[2 * j + 1] := end;
        KeepInterval(was, t, tab[..], len, i, j);
        j := j + 1;
      }
      i := i + 1;
    }
    CompressingEnd(was, tab[..], len, j);
  }

  lemma CompressingEnd(was: seq<nat>, t: seq<nat>, len: nat, j: nat)
    requires Compressing(was, t, len, len, j)
    ensures j <= len && 2 * len <= |t| && Compressed(t, j)
    ensures forall c :: Member(t, 0, j, c) <==> Member(was, 0, len, c)
  {}

  // ---------- membership ----------

  /** In a compressed table, later intervals start later. */
  lemma {:induction false} Ordered(t: seq<nat>, n: nat, a: nat, b: nat)
    requires 2 * n <= |t| && Compressed(t, n) && a < b < n
    ensures t[2 * a + 1] < t[2 * b]
    decreases b - a
  {
    assert Apart(t, b - 1) && NotEmpty(t, b - 1);
    if a < b - 1 { Ordered(t, n, a, b - 1); }
  }

  /** Binary search over lo..hi finds c exactly when one of those intervals holds it. */
  lemma {:induction false} SearchExact(t: seq<nat>, c: nat, lo: nat, hi: int)
    requires Compressed(t, |t| / 2) && hi < |t| / 2
    ensures Search(t, c, lo, hi) <==> exists k :: lo <= k <= hi && Within(t, k, c)
    decreases hi - lo + 1
  {
    hide Compressed;
    if lo <= hi {
      var mid := (lo + hi) / 2;
      forall k | lo <= k <= hi && k != mid
        ensures k < mid ==> t[2 * k + 1] < t[2 * mid]
        ensures k > mid ==> t[2 * mid + 1] < t[2 * k]
      {
        if k < mid { Ordered(t, |t| / 2, k, mid); } else { Ordered(t, |t| / 2, mid, k); }
      }
      SearchProper(t, mid);
      SearchExact(t, c, lo, mid - 1);
      SearchExact(t, c, mid + 1, hi);
      SearchCases(t, c, lo, hi, mid);
    }
  }

  lemma SearchProper(t: seq<nat>, k: nat)
    requires Compressed(t, |t| / 2) && k < |t| / 2
    ensures t[2 * k] < t[2 * k + 1]
  {
    assert NotEmpty(t, k);
  }

  lemma SearchCases(t: seq<nat>, c: nat, lo: nat, hi: int, mid: nat)
    requires lo <= mid <= hi < |t| / 2 && mid == (lo + hi) / 2 && t[2 * mid] < t[2 * mid + 1]
    requires forall k :: lo <= k <= hi && k != mid ==>
               (k < mid ==> t[2 * k + 1] < t[2 * mid]) && (k > mid ==> t[2 * mid + 1] < t[2 * k])
    requires Search(t, c, lo, mid - 1) <==> exists k :: lo <= k <= mid - 1 && Within(t, k, c)
    requires Search(t, c, mid + 1, hi) <==> exists k :: mid + 1 <= k <= hi && Within(t, k, c)
    ensures Search(t, c, lo, hi) <==> exists k :: lo <= k <= hi && Within(t, k, c)
  {
    if c < t[2 * mid] {
      forall k | lo <= k <= hi && Within(t, k, c) ensures k <= mid - 1 {}
    } else if c >= t[2 * mid + 1] {
      forall k | lo <= k <= hi && Within(t, k, c) ensures k >= mid + 1 {}
    } else {
      assert Within(t, mid, c);
    }
  }

  /** What a range instruction decides, for the tables the compiler makes. */
  lemma RangeMatchesExact(t: seq<nat>, c: nat)
    requires Compressed(t, |t| / 2)
    ensures RangeMatches(t, c) <==> Member(t, 0, |t| / 2, c)
  {
    hide Compressed, Search;
    var n := |t| / 2;
    if n > 0 {
      SearchExact(t, c, 0, n - 1);
      forall k | 0 <= k < n && Within(t, k, c) ensures t[0] <= c < t[2 * n - 1] {
        Between(t, k);
      }
    }
  }

  lemma Between(t: seq<nat>, k: nat)
    requires Compressed(t, |t| / 2) && k < |t| / 2
    ensures t[0] <= t[2 * k] && t[2 * k + 1] <= t[2 * (|t| / 2) - 1]
  {
    var n := |t| / 2;
    SearchProper(t, 0);
    SearchProper(t, n - 1);
    if k > 0 { Ordered(t, n, 0, k); }
    if k < n - 1 { Ordered(t, n, k, n - 1); }
  }

  // ---------- complement ----------

  const CODE_POINTS: nat := 0x11_0000

  /** re_range_optimize with invert: the gaps, from zero to the end of Unicode, before they are compressed again. */
  function Gaps(t: seq<nat>): seq<nat> { [0] + t + [CODE_POINTS] }

  /** The gaps are in order, and hold the other code points. */
  lemma GapsComplement(t: seq<nat>, n: nat, c: nat)
    requires |t| == 2 * n && Compressed(t, n) && c < CODE_POINTS && (n > 0 ==> t[2 * n - 1] <= CODE_POINTS)
    ensures StartSorted(Gaps(t), 0, n + 1)
    ensures Member(Gaps(t), 0, n + 1, c) <==> !Member(t, 0, n, c)
  {
    hide Compressed;
    var g := Gaps(t);
    forall k | 0 <= k <= n ensures Proper(g, k) {
      if 0 < k < n { Ordered(t, n, k - 1, k); }
    }
    forall k | 0 <= k < n ensures StartsInOrder(g, k) {
      if k > 0 { Ordered(t, n, k - 1, k); }
      CompressedAt(t, n, k);
    }
    if Member(t, 0, n, c) {
      var k :| 0 <= k < n && Within(t, k, c);
      forall j | 0 <= j <= n ensures !Within(g, j, c) {
        if 0 < j <= k { if j - 1 < k { OrderedEnds(t, n, j, k); } }
        if j > k { OrderedEnds(t, n, k, j - 1); }
        if j == 0 { OrderedEnds(t, n, 0, k); }
      }
    } else {
      var j := GapOf(t, n, c, n);
    }
  }

  lemma CompressedAt(t: seq<nat>, n: nat, k: nat)
    requires 2 * n <= |t| && Compressed(t, n) && k < n
    ensures t[2 * k] < t[2 * k + 1]
  {
    assert NotEmpty(t, k);
  }

  lemma OrderedEnds(t: seq<nat>, n: nat, a: nat, b: nat)
    requires 2 * n <= |t| && Compressed(t, n) && a <= b < n
    ensures t[2 * a] <= t[2 * b] && t[2 * a + 1] <= t[2 * b + 1]
  {
    CompressedAt(t, n, a);
    CompressedAt(t, n, b);
    if a < b { Ordered(t, n, a, b); }
  }

  /** A code point of no interval before m that lies past all of them, or the gap it is in. */
  lemma {:induction false} GapOf(t: seq<nat>, n: nat, c: nat, m: nat) returns (j: nat)
    requires |t| == 2 * n && Compressed(t, n) && m <= n && !Member(t, 0, n, c)
    requires c < if m < n then t[2 * m] else CODE_POINTS
    ensures j <= m && Within(Gaps(t), j, c)
    decreases m
  {
    var g := Gaps(t);
    if m == 0 {
      j := 0;
    } else if c >= t[2 * m - 1] {
      j := m;
    } else {
      assert !Within(t, m - 1, c);
      j := GapOf(t, n, c, m - 1);
    }
  }

  // ---------- the short form ----------

  /** What re_range_optimize looks at to choose the short form: for a compressed table it says that all of it fits. */
  lemma ShortFits(t: seq<nat>)
    requires |t| % 2 == 0 && Compressed(t, |t| / 2)
    ensures var n := |t| / 2;
            IsSmall(t) <==> 0 < n < 16 && (t[2 * n - 1] < 254 || (t[2 * n - 1] == 0x110000 && t[2 * n - 2] < 254))
  {
    var n := |t| / 2;
    if 0 < n {
      forall k | 0 <= k < |t| - 1 ensures t[k] <= t[2 * n - 2] {
        Ascending(t, k, 2 * n - 2);
      }
      assert NotEmpty(t, n - 1);
    }
  }

  lemma {:induction false} Ascending(t: seq<nat>, i: nat, j: nat)
    requires |t| % 2 == 0 && Compressed(t, |t| / 2) && i <= j < |t|
    ensures t[i] <= t[j]
    decreases j - i
  {
    if i < j {
      Ascending(t, i, j - 1);
      assert j % 2 == 0 ==> Apart(t, j / 2 - 1);
      assert j % 2 == 1 ==> NotEmpty(t, j / 2);
    }
  }

  /** The short form decides membership. */
  lemma {:induction false} ShortMatches(t: seq<nat>, k: nat, c: nat)
    requires IsSmall(t) && c < 0x110000 && 2 * k < |t|
    ensures SmallMatches(Shortened(t)[2 * k..], c) <==> Member(t, k, |t| / 2, c)
    decreases |t| - 2 * k
  {
    hide SmallMatches;
    var r, n := Shortened(t), |t| / 2;
    SmallStep(r[2 * k..], c);
    assert r[2 * k..][2..] == r[2 * (k + 1)..];
    assert Member(t, k, n, c) <==> Within(t, k, c) || Member(t, k + 1, n, c);
    if k < n - 1 {
      ShortMatches(t, k + 1, c);
    } else {
      assert r[2 * (k + 1)..] == [];
      NoneMatch(c);
    }
  }

  lemma NoneMatch(c: nat)
    ensures !SmallMatches([], c)
  {}

  lemma SmallStep(t: seq<nat>, c: nat)
    requires |t| % 2 == 0 && t != []
    ensures SmallMatches(t, c) == ((t[0] <= c && (c < t[1] || (|t| == 2 && t[1] == 0xff))) || SmallMatches(t[2..], c))
  {}

  /** In either form, the code of a class of code points decides membership. */
  lemma ClassExact(t: seq<nat>, c: nat)
    requires |t| % 2 == 0 && Compressed(t, |t| / 2) && c < 0x110000
    ensures InClass(t, c) <==> Member(t, 0, |t| / 2, c)
  {
    if IsSmall(t) {
      ShortMatches(t, 0, c);
      assert Shortened(t)[0..] == Shortened(t);
    } else {
      RangeMatchesExact(t, c);
    }
  }
}
