/** The decimal literals js_atod accepts in radix 10, and what they denote. */
module DecimalText {
  import opened Arith
  import opened Powers

  /** A literal: its digits with the point among them, and the written exponent. */
  datatype Literal =
    | Malformed
    | Infinite(negative: bool, end: nat)
    | Decimal(negative: bool, digits: string, point: nat, exponent: int, end: nat)

  const MAX_DIGITS: nat := 38

  /** Character i, with the terminating zero after the last. */
  function At(s: string, i: nat): char { if i < |s| then s[i] else 0 as char }

  predicate IsDigit(c: char) { '0' <= c <= '9' }

  predicate AllDigits(d: string) { forall i | 0 <= i < |d| :: IsDigit(d[i]) }

  predicate AllZeros(d: string) { forall i | 0 <= i < |d| :: d[i] == '0' }

  function DigitValue(c: char): (r: nat)
    requires IsDigit(c)
    ensures r <= 9
  {
    (c - '0') as int
  }

  /** How many digits follow one another from i. */
  function DigitRun(s: string, i: nat): (r: nat)
    requires i <= |s|
    ensures i + r <= |s| && AllDigits(s[i..i + r]) && !IsDigit(At(s, i + r))
    decreases |s| - i
  {
    if i < |s| && IsDigit(s[i]) then
      var r := DigitRun(s, i + 1);
      assert s[i..i + 1 + r] == [s[i]] + s[i + 1..i + 1 + r];
      1 + r
    else 0
  }

  lemma {:induction false} DigitRunUnique(s: string, i: nat, j: nat)
    requires i <= j <= |s| && AllDigits(s[i..j]) && !IsDigit(At(s, j))
    ensures DigitRun(s, i) == j - i
    decreases j - i
  {
    if i < j {
      assert s[i] == s[i..j][0];
      assert s[i + 1..j] == s[i..j][1..];
      DigitRunUnique(s, i + 1, j);
    }
  }

  /** The number the digits write. */
  function Num(d: string): nat
    requires AllDigits(d)
  {
    if d == [] then 0 else 10 * Num(d[..|d| - 1]) + DigitValue(d[|d| - 1])
  }

  lemma NumSnoc(d: string, c: char)
    requires AllDigits(d) && IsDigit(c)
    ensures AllDigits(d + [c]) && Num(d + [c]) == 10 * Num(d) + DigitValue(c)
  {
    assert (d + [c])[..|d|] == d;
  }

  lemma NumOne(c: char)
    requires IsDigit(c)
    ensures AllDigits([c]) && Num([c]) == DigitValue(c)
  {
    assert [c][..0] == [];
  }

  lemma {:induction false} NumConcat(a: string, b: string)
    requires AllDigits(a) && AllDigits(b)
    ensures AllDigits(a + b) && Num(a + b) == Num(a) * Pow(10, |b|) + Num(b)
  {
    hide Pow;
    PowStep(10, 0);
    if b == [] {
      assert a + b == a;
    } else {
      var c, k := b[..|b| - 1], |b| - 1;
      NumConcat(a, c);
      PowStep(10, k);
      assert a + b == (a + c) + [b[k]] && b == c + [b[k]];
      NumSnoc(a + c, b[k]);
      Assoc(10, Num(a), Pow(10, k));
    }
  }

  lemma {:induction false} NumBound(d: string)
    requires AllDigits(d)
    ensures Num(d) < Pow(10, |d|)
    ensures |d| > 0 && d[0] != '0' ==> Pow(10, |d| - 1) <= Num(d)
  {
    hide Pow;
    PowStep(10, 0);
    if |d| > 0 {
      NumBound(d[..|d| - 1]);
      PowStep(10, |d| - 1);
      if |d| > 1 { PowStep(10, |d| - 2); }
    }
  }

  lemma {:induction false} NumZeros(d: string)
    requires AllDigits(d)
    ensures Num(d) == 0 <==> AllZeros(d)
  {
    if d != [] {
      NumZeros(d[..|d| - 1]);
    }
  }

  /** Zeros in front do not count. */
  lemma NumDropZeros(d: string, z: nat)
    requires z <= |d| && AllDigits(d) && AllZeros(d[..z])
    ensures Num(d) == Num(d[z..])
  {
    hide Pow;
    assert d == d[..z] + d[z..];
    NumZeros(d[..z]);
    NumConcat(d[..z], d[z..]);
  }

  /** How many zeros come first. */
  function LeadingZeros(d: string): (z: nat)
    ensures z <= |d| && AllZeros(d[..z]) && (z < |d| ==> d[z] != '0')
  {
    if d != [] && d[0] == '0' then 1 + LeadingZeros(d[1..]) else 0
  }

  lemma {:induction false} LeadingZerosUnique(d: string, z: nat)
    requires z <= |d| && AllZeros(d[..z]) && (z < |d| ==> d[z] != '0')
    ensures LeadingZeros(d) == z
    decreases z
  {
    if z > 0 {
      assert d[..z][0] == d[0];
      assert d[1..][..z - 1] == d[..z][1..];
      LeadingZerosUnique(d[1..], z - 1);
    }
  }

  lemma TenToNine()
    ensures Pow(10, 9) == 1_000_000_000
  {
    hide Pow;
    PowStep(10, 0);
    PowStep(10, 1);
    PowAdd(10, 2, 2);
    PowAdd(10, 4, 4);
    PowStep(10, 8);
  }

  // ---------- the grammar ----------

  predicate HasPrefix(s: string, i: nat, w: string) { i + |w| <= |s| && s[i..i + |w|] == w }

  /** A point counts after a digit, or before one. */
  predicate PointAt(s: string, start: nat, i: nat, intOnly: bool) {
    At(s, i) == '.' && (i > start || IsDigit(At(s, i + 1))) && !intOnly
  }

  function SignLength(s: string, i: nat): (n: nat)
    ensures i <= |s| ==> i + n <= |s|
  {
    if At(s, i) == '+' || At(s, i) == '-' then 1 else 0
  }

  /** Where the digits and the point end. */
  function MantissaEnd(s: string, start: nat, intOnly: bool): (end: nat)
    requires start <= |s|
    ensures start <= end <= |s|
  {
    var i := start + DigitRun(s, start);
    if PointAt(s, start, i, intOnly) then i + 1 + DigitRun(s, i + 1) else i
  }

  /** The digits before and after the point. */
  function MantissaDigits(s: string, start: nat, intOnly: bool): (d: string)
    requires start <= |s|
    ensures AllDigits(d)
  {
    var i := start + DigitRun(s, start);
    s[start..i] + if PointAt(s, start, i, intOnly) then s[i + 1..i + 1 + DigitRun(s, i + 1)] else []
  }

  predicate ExponentMark(s: string, i: nat, intOnly: bool) { !intOnly && (At(s, i) == 'e' || At(s, i) == 'E') }

  /** How many digits the exponent marked at i has. */
  function ExponentRun(s: string, i: nat): (n: nat)
    requires i < |s|
    ensures ExponentStart(s, i) + n <= |s| && AllDigits(s[ExponentStart(s, i)..ExponentStart(s, i) + n])
  {
    DigitRun(s, ExponentStart(s, i))
  }

  function ExponentStart(s: string, i: nat): nat { i + 1 + SignLength(s, i + 1) }

  function WrittenExponent(s: string, i: nat): int
    requires i < |s|
  {
    var x: int := Num(s[ExponentStart(s, i)..ExponentStart(s, i) + ExponentRun(s, i)]);
    if At(s, i + 1) == '-' then -x else x
  }

  /** A literal whose digits are followed by an exponent mark at i: without digits there it is no literal at all. */
  function WithExponent(s: string, i: nat, negative: bool, digits: string, point: nat): Literal
    requires i < |s|
  {
    if ExponentRun(s, i) == 0 then Malformed
    else Decimal(negative, digits, point, WrittenExponent(s, i), ExponentStart(s, i) + ExponentRun(s, i))
  }

  /** The longest literal at the start of s. */
  function Parse(s: string, intOnly: bool): Literal {
    var negative, start := At(s, 0) == '-', SignLength(s, 0);
    if !intOnly && HasPrefix(s, start, "Infinity") then Infinite(negative, start + 8)
    else
      var end, digits := MantissaEnd(s, start, intOnly), MantissaDigits(s, start, intOnly);
      if end == start then Malformed
      else if ExponentMark(s, end, intOnly) then WithExponent(s, end, negative, digits, DigitRun(s, start))
      else Decimal(negative, digits, DigitRun(s, start), 0, end)
  }

  /** The digits kept: the first 38 after the leading zeros. */
  function Kept(d: string): (k: string)
    ensures AllDigits(d) ==> AllDigits(k)
  {
    var z := LeadingZeros(d);
    if |d| - z <= MAX_DIGITS then d[z..] else d[z..z + MAX_DIGITS]
  }

  /** The exponent of the last kept digit. */
  function KeptExponent(digits: string, point: nat, exponent: int): int {
    exponent + point - LeadingZeros(digits) - |Kept(digits)|
  }

  /** The value lies below 10 to this, and not below a tenth of it. */
  function LeadExponent(digits: string, point: nat, exponent: int): int {
    exponent + point - LeadingZeros(digits)
  }

  /** With at most 38 significant digits nothing is dropped but leading zeros. */
  lemma KeptAll(d: string)
    requires AllDigits(d) && |d| - LeadingZeros(d) <= MAX_DIGITS
    ensures Num(Kept(d)) == Num(d)
  {
    NumDropZeros(d, LeadingZeros(d));
  }

  /** The digits kept are the leading ones: with the r digits dropped the number is less than one more of their last. */
  lemma KeptTruncates(d: string) returns (r: nat)
    requires AllDigits(d)
    ensures |d| == LeadingZeros(d) + |Kept(d)| + r && (r > 0 ==> |Kept(d)| == MAX_DIGITS)
    ensures Num(Kept(d)) * Pow(10, r) <= Num(d) < (Num(Kept(d)) + 1) * Pow(10, r)
  {
    hide Pow, Num, AllDigits, AllZeros, LeadingZeros;
    var z := LeadingZeros(d);
    var n := if |d| - z <= MAX_DIGITS then |d| - z else MAX_DIGITS;
    NumDropZeros(d, z);
    Slices(d, z, n);
    var k, rest := d[z..z + n], d[z + n..];
    assert Kept(d) == k;
    r := |rest|;
    LeadingPart(k, rest);
  }

  lemma Slices(d: string, z: nat, n: nat)
    requires AllDigits(d) && z + n <= |d|
    ensures d[z..] == d[z..z + n] + d[z + n..] && (z + n == |d| ==> d[z..z + n] == d[z..])
    ensures AllDigits(d[z..z + n]) && AllDigits(d[z + n..]) && AllDigits(d[z..])
  {}

  lemma LeadingPart(k: string, rest: string)
    requires AllDigits(k) && AllDigits(rest)
    ensures AllDigits(k + rest) && Num(k) * Pow(10, |rest|) <= Num(k + rest) < (Num(k) + 1) * Pow(10, |rest|)
  {
    hide Pow, Num;
    NumConcat(k, rest);
    NumBound(rest);
    Distribute(Num(k), 1, Pow(10, |rest|));
  }

  lemma KeptSize(d: string)
    requires AllDigits(d)
    ensures var k := Kept(d); Num(k) < Pow(10, |k|) && (Num(d) > 0 ==> |k| > 0 && Num(k) >= Pow(10, |k| - 1))
    ensures Num(d) == 0 ==> Num(Kept(d)) == 0 && Kept(d) == []
    ensures LeadingZeros(d) + |Kept(d)| <= |d|
  {
    hide Pow, Num;
    NumBound(Kept(d));
    NumZeros(d);
    if LeadingZeros(d) == |d| {
      assert d[..|d|] == d;
      NumZeros(Kept(d));
    }
  }
}
