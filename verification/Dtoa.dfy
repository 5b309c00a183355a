/** js_dtoa in free format and base 10: the text of a double, and that js_atod reads the same double from it. */
module Dtoa {
  import opened Arith
  import opened Powers
  import opened Rounding
  import opened Binary64
  import opened Bits
  import opened Limbs
  import opened LimbBits
  import opened InverseDivision
  import opened Bignum
  import opened RadixPower
  import opened Scaling
  import opened Shortest
  import opened FreeFormat
  import opened DecimalText
  import opened DecimalDigits
  import opened Reader

  /** An exponent only where it helps, or always. */
  datatype ExpMode = Auto | Always

  /** js_dtoa_max_len for this format. */
  const MAX_LENGTH: nat := 25

  const MAX_PLAIN_EXPONENT: nat := 21

  // ---------- the text ----------

  function Zeros(n: nat): (z: string)
    ensures |z| == n && AllZeros(z) && AllDigits(z)
  {
    seq(n, _ => '0')
  }

  function ExponentText(e: int): string { if e < 0 then "-" + Dec(-e) else "+" + Dec(e) }

  predicate NeedsExponent(e: int, mode: ExpMode, max: nat) { mode == Always || e <= -6 || e > max }

  function FreeText(d: string, e: int, mode: ExpMode): string
    requires d != []
  {
    DigitText(d, e, mode, MAX_PLAIN_EXPONENT)
  }

  /** Digits d with the point after e of them, in one of three layouts. */
  function DigitText(d: string, e: int, mode: ExpMode, max: nat): string
    requires d != []
  {
    if NeedsExponent(e, mode, max) then WithPoint(d, 1) + "e" + ExponentText(e - 1)
    else if e <= 0 then "0." + Zeros(-e) + d
    else if e < |d| then WithPoint(d, e)
    else d + Zeros(e - |d|)
  }

  function Sign(negative: bool): string { if negative then "-" else [] }

  // ---------- reading a text of this shape ----------

  /** A digit string, a point and more digits, and an exponent; the last two may be absent. */
  function Shape(negative: bool, a: string, b: string, e: string): string {
    Sign(negative) + a + (if b == [] then [] else "." + b) + (if e == [] then [] else "e" + e)
  }

  /** The exponent as ExponentText writes it. */
  predicate IsExponent(e: string, x: int) {
    (e == [] && x == 0) || (|e| > 1 && (e[0] == '+' || e[0] == '-') && AllDigits(e[1..])
                            && x == if e[0] == '-' then 0 - Num(e[1..]) else Num(e[1..]))
  }

  /** What may follow a literal without lengthening it. */
  predicate Stops(tail: string) { tail == [] || !(IsDigit(tail[0]) || tail[0] == '.' || tail[0] == 'e' || tail[0] == 'E') }

  lemma ShapeParses(negative: bool, a: string, b: string, e: string, x: int, tail: string)
    requires a != [] && AllDigits(a) && AllDigits(b) && IsExponent(e, x) && Stops(tail)
    ensures var w := Shape(negative, a, b, e);
            Parse(w + tail, false) == Decimal(negative, a + b, |a|, x, |w|)
  {
    hide Num, AllDigits, DigitRun, MantissaEnd, MantissaDigits, ExponentRun, WrittenExponent, ExponentStart, IsExponent,
         Shape, At, SignLength, HasPrefix, ExponentMark, Stops;
    var s := Shape(negative, a, b, e) + tail;
    var start := |Sign(negative)|;
    ShapeDigits(negative, a, b, e, x, tail);
    ShapeStart(negative, a, b, e, tail);
    ShapeExponent(negative, a, b, e, x, tail);
    NotInfinity(s, start);
  }

  lemma NotInfinity(s: string, i: nat)
    requires i < |s| && IsDigit(s[i])
    ensures !HasPrefix(s, i, "Infinity")
  {
    if i + 8 <= |s| { assert s[i..i + 8][0] == s[i]; }
  }

  lemma ShapeStart(negative: bool, a: string, b: string, e: string, tail: string)
    requires a != [] && AllDigits(a)
    ensures var s := Shape(negative, a, b, e) + tail;
            && |s| > |Sign(negative)| && (At(s, 0) == '-' <==> negative) && SignLength(s, 0) == |Sign(negative)| && s[|Sign(negative)|] == a[0]
            && IsDigit(a[0])
  {}

  /** Where the digits, the point and the mantissa end. */
  lemma ShapeDigits(negative: bool, a: string, b: string, e: string, x: int, tail: string)
    requires a != [] && AllDigits(a) && AllDigits(b) && IsExponent(e, x) && Stops(tail)
    ensures var s, start := Shape(negative, a, b, e) + tail, |Sign(negative)|;
            && start <= |s| && DigitRun(s, start) == |a| && MantissaDigits(s, start, false) == a + b
            && MantissaEnd(s, start, false) == start + |a| + (if b == [] then 0 else 1 + |b|)
  {
    hide Num, DigitRun, IsExponent, AllDigits, Shape, Sign, At, IsDigit, PointAt, Stops;
    var s, start := Shape(negative, a, b, e) + tail, |Sign(negative)|;
    var i := start + |a|;
    ShapeInText(negative, a, b, e, x, tail);
    DigitRunUnique(s, start, i);
    if b == [] {
      assert a + b == a;
    } else {
      DigitRunUnique(s, i + 1, i + 1 + |b|);
    }
  }

  lemma ShapeInText(negative: bool, a: string, b: string, e: string, x: int, tail: string)
    requires a != [] && AllDigits(a) && AllDigits(b) && IsExponent(e, x) && Stops(tail)
    ensures var s, start := Shape(negative, a, b, e) + tail, |Sign(negative)|;
            var i := start + |a|;
            && i <= |s| && s[start..i] == a && !IsDigit(At(s, i)) && AllDigits(s[start..i])
            && PointAt(s, start, i, false) == (b != [])
            && (b != [] ==> && i + 1 + |b| <= |s| && s[i + 1..i + 1 + |b|] == b && AllDigits(s[i + 1..i + 1 + |b|])
                            && !IsDigit(At(s, i + 1 + |b|)))
  {
    hide Num, Shape;
    var s, start := Shape(negative, a, b, e) + tail, |Sign(negative)|;
    var i, rest := start + |a|, (if e == [] then [] else "e" + e) + tail;
    ShapeParts(negative, a, b, e, tail);
    if b == [] {
      Middle(Sign(negative), a, rest);
    } else {
      Middle(Sign(negative), a, "." + b + rest);
      Middle(Sign(negative) + a + ".", b, rest);
      assert s[i] == '.' && IsDigit(b[0]) && At(s, i + 1) == b[0];
    }
  }

  lemma Middle(u: string, v: string, w: string)
    ensures (u + v + w)[|u|..|u| + |v|] == v && (u + v + w)[|u| + |v|..] == w
  {}

  lemma ShapeParts(negative: bool, a: string, b: string, e: string, tail: string)
    ensures var s, rest := Shape(negative, a, b, e) + tail, (if e == [] then [] else "e" + e) + tail;
            && (b == [] ==> s == Sign(negative) + a + rest)
            && (b != [] ==> s == Sign(negative) + a + ("." + b + rest) && s == Sign(negative) + a + "." + b + rest)
  {}

  lemma ShapeExponent(negative: bool, a: string, b: string, e: string, x: int, tail: string)
    requires IsExponent(e, x) && Stops(tail)
    ensures var n, s := |Shape(negative, a, b, e)|, Shape(negative, a, b, e) + tail;
            var end := |Sign(negative)| + |a| + (if b == [] then 0 else 1 + |b|);
            if e == [] then x == 0 && end == n && !ExponentMark(s, end, false)
            else && end < n && ExponentMark(s, end, false) && ExponentRun(s, end) > 0
                 && WrittenExponent(s, end) == x && ExponentStart(s, end) + ExponentRun(s, end) == n
  {
    hide Num, AllDigits, DigitRun, Shape, Sign, IsDigit, Stops, At, ExponentMark, ExponentRun, WrittenExponent, ExponentStart;
    var n, s := |Shape(negative, a, b, e)|, Shape(negative, a, b, e) + tail;
    var end := |Sign(negative)| + |a| + (if b == [] then 0 else 1 + |b|);
    ExponentInText(negative, a, b, e, tail);
    EndIsNoDigit(s, n, tail);
    if e == [] { EndIsNoMark(s, n, tail); } else { ExponentRead(s, end, n, e, x); }
  }

  lemma ExponentRead(s: string, end: nat, n: nat, e: string, x: int)
    requires e != [] && IsExponent(e, x) && end + 1 + |e| == n <= |s| && !IsDigit(At(s, n))
    requires s[end] == 'e' && s[end + 1] == e[0] && s[end + 2..n] == e[1..]
    ensures ExponentMark(s, end, false) && ExponentRun(s, end) > 0
    ensures WrittenExponent(s, end) == x && ExponentStart(s, end) + ExponentRun(s, end) == n
  {
    hide Num, AllDigits, DigitRun;
    DigitRunUnique(s, end + 2, n);
  }

  /** Where the exponent stands. */
  lemma ExponentInText(negative: bool, a: string, b: string, e: string, tail: string)
    ensures var n, s := |Shape(negative, a, b, e)|, Shape(negative, a, b, e) + tail;
            var end := |Sign(negative)| + |a| + (if b == [] then 0 else 1 + |b|);
            && s[n..] == tail
            && (e == [] ==> end == n)
            && (e != [] ==> && end + 1 + |e| == n && s[end] == 'e' && s[end + 1] == e[0] && s[end + 2..n] == e[1..])
  {
    hide Sign;
    var n, s := |Shape(negative, a, b, e)|, Shape(negative, a, b, e) + tail;
    var end := |Sign(negative)| + |a| + (if b == [] then 0 else 1 + |b|);
    if e != [] {
      assert s[end + 1..n] == e;
      assert s[end + 2..n] == s[end + 1..n][1..];
    }
  }

  lemma EndIsNoMark(s: string, n: nat, tail: string)
    requires n <= |s| && s[n..] == tail && Stops(tail)
    ensures !ExponentMark(s, n, false)
  {
    if n < |s| { assert s[n] == tail[0]; }
  }

  lemma EndIsNoDigit(s: string, n: nat, tail: string)
    requires n <= |s| && s[n..] == tail && Stops(tail)
    ensures !IsDigit(At(s, n))
  {
    if n < |s| { assert s[n] == tail[0]; }
  }

  // ---------- the three layouts ----------

  /** a, b and e lay out the value n * 10^q. */
  ghost predicate LaysOut(a: string, b: string, e: string, x: int, n: nat, q: int) {
    && a != [] && AllDigits(a) && AllDigits(b) && IsExponent(e, x)
    && AllDigits(a + b) && DecimalValue(Num(a + b), x - |b|) == DecimalValue(n, q)
  }

  /** No digit is lost when such a layout is read. */
  predicate Readable(a: string, b: string, x: int) { |a| + |b| <= MAX_DIGITS && -400 <= x <= 400 }

  lemma ExponentIs(x: int)
    ensures IsExponent(ExponentText(x), x) && ExponentText(x) != []
  {
    hide Num;
    var v := if x < 0 then -x else x;
    DecNum(v);
    assert ExponentText(x)[1..] == Dec(v);
  }

  lemma ZerosNum(n: nat)
    ensures Num(Zeros(n)) == 0
  {
    NumZeros(Zeros(n));
  }

  lemma IsLayout(a: string, b: string, e: string, x: int, d: string, q: int)
    requires a != [] && AllDigits(a) && AllDigits(b) && AllDigits(a + b) && AllDigits(d) && IsExponent(e, x)
    requires Num(a + b) == Num(d) && x - |b| == q
    ensures LaysOut(a, b, e, x, Num(d), q)
  {
    hide AllDigits, IsExponent, Num, DecimalValue;
  }

  lemma SplitDigits(d: string, k: nat)
    requires AllDigits(d) && k <= |d|
    ensures AllDigits(d[..k]) && AllDigits(d[k..]) && d[..k] + d[k..] == d
  {}

  lemma NoExponent()
    ensures IsExponent([], 0)
  {}

  /** Digits with an exponent. */
  lemma ExponentLayout(d: string, e: int)
    requires d != [] && AllDigits(d)
    ensures LaysOut(d[..1], d[1..], ExponentText(e - 1), e - 1, Num(d), e - |d|)
    ensures WithPoint(d, 1) + "e" + ExponentText(e - 1) == Shape(false, d[..1], d[1..], ExponentText(e - 1))
  {
    hide *;
    ExponentIs(e - 1);
    SplitDigits(d, 1);
    IsLayout(d[..1], d[1..], ExponentText(e - 1), e - 1, d, e - |d|);
    PointShape(d, 1, ExponentText(e - 1));
  }

  lemma PointShape(d: string, k: nat, e: string)
    requires 0 < k <= |d|
    ensures WithPoint(d, k) + (if e == [] then [] else "e" + e) == Shape(false, d[..k], d[k..], e)
    ensures e != [] ==> WithPoint(d, k) + "e" + e == Shape(false, d[..k], d[k..], e)
  {
    var t: string := if e == [] then [] else "e" + e;
    var m: string := if d[k..] == [] then [] else "." + d[k..];
    assert [] + d[..k] == d[..k];
    assert WithPoint(d, k) == d[..k] + m;
    if e != [] { assert WithPoint(d, k) + "e" + e == WithPoint(d, k) + ("e" + e); }
  }

  /** A number below one. */
  lemma FractionLayout(d: string, e: int)
    requires d != [] && AllDigits(d) && e <= 0
    ensures LaysOut("0", Zeros(-e) + d, [], 0, Num(d), e - |d|)
    ensures "0." + Zeros(-e) + d == Shape(false, "0", Zeros(-e) + d, [])
  {
    hide *;
    ZeroPointValue(-e, d);
    NoExponent();
    IsLayout("0", Zeros(-e) + d, [], 0, d, e - |d|);
    ZeroPointShape(Zeros(-e), d);
  }

  lemma ZeroPointShape(z: string, d: string)
    requires d != []
    ensures "0." + z + d == Shape(false, "0", z + d, [])
  {
    assert [] + "0" == "0" && "." + (z + d) + [] == "." + z + d;
    assert "0" + ("." + (z + d)) == "0." + z + d;
  }

  lemma ZeroPointValue(n: nat, d: string)
    requires AllDigits(d)
    ensures AllDigits("0") && AllDigits(Zeros(n) + d) && AllDigits("0" + (Zeros(n) + d)) && Num("0" + (Zeros(n) + d)) == Num(d)
  {
    hide Num, Pow;
    ZerosNum(n);
    NumConcat(Zeros(n), d);
    NumOne('0');
    assert ['0'] == "0";
    NumConcat("0", Zeros(n) + d);
  }

  /** A point inside the digits. */
  lemma MixedLayout(d: string, e: int)
    requires d != [] && AllDigits(d) && 0 < e < |d|
    ensures LaysOut(d[..e], d[e..], [], 0, Num(d), e - |d|)
    ensures WithPoint(d, e) == Shape(false, d[..e], d[e..], [])
  {
    hide *;
    SplitDigits(d, e);
    NoExponent();
    IsLayout(d[..e], d[e..], [], 0, d, e - |d|);
    PointShape(d, e, []);
    assert WithPoint(d, e) + [] == WithPoint(d, e);
  }

  /** A whole number, filled up with zeros. */
  lemma WholeLayout(d: string, e: int)
    requires d != [] && AllDigits(d) && |d| <= e
    ensures LaysOut(d + Zeros(e - |d|), [], [], 0, Num(d), e - |d|)
    ensures d + Zeros(e - |d|) == Shape(false, d + Zeros(e - |d|), [], [])
  {
    hide Num, DecimalValue, Pow, AllDigits, Zeros;
    var z := e - |d|;
    var a := d + Zeros(z);
    ZerosNum(z);
    NumConcat(d, Zeros(z));
    assert a + [] == a && [] + a == a;
    ScaledDecimal(Num(d), z);
    PlainShape(a);
  }

  lemma ScaledDecimal(n: nat, z: nat)
    ensures DecimalValue(n * Pow(10, z), 0) == DecimalValue(n, z)
  {
    hide Pow, Scale;
    ScaleNat(10, z);
    ScaleZero(10);
    assert (n * Pow(10, z)) as real == n as real * Pow(10, z) as real;
  }

  /** Every text of digits lays out their value. */
  lemma DigitTextLayout(d: string, e: int, mode: ExpMode, max: nat) returns (a: string, b: string, t: string, x: int)
    requires d != [] && AllDigits(d)
    ensures LaysOut(a, b, t, x, Num(d), e - |d|) && DigitText(d, e, mode, max) == Shape(false, a, b, t)
    ensures |d| <= 17 && -390 <= e <= 390 && max <= 21 ==> Readable(a, b, x)
  {
    hide LaysOut, Num, Shape, Zeros, WithPoint, ExponentText;
    if NeedsExponent(e, mode, max) {
      a, b, t, x := d[..1], d[1..], ExponentText(e - 1), e - 1;
      ExponentLayout(d, e);
    } else if e <= 0 {
      a, b, t, x := "0", Zeros(-e) + d, [], 0;
      FractionLayout(d, e);
    } else if e < |d| {
      a, b, t, x := d[..e], d[e..], [], 0;
      MixedLayout(d, e);
    } else {
      a, b, t, x := d + Zeros(e - |d|), [], [], 0;
      WholeLayout(d, e);
    }
  }

  /** Every text of the free format lays out its digits' value. */
  lemma FreeTextLayout(d: string, e: int, mode: ExpMode) returns (a: string, b: string, t: string, x: int)
    requires d != [] && AllDigits(d) && |d| <= 17 && -390 <= e <= 390
    ensures LaysOut(a, b, t, x, Num(d), e - |d|) && FreeText(d, e, mode) == Shape(false, a, b, t) && Readable(a, b, x)
  {
    hide LaysOut, Num, Shape, DigitText;
    a, b, t, x := DigitTextLayout(d, e, mode, MAX_PLAIN_EXPONENT);
  }

  lemma SignedShape(negative: bool, a: string, b: string, e: string)
    ensures Shape(negative, a, b, e) == Sign(negative) + Shape(false, a, b, e)
  {}

  // ---------- the round trip ----------

  /** A text that lays out a decimal denotes the double which that decimal reads as, whatever stops the text. */
  lemma LaidOutReads(negative: bool, a: string, b: string, e: string, x: int, n: nat, q: int, tail: string, p: nat)
    requires LaysOut(a, b, e, x, n, q) && Readable(a, b, x) && Stops(tail)
    requires if n == 0 then p == 0 else 0 < p < INF && Reads(FloatOf(p), DecimalValue(n, q))
    ensures var w := Shape(negative, a, b, e); Denotes(Parse(w + tail, false), Double(negative, p), |w|)
  {
    hide *;
    LayoutFacts(a, b, e, x, n, q);
    ShapeParses(negative, a, b, e, x, tail);
    var d := a + b;
    assert |d| == |a| + |b|;
    if n == 0 {
      ZeroDecimal(Num(d), x - |b|, q);
      ZeroReads(d, |a|, x);
    } else {
      KeptWhole(d, |a|, x);
      PositiveDecimal(n, q, Num(d), x - |b|);
      ReadsAsIs(d, |a|, x, p);
    }
    DenotesIs(negative, d, |a|, x, |Shape(negative, a, b, e)|, p);
  }

  lemma LayoutFacts(a: string, b: string, e: string, x: int, n: nat, q: int)
    requires LaysOut(a, b, e, x, n, q) && Readable(a, b, x)
    ensures a != [] && AllDigits(a) && AllDigits(b) && IsExponent(e, x) && |a| + |b| <= 38 && -400 <= x <= 400
    ensures AllDigits(a + b) && DecimalValue(Num(a + b), x - |b|) == DecimalValue(n, q)
  {}

  lemma DenotesIs(negative: bool, d: string, point: nat, x: int, len: nat, p: nat)
    requires AllDigits(d) && ReadsAs(d, point, x, p)
    ensures Denotes(Decimal(negative, d, point, x, len), Double(negative, p), len)
  {
    hide ReadsAs;
  }

  lemma KeptWhole(d: string, point: nat, x: int)
    requires AllDigits(d) && |d| <= 38 && point <= |d| && -400 <= x <= 400
    ensures Num(Kept(d)) == Num(d) && KeptExponent(d, point, x) == x + point - |d| && ExponentFits(d, point, x)
  {
    hide Num;
    KeptAll(d);
  }

  lemma PositiveDecimal(n: nat, q: int, m: nat, r: int)
    requires n > 0 && DecimalValue(m, r) == DecimalValue(n, q)
    ensures m > 0
  {
    hide Scale;
    ScalePositive(10, q);
    RealPositive(n as real, Scale(10, q));
    assert DecimalValue(0, r) == 0.0;
  }

  lemma ReadsAsIs(d: string, point: nat, x: int, p: nat)
    requires AllDigits(d) && Num(d) > 0 && Num(Kept(d)) == Num(d) && KeptExponent(d, point, x) == x + point - |d|
    requires ExponentFits(d, point, x) && 0 < p < INF
    requires Reads(FloatOf(p), DecimalValue(Num(d), x + point - |d|))
    ensures ReadsAs(d, point, x, p)
  {
    hide Num, Kept, KeptExponent, ExponentFits, RoundedTo, DecimalValue, PatternOf, FloatOf, Scale;
    var z := ReadValue(Num(d), x + point - |d|);
    FloatOfPattern(p);
    ReadsIs(FloatOf(p), DecimalValue(Num(d), x + point - |d|), z);
    ClampRounded(NearestEven, p, z);
  }

  // ---------- into the buffer ----------

  /** One character after what has been written since q0. */
  method Put(buf: array<char>, q0: nat, q: nat, c: char) returns (p: nat)
    requires q0 <= q < buf.Length
    modifies buf
    ensures p == q + 1 && buf[q0..p] == old(buf[q0..q]) + [c] && buf[..q0] == old(buf[..q0])
  {
    buf[q] := c;
    p := q + 1;
  }

  method PutZeros(buf: array<char>, q0: nat, q: nat, n: nat) returns (p: nat)
    requires q0 <= q && q + n <= buf.Length
    modifies buf
    ensures p == q + n && buf[q0..p] == old(buf[q0..q]) + Zeros(n) && buf[..q0] == old(buf[..q0])
  {
    ghost var was := buf[q0..q];
    p := q;
    for i := 0 to n
      invariant p == q + i && buf[q0..p] == was + Zeros(i) && buf[..q0] == old(buf[..q0])
    {
      p := Put(buf, q0, p, '0');
      assert Zeros(i) + ['0'] == Zeros(i + 1);
      assert buf[q0..p] == was + (Zeros(i) + ['0']);
    }
  }

  /** The digits of tmp1 with a point. */
  method PutDigits(buf: array<char>, q0: nat, q: nat, tmp1: Mpb, n: nat, dotPos: nat) returns (p: nat)
    requires tmp1.Valid() && n >= 1 && dotPos <= n && q0 <= q && q + n + 1 <= buf.Length
    modifies buf, tmp1`len, tmp1.tab
    ensures var d := WithPoint(DigitsOf(old(tmp1.Value()), n), dotPos);
            p == q + |d| <= q + n + 1 && buf[q0..p] == old(buf[q0..q]) + d && buf[..q0] == old(buf[..q0])
  {
    hide DigitsOf, WithPoint;
    ghost var was := buf[..];
    var len := OutputDigits(buf, q, tmp1, n, dotPos);
    p := q + len;
    assert buf[..q0] == buf[..q][..q0] == was[..q][..q0];
    assert buf[q0..q] == buf[..q][q0..] == was[..q][q0..];
    assert buf[q0..p] == buf[q0..q] + buf[q..p];
  }

  method PutNumber(buf: array<char>, q0: nat, q: nat, n: nat) returns (p: nat)
    requires n < 1000 && q0 <= q && q + 3 <= buf.Length
    modifies buf
    ensures p == q + |Dec(n)| <= q + 3 && buf[q0..p] == old(buf[q0..q]) + Dec(n) && buf[..q0] == old(buf[..q0])
  {
    hide Dec;
    ghost var was := buf[..];
    ThreeDigits(n);
    var len := U32ToA(buf, q, n);
    p := q + len;
    assert buf[..q0] == buf[..q][..q0] == was[..q][..q0];
    assert buf[q0..q] == buf[..q][q0..] == was[..q][q0..];
    assert buf[q0..p] == buf[q0..q] + buf[q..p];
  }

  lemma ThreeDigits(n: nat)
    requires n < 1000
    ensures |Dec(n)| <= 3
  {
    PowStep(10, 0);
    PowStep(10, 1);
    PowStep(10, 2);
    DecLength(n, 3);
  }

  /** The longest text of P digits with its sign. */
  function Room(P: nat, max: nat): nat { if max < P + 4 then P + 8 else max + 4 }

  /** The output part of js_dtoa: P digits, the first of them worth 10^(E - 1). */
  method WriteNumber(buf: array<char>, q0: nat, tmp1: Mpb, P: nat, E: int, mode: ExpMode, max: nat) returns (q: nat)
    requires tmp1.Valid() && 1 <= P && -390 <= E <= 390 && q0 <= 1 && buf.Length > Room(P, max)
    modifies buf, tmp1`len, tmp1.tab
    ensures q0 <= q <= Room(P, max) && buf[q0..q] == DigitText(DigitsOf(old(tmp1.Value()), P), E, mode, max)
    ensures buf[..q0] == old(buf[..q0])
  {
    hide DigitsOf, Dec, Zeros, WithPoint, DigitText, ExponentText;
    ghost var d := DigitsOf(tmp1.Value(), P);
    DigitTextIs(d, E, mode, max);
    assert buf[q0..q0] == [];
    if NeedsExponent(E, mode, max) {
      q := PutDigits(buf, q0, q0, tmp1, P, 1);
      q := Put(buf, q0, q, 'e');
      var e := E - 1;
      q := Put(buf, q0, q, if e < 0 then '-' else '+');
      q := PutNumber(buf, q0, q, if e < 0 then -e else e);
      ExponentPieces(WithPoint(d, 1), e);
    } else if E <= 0 {
      q := Put(buf, q0, q0, '0');
      q := Put(buf, q0, q, '.');
      q := PutZeros(buf, q0, q, -E);
      q := PutDigits(buf, q0, q, tmp1, P, P);
      FractionPieces(Zeros(-E), d);
    } else {
      q := PutDigits(buf, q0, q0, tmp1, P, if P < E then P else E);
      if E > P {
        q := PutZeros(buf, q0, q, E - P);
      }
      WholePieces(d, E);
    }
  }

  lemma DigitTextIs(d: string, e: int, mode: ExpMode, max: nat)
    requires d != []
    ensures DigitText(d, e, mode, max) == if NeedsExponent(e, mode, max) then WithPoint(d, 1) + "e" + ExponentText(e - 1)
                                          else if e <= 0 then "0." + Zeros(-e) + d
                                          else if e < |d| then WithPoint(d, e)
                                          else d + Zeros(e - |d|)
  {}

  lemma ExponentPieces(d: string, e: int)
    ensures [] + d + ['e'] + [if e < 0 then '-' else '+'] + Dec(if e < 0 then -e else e) == d + "e" + ExponentText(e)
  {
    hide Dec;
    var sign: string := if e < 0 then "-" else "+";
    assert ['e'] == "e" && [if e < 0 then '-' else '+'] == sign && [] + d == d;
    assert ExponentText(e) == sign + Dec(if e < 0 then -e else e);
  }

  lemma FractionPieces(z: string, d: string)
    ensures [] + ['0'] + ['.'] + z + WithPoint(d, |d|) == "0." + z + d
  {
    assert [] + ['0'] + ['.'] == "0.";
  }

  lemma WholePieces(d: string, e: int)
    requires 0 < e
    ensures e < |d| ==> [] + WithPoint(d, e) == WithPoint(d, e)
    ensures e >= |d| ==> [] + WithPoint(d, |d|) == d && (e == |d| ==> d == d + Zeros(e - |d|))
  {}

  // ---------- js_dtoa ----------

  /** A whole number below 2^53, printed without the search. */
  predicate IsSmallInteger(x: Float) { 1 <= x.e <= 53 && x.m % Pow(2, 53 - x.e) == 0 }

  function SmallInteger(x: Float): nat
    requires IsSmallInteger(x)
  {
    x.m / Pow(2, 53 - x.e)
  }

  /** The text of a finite nonzero double: a small integer as it is, else the digits of the search. */
  ghost predicate IsTextOf(s: string, negative: bool, mag: nat, mode: ExpMode) {
    var x := FloatOf(mag);
    if mode == Auto && IsSmallInteger(x) then s == Sign(negative) + Dec(SmallInteger(x))
    else
      exists P, E, mant ::
        Found(x, P, E, mant) && LastToRead(x, P) && s == Sign(negative) + FreeText(DigitsOf(mant, P), E, mode)
  }

  function SpecialText(negative: bool, mag: nat): string {
    if mag > INF then "NaN" else Sign(negative) + "Infinity"
  }

  method PrintDouble(buf: array<char>, tmp1: Mpb, negative: bool, mag: nat, mode: ExpMode, minusZero: bool) returns (len: nat)
    requires mag < TWO63 && buf.Length > MAX_LENGTH && tmp1.tab.Length == BIGNUM_LIMBS
    modifies buf, tmp1`len, tmp1.tab
    ensures len <= MAX_LENGTH
    ensures mag >= INF ==> buf[..len] == SpecialText(negative, mag)
    ensures mag == 0 ==> buf[..len] == Sign(negative && minusZero) + FreeText("0", 1, mode)
    ensures 0 < mag < INF ==> IsTextOf(buf[..len], negative, mag, mode)
  {
    hide IsTextOf, FreeText, FloatOf;
    if mag >= INF {
      len := PrintSpecial(buf, negative, mag);
      return;
    }
    var signed := negative && (mag > 0 || minusZero);
    var q0 := PutSign(buf, signed);
    if mag == 0 {
      len := PrintZero(buf, q0, tmp1, mode);
    } else {
      len := PrintDigits(buf, q0, tmp1, mag, mode);
      SignedText(buf[q0..len], negative, mag, mode);
    }
    assert buf[..len] == buf[..q0] + buf[q0..len];
  }

  method PutSign(buf: array<char>, negative: bool) returns (q0: nat)
    requires buf.Length > 1
    modifies buf
    ensures q0 <= 1 && buf[..q0] == Sign(negative)
  {
    q0 := 0;
    if negative {
      buf[0] := '-';
      q0 := 1;
    }
  }

  /** NaN and the infinities, printed whatever the format. */
  method PrintSpecial(buf: array<char>, negative: bool, mag: nat) returns (len: nat)
    requires mag >= INF && buf.Length > 9
    modifies buf
    ensures len <= 9 && buf[..len] == SpecialText(negative, mag)
  {
    if mag > INF {
      buf[0], buf[1], buf[2] := 'N', 'a', 'N';
      assert buf[..3] == "NaN";
      return 3;
    }
    var q0 := PutSign(buf, negative);
    var w := "Infinity";
    forall k | 0 <= k < 8 { buf[q0 + k] := w[k]; }
    assert buf[q0..q0 + 8] == w;
    assert buf[..q0 + 8] == buf[..q0] + buf[q0..q0 + 8];
    len := q0 + 8;
  }

  method SetZero(tmp1: Mpb)
    requires tmp1.tab.Length > 1
    modifies tmp1`len, tmp1.tab
    ensures tmp1.Valid() && tmp1.Value() == 0
  {
    tmp1.len := 1;
    tmp1.tab[0] := 0;
    assert tmp1.tab[..1] == [0];
    ValSingle(0);
  }

  method PrintZero(buf: array<char>, q0: nat, tmp1: Mpb, mode: ExpMode) returns (q: nat)
    requires q0 <= 1 && buf.Length > MAX_LENGTH && tmp1.tab.Length == BIGNUM_LIMBS
    modifies buf, tmp1`len, tmp1.tab
    ensures q0 <= q <= MAX_LENGTH && buf[q0..q] == FreeText("0", 1, mode) && buf[..q0] == old(buf[..q0])
  {
    hide DigitText, DigitsOf, Room;
    FreeRoom();
    SetZero(tmp1);
    ZeroDigit();
    q := WriteNumber(buf, q0, tmp1, 1, 1, mode, MAX_PLAIN_EXPONENT);
  }

  /** A finite nonzero number without its sign: a small integer as it is, else the digits of the search. */
  method PrintDigits(buf: array<char>, q0: nat, tmp1: Mpb, mag: nat, mode: ExpMode) returns (q: nat)
    requires 0 < mag < INF && q0 <= 1 && buf.Length > MAX_LENGTH && tmp1.tab.Length == BIGNUM_LIMBS
    modifies buf, tmp1`len, tmp1.tab
    ensures q0 <= q <= MAX_LENGTH && IsTextOf(buf[q0..q], false, mag, mode) && buf[..q0] == old(buf[..q0])
  {
    hide Pow, FloatOf, Found, LastToRead, DigitText, Dec, DigitsOf, Printable, Room, IsTextOf, FreeText;
    FreeRoom();
    var x := FloatOf(mag);
    FloatOfPattern(mag);
    if mode == Auto && IsSmallInteger(x) {
      SmallSize(x);
      var len := U64ToA(buf, q0, SmallInteger(x));
      q := q0 + len;
      IsIntegerText(buf[q0..q], mag, mode);
    } else {
      var P, E := FreeDigits(tmp1, x);
      ghost var mant := tmp1.Value();
      FoundRange(x, P, E, mant);
      q := WriteNumber(buf, q0, tmp1, P, E, mode, MAX_PLAIN_EXPONENT);
      IsDigitsText(buf[q0..q], mag, mode, P, E, mant);
    }
  }

  lemma IsIntegerText(w: string, mag: nat, mode: ExpMode)
    requires mode == Auto && IsSmallInteger(FloatOf(mag)) && w == Dec(SmallInteger(FloatOf(mag)))
    ensures IsTextOf(w, false, mag, mode)
  {
    hide Dec, IsSmallInteger, SmallInteger, FloatOf;
    assert [] + w == w;
  }

  lemma IsDigitsText(w: string, mag: nat, mode: ExpMode, P: nat, E: int, n: nat)
    requires !(mode == Auto && IsSmallInteger(FloatOf(mag)))
    requires P > 0 && Found(FloatOf(mag), P, E, n) && LastToRead(FloatOf(mag), P)
    requires w == DigitText(DigitsOf(n, P), E, mode, MAX_PLAIN_EXPONENT)
    ensures IsTextOf(w, false, mag, mode)
  {
    hide Found, ReadsAt, DigitText, DigitsOf, IsSmallInteger, FloatOf;
    assert w == Sign(false) + FreeText(DigitsOf(n, P), E, mode) by { assert [] + w == w; }
  }

  lemma SignedText(w: string, negative: bool, mag: nat, mode: ExpMode)
    requires IsTextOf(w, false, mag, mode)
    ensures IsTextOf(Sign(negative) + w, negative, mag, mode)
  {
    hide Found, ReadsAt, FreeText, DigitsOf, Dec, IsSmallInteger, SmallInteger, FloatOf;
    var x := FloatOf(mag);
    if mode == Auto && IsSmallInteger(x) {
      assert w == [] + Dec(SmallInteger(x)) == Dec(SmallInteger(x));
    } else {
      var P, E, n :| Found(x, P, E, n) && LastToRead(x, P) && w == Sign(false) + FreeText(DigitsOf(n, P), E, mode);
      assert w == FreeText(DigitsOf(n, P), E, mode);
    }
  }

  /** The text of a double is settled by it. */
  lemma TextOnce(s: string, s': string, negative: bool, mag: nat, mode: ExpMode)
    requires IsTextOf(s, negative, mag, mode) && IsTextOf(s', negative, mag, mode)
    ensures s == s'
  {
    hide Found, ReadsAt, FreeText, DigitsOf, Dec, IsSmallInteger, SmallInteger, FloatOf;
    var x := FloatOf(mag);
    if !(mode == Auto && IsSmallInteger(x)) {
      var P, E, n :| Found(x, P, E, n) && LastToRead(x, P) && s == Sign(negative) + FreeText(DigitsOf(n, P), E, mode);
      var Q, F, m :| Found(x, Q, F, m) && LastToRead(x, Q) && s' == Sign(negative) + FreeText(DigitsOf(m, Q), F, mode);
      FoundOnce(x, P, E, n, Q, F, m);
    }
  }

  lemma FreeRoom()
    ensures forall P: nat :: P <= 17 ==> Room(P, MAX_PLAIN_EXPONENT) <= MAX_LENGTH
  {}

  lemma ZeroDigit()
    ensures DigitsOf(0, 1) == "0"
  {
    assert DigitsOf(0, 0) == [];
    assert DigitsOf(0, 1) == [] + [DigitChar(0)];
    assert DigitChar(0) == '0';
  }

  lemma SmallSize(x: Float)
    requires IsSmallInteger(x) && Printable(x)
    ensures 0 < SmallInteger(x) < 0x20_0000_0000_0000 && |Dec(SmallInteger(x))| <= 16
    ensures SmallInteger(x) as real == FloatValue(x)
  {
    hide Pow, Scale, Dec;
    var k: int := 53 - x.e;
    var p := Pow(2, k);
    PowMonotone(2, 0, k);
    PowStep(2, 0);
    PowMonotone(2, k, 52);
    PowersOfTwo();
    var n, r := Cell(x.m, p);
    DivUnique(x.m, p, n, r);
    if n <= 0 { Monotone(n, 0, p); }
    Monotone(1, p, n);
    SixteenDigits();
    DecLength(n, 16);
    ScaleInverse(2, k);
    ScaleNat(2, k);
    UnscaledBy(x.m, n, p, Scale(2, -k));
  }

  lemma FoundRange(x: Float, P: nat, E: int, mant: nat)
    requires Printable(x) && Found(x, P, E, mant)
    ensures 1 <= P <= 17 && -390 <= E <= 390 && 0 < mant < Pow(10, P) && Reads(x, DecimalValue(mant, E - P))
  {
    hide Pow, FirstExponent, Reads, DecimalValue, InRange, WithinHalf;
    ExponentRange(x);
    PowMonotone(10, 0, P - 1);
    PowStep(10, 0);
    FoundExponent(x, P, E, mant);
  }

  lemma FoundExponent(x: Float, P: nat, E: int, mant: nat)
    requires Candidate(x, P, E, mant)
    ensures E == FirstExponent(x) || E == FirstExponent(x) + 1
  {
    hide Pow, FirstExponent, Scaled10;
  }

  // ---------- printing, then reading ----------

  lemma {:induction false} ValueReads(x: Float)
    requires ProperFloat(x) && x.m > 0
    ensures Reads(x, FloatValue(x))
  {
    hide Scale, Mag, PatternOf, RoundedTo, Pow, FloatValue;
    MagIsValue(x);
    ReadsIs(x, FloatValue(x), FloatValue(x) * Scale(2, 1074));
    SelfRounds(PatternOf(x));
  }

  lemma SelfRounds(p: nat)
    ensures RoundedTo(NearestEven, p, Mag(p) as real)
  {
    hide Mag;
    MagStep(p);
    if p > 0 { MagStep(p - 1); }
  }

  /** The text of every finite nonzero double lays out a decimal that reads as that double. */
  lemma TextLaysOut(s: string, negative: bool, mag: nat, mode: ExpMode)
    returns (a: string, b: string, e: string, x: int, n: nat, q: int)
    requires 0 < mag < INF && IsTextOf(s, negative, mag, mode)
    ensures LaysOut(a, b, e, x, n, q) && Readable(a, b, x) && s == Shape(negative, a, b, e) && n > 0
    ensures Reads(FloatOf(mag), DecimalValue(n, q))
  {
    hide Pow, FloatOf, FreeText, Dec, DigitsOf, Printable, LaysOut, Shape, Num, IsSmallInteger, SmallInteger, FloatValue,
         Reads, DecimalValue, ProperFloat, PatternOf, Candidate;
    var f := FloatOf(mag);
    FloatOfPattern(mag);
    PrintableIs(f);
    if mode == Auto && IsSmallInteger(f) {
      n, q := SmallInteger(f), 0;
      SmallSize(f);
      ValueReads(f);
      WholeValue(n);
      a, b, e, x := Dec(n), [], [], 0;
      IntegerLayout(n);
    } else {
      var P: nat, E: int, mant: nat :| Found(f, P, E, mant) && s == Sign(negative) + FreeText(DigitsOf(mant, P), E, mode);
      FoundRange(f, P, E, mant);
      DigitsOfNum(mant, P);
      n, q := mant, E - P;
      a, b, e, x := FreeTextLayout(DigitsOf(mant, P), E, mode);
    }
    SignedShape(negative, a, b, e);
  }

  lemma WholeValue(n: nat)
    ensures DecimalValue(n, 0) == n as real
  {
    ScaleZero(10);
  }

  lemma IntegerLayout(n: nat)
    requires |Dec(n)| <= 16
    ensures LaysOut(Dec(n), [], [], 0, n, 0) && Readable(Dec(n), [], 0) && Dec(n) == Shape(false, Dec(n), [], [])
  {
    hide *;
    DecNum(n);
    NoExponent();
    assert Dec(n) + [] == Dec(n);
    PlainShape(Dec(n));
    IsLayout(Dec(n), [], [], 0, Dec(n), 0);
    WholeReadable(Dec(n));
  }

  lemma WholeReadable(d: string)
    requires |d| <= 16
    ensures Readable(d, [], 0)
  {}

  lemma PlainShape(d: string)
    requires d != []
    ensures d == Shape(false, d, [], []) && AllDigits([])
  {
    assert [] + d + [] + [] == d;
  }

  lemma ZeroLayout(mode: ExpMode) returns (a: string, b: string, e: string, x: int)
    ensures LaysOut(a, b, e, x, 0, 0) && Readable(a, b, x) && FreeText("0", 1, mode) == Shape(false, a, b, e)
  {
    hide *;
    NumOne('0');
    assert ['0'] == "0";
    a, b, e, x := FreeTextLayout("0", 1, mode);
    ZeroValue();
  }

  lemma ZeroValue()
    ensures DigitValue('0') == 0 && |"0"| == 1
  {}

  lemma ZeroDecimal(m: nat, r: int, q: int)
    requires DecimalValue(m, r) == DecimalValue(0, q)
    ensures m == 0
  {
    hide Scale;
    ScalePositive(10, r);
    RealOrder(0.0, m as real, Scale(10, r));
  }

  /** Every double printed in free format is read back as itself, but for the sign of a zero printed without it. */
  method PrintThenRead(buf: array<char>, tmp1: Mpb, tmp0: Mpb, negative: bool, mag: nat, mode: ExpMode, minusZero: bool)
    returns (r: Outcome)
    requires mag <= INF && buf.Length > MAX_LENGTH
    requires tmp1.tab.Length == BIGNUM_LIMBS && tmp0.tab.Length == BIGNUM_LIMBS
    modifies buf, tmp1`len, tmp1.tab, tmp0`len, tmp0.tab
    ensures r == Double(negative && (mag > 0 || minusZero), mag)
  {
    hide IsTextOf, LaysOut, Shape, Denotes, Parse, Reads, FloatOf, DecimalValue, FreeText;
    var len := PrintDouble(buf, tmp1, negative, mag, mode, minusZero);
    var s, end := buf[..len], 0;
    assert s + [] == s;
    r, end := Atod(tmp0, s, false);
    if mag == INF {
      InfinityReadsBack(negative, r, end);
    } else if mag == 0 {
      ghost var a, b, e, x := ZeroLayout(mode);
      SignedShape(negative && minusZero, a, b, e);
      LaidOutReads(negative && minusZero, a, b, e, x, 0, 0, [], 0);
      DenotesOnce(Parse(s, false), Double(negative && minusZero, 0), len, r, end);
    } else {
      ghost var a, b, e, x, n, q := TextLaysOut(s, negative, mag, mode);
      LaidOutReads(negative, a, b, e, x, n, q, [], mag);
      DenotesOnce(Parse(s, false), Double(negative, mag), len, r, end);
    }
  }

  lemma InfinityReadsBack(negative: bool, r: Outcome, end: nat)
    requires Denotes(Parse(Sign(negative) + "Infinity", false), r, end)
    ensures r == Double(negative, INF)
  {
    hide MantissaEnd, MantissaDigits, DigitRun;
    var s := Sign(negative) + "Infinity";
    assert s[|Sign(negative)|..|Sign(negative)| + 8] == "Infinity";
  }
}
