/** js_atod in radix 10: text to the nearest double. */
module Reader {
  import opened Arith
  import opened Powers
  import opened Rounding
  import opened Binary64
  import opened Bits
  import opened Limbs
  import opened LimbBits
  import opened Bignum
  import opened RadixPower
  import opened Scaling
  import opened Log10
  import opened Shortest
  import opened FreeFormat
  import opened DecimalText

  // ---------- scanning the digits ----------

  /** The digits of s[start..p], with the point at position dot left out. */
  ghost function Mantissa(s: string, start: nat, p: nat, dot: int): string
    requires start <= p <= |s| && dot < p - start
  {
    if dot < 0 then s[start..p] else s[start..start + dot] + s[start + dot + 1..p]
  }

  /** s[start..p] is pos digits and, where dot says, a point. */
  ghost predicate Scanned(s: string, start: nat, intOnly: bool, p: nat, pos: nat, dot: int) {
    && start <= p <= |s| && -1 <= dot < p - start && pos == p - start - (if dot >= 0 then 1 else 0)
    && AllDigits(Mantissa(s, start, p, dot)) && (dot >= 0 ==> PointAt(s, start, start + dot, intOnly))
  }

  lemma ScanStart(s: string, start: nat, intOnly: bool)
    requires start <= |s|
    ensures Scanned(s, start, intOnly, start, 0, -1) && Mantissa(s, start, start, -1) == []
  {}

  lemma ScanPoint(s: string, start: nat, intOnly: bool, p: nat, pos: nat)
    requires Scanned(s, start, intOnly, p, pos, -1) && PointAt(s, start, p, intOnly)
    ensures p < |s| && Scanned(s, start, intOnly, p + 1, pos, pos) && pos < p + 1 - start
    ensures Mantissa(s, start, p + 1, pos) == Mantissa(s, start, p, -1)
  {
    assert Mantissa(s, start, p + 1, pos) == Mantissa(s, start, p, -1);
  }

  lemma ScanDigit(s: string, start: nat, intOnly: bool, p: nat, pos: nat, dot: int)
    requires Scanned(s, start, intOnly, p, pos, dot) && IsDigit(At(s, p))
    ensures p < |s| && Scanned(s, start, intOnly, p + 1, pos + 1, dot)
    ensures Mantissa(s, start, p + 1, dot) == Mantissa(s, start, p, dot) + [At(s, p)]
  {
    hide IsDigit, AllDigits, PointAt;
    InText(s, p);
    MantissaSnoc(s, start, p, dot);
    MoreDigits(Mantissa(s, start, p, dot), s[p]);
  }

  lemma InText(s: string, p: nat)
    requires IsDigit(At(s, p))
    ensures p < |s|
  {}

  lemma MantissaSnoc(s: string, start: nat, p: nat, dot: int)
    requires start <= p < |s| && dot < p - start
    ensures Mantissa(s, start, p + 1, dot) == Mantissa(s, start, p, dot) + [s[p]]
  {
    if dot >= 0 {
      assert s[start + dot + 1..p + 1] == s[start + dot + 1..p] + [s[p]];
    } else {
      assert s[start..p + 1] == s[start..p] + [s[p]];
    }
  }

  lemma MoreDigits(d: string, c: char)
    requires AllDigits(d) && IsDigit(c)
    ensures AllDigits(d + [c])
  {}

  lemma ScanEnd(s: string, start: nat, intOnly: bool, p: nat, pos: nat, dot: int)
    requires Scanned(s, start, intOnly, p, pos, dot) && !IsDigit(At(s, p))
    requires dot >= 0 || !PointAt(s, start, p, intOnly)
    ensures p == MantissaEnd(s, start, intOnly)
    ensures Mantissa(s, start, p, dot) == MantissaDigits(s, start, intOnly)
    ensures DigitRun(s, start) == if dot < 0 then pos else dot
  {
    hide AllDigits, Mantissa, PointAt, Scanned, DigitRun, At, IsDigit;
    ScannedParts(s, start, intOnly, p, pos, dot);
    if dot < 0 {
      DigitRunUnique(s, start, p);
      assert s[start..p] + [] == s[start..p];
    } else {
      DigitRunUnique(s, start, start + dot);
      DigitRunUnique(s, start + dot + 1, p);
    }
  }

  lemma ScannedParts(s: string, start: nat, intOnly: bool, p: nat, pos: nat, dot: int)
    requires Scanned(s, start, intOnly, p, pos, dot)
    ensures start <= p <= |s| && dot < p - start && -1 <= dot <= pos
    ensures dot < 0 ==> p == start + pos && AllDigits(s[start..p]) && Mantissa(s, start, p, dot) == s[start..p]
    ensures dot >= 0 ==>
              && start + dot + 1 <= p && PointAt(s, start, start + dot, intOnly) && !IsDigit(At(s, start + dot))
              && AllDigits(s[start..start + dot]) && AllDigits(s[start + dot + 1..p])
              && Mantissa(s, start, p, dot) == s[start..start + dot] + s[start + dot + 1..p]
  {
    if dot >= 0 {
      var m, i := Mantissa(s, start, p, dot), start + dot;
      assert m[..dot] == s[start..i] && m[dot..] == s[i + 1..p];
    }
  }

  /** Nothing more to skip: the next character is no zero, and no point that counts. */
  ghost predicate AtSignificant(s: string, start: nat, intOnly: bool, p: nat, dot: int) {
    At(s, p) != '0' && (dot >= 0 || !PointAt(s, start, p, intOnly))
  }

  lemma NowSignificant(s: string, start: nat, intOnly: bool, p: nat, dot: int)
    requires At(s, p) != '0' && (dot >= 0 || !PointAt(s, start, p, intOnly))
    ensures AtSignificant(s, start, intOnly, p, dot)
  {}

  lemma NoZeros()
    ensures AllZeros([])
  {}

  lemma MoreZeros(d: string)
    requires AllZeros(d)
    ensures AllZeros(d + ['0'])
  {}

  method SkipZeros(s: string, start: nat, intOnly: bool) returns (p: nat, pos: nat, dot: int)
    requires start <= |s|
    ensures Scanned(s, start, intOnly, p, pos, dot) && AllZeros(Mantissa(s, start, p, dot))
    ensures AtSignificant(s, start, intOnly, p, dot) && start <= p <= |s|
  {
    hide Scanned, AllDigits, AllZeros, Mantissa, AtSignificant;
    p, pos, dot := start, 0, -1;
    ScanStart(s, start, intOnly);
    NoZeros();
    while true
      invariant start <= p <= |s| && dot < p - start
      invariant Scanned(s, start, intOnly, p, pos, dot) && AllZeros(Mantissa(s, start, p, dot))
      decreases |s| - p
    {
      if PointAt(s, start, p, intOnly) {
        if dot >= 0 {
          NowSignificant(s, start, intOnly, p, dot);
          break;
        }
        ScanPoint(s, start, intOnly, p, pos);
        dot, p := pos, p + 1;
      }
      if At(s, p) != '0' {
        NowSignificant(s, start, intOnly, p, dot);
        break;
      }
      ScanDigit(s, start, intOnly, p, pos, dot);
      MoreZeros(Mantissa(s, start, p, dot));
      p, pos := p + 1, pos + 1;
    }
  }

  // ---------- gathering the digits into limbs ----------

  /** r = r * b + a, a base of 0 standing for that of the limbs. */
  method Mul1Base(r: Mpb, b: nat, a: nat)
    requires r.Valid() && b < LIMB && a < LIMB && r.len + (if b == 0 then 1 else 0) < r.tab.Length
    modifies r`len, r.tab
    ensures r.Valid() && r.Value() == old(r.Value()) * (if b == 0 then LIMB else b) + a && r.len <= old(r.len) + 1
    ensures old(r.Value()) == 0 ==> r.len == 1
  {
    hide Base, Val;
    ghost var was := r.tab[..r.len];
    if r.tab[0] == 0 && r.len == 1 {
      assert was == [0];
      ValSingle(0);
      r.tab[0] := a;
      assert r.tab[..1] == [a];
      ValSingle(a);
    } else if b == 0 {
      NotZero(r);
      ShiftLimbsUp(r, a);
    } else {
      NotZero(r);
      var h := MulOne(r.tab, r.len, b, a);
      assert h * Base(r.len) == Base(r.len) * h;
      r.AppendLimb(h);
      r.Renorm();
    }
  }

  /** The limbs moved up by one, the highest first, with whatever is above them. */
  method MoveUpOne(tab: array<nat>, len: nat)
    requires len + 1 < tab.Length
    modifies tab
    ensures tab[1..len + 1] == old(tab[..len])
  {
    var i: int := len;
    while i >= 0
      invariant -1 <= i <= len
      invariant forall k :: 0 <= k <= i ==> tab[k] == old(tab[k])
      invariant forall k :: i < k <= len ==> tab[k + 1] == old(tab[k])
    {
      tab[i + 1] := tab[i];
      i := i - 1;
    }
  }

  /** Times the base of the limbs, plus a. */
  method ShiftLimbsUp(r: Mpb, a: nat)
    requires r.Valid() && r.Value() > 0 && a < LIMB && r.len + 1 < r.tab.Length
    modifies r`len, r.tab
    ensures r.Valid() && r.Value() == old(r.Value()) * LIMB + a && r.len == old(r.len) + 1
  {
    hide Base, Val;
    ghost var was := r.tab[..r.len];
    TopLimb(was);
    MoveUpOne(r.tab, r.len);
    r.tab[0] := a;
    r.len := r.len + 1;
    ghost var now := r.tab[..r.len];
    assert now == [a] + was;
    LowLimb(a, was);
    UpOne(a, was, now);
    assert forall k :: 0 <= k < r.len ==> r.tab[k] == now[k];
  }

  lemma TopLimb(s: seq<nat>)
    requires |s| > 0 && Val(s) > 0 && (|s| > 1 ==> s[|s| - 1] != 0)
    ensures s[|s| - 1] != 0
  {
    if |s| == 1 {
      assert s == [s[0]];
      ValSingle(s[0]);
    }
  }

  lemma UpOne(a: nat, s: seq<nat>, t: seq<nat>)
    requires t == [a] + s && a < LIMB && |s| > 0 && s[|s| - 1] != 0 && forall k :: 0 <= k < |s| ==> s[k] < LIMB
    ensures t[|t| - 1] != 0 && forall k :: 0 <= k < |t| ==> t[k] < LIMB
  {}

  lemma LowLimb(a: nat, s: seq<nat>)
    ensures Val([a] + s) == Val(s) * LIMB + a
  {
    assert ([a] + s)[1..] == s;
  }

  lemma NotZero(r: Mpb)
    requires r.Valid() && !(r.tab[0] == 0 && r.len == 1)
    ensures r.Value() > 0
  {
    hide Base;
    if r.len == 1 {
      assert r.tab[..1] == [r.tab[0]];
      ValSingle(r.tab[0]);
    } else {
      ValTop(r.tab[..r.len]);
      BaseIsPowerOfTwo(r.len - 1);
      Positive(1, 1);
      PowMonotone(2, 0, 32 * (r.len - 1));
      PowStep(2, 0);
    }
  }

  /** count digits of d are in: v by nines, and n more of them in cur. */
  ghost predicate Gathered(d: string, count: nat, v: nat, cur: nat, n: nat) {
    && AllDigits(d) && count == (if |d| <= MAX_DIGITS then |d| else MAX_DIGITS)
    && n <= 9 && n <= count && cur < Pow(10, n)
    && v * Pow(10, n) + cur == Num(d[..count])
  }

  lemma GatherStart()
    ensures Gathered([], 0, 0, 0, 0)
  {
    PowStep(10, 0);
  }

  lemma GatherDigit(d: string, c: char, count: nat, v: nat, cur: nat, n: nat)
    requires Gathered(d, count, v, cur, n) && IsDigit(c) && n < 9
    ensures count < MAX_DIGITS ==>
              Gathered(d + [c], count + 1, v, cur * 10 + DigitValue(c), n + 1)
    ensures count >= MAX_DIGITS ==> Gathered(d + [c], count, v, cur, n)
  {
    hide Pow, Num;
    NumSnoc(d, c);
    PowStep(10, n);
    NextDigit(v, Pow(10, n), cur, Num(d[..count]), DigitValue(c));
    if count < MAX_DIGITS {
      assert (d + [c])[..count + 1] == d + [c] && d[..count] == d;
    } else {
      assert (d + [c])[..count] == d[..count];
    }
  }

  lemma NextDigit(v: nat, p: nat, cur: nat, total: nat, c: nat)
    requires v * p + cur == total
    ensures v * (10 * p) + (cur * 10 + c) == 10 * total + c
  {}

  lemma GatherFlush(d: string, count: nat, v: nat, cur: nat, n: nat, b: nat)
    requires Gathered(d, count, v, cur, n) && b == Pow(10, n)
    ensures Gathered(d, count, v * b + cur, 0, 0)
  {
    hide Pow;
    PowStep(10, 0);
  }

  lemma LimbRoom(n: nat)
    requires n <= 9
    ensures 1 <= Pow(10, n) <= 0x3b9a_ca00 < LIMB
  {
    hide Pow;
    TenToNine();
    PowMonotone(10, n, 9);
    PowMonotone(10, 0, n);
    PowStep(10, 0);
  }

  /** The scan after the leading zeros: what p, the counters and the limbs stand for. */
  ghost predicate Scanning(s: string, start: nat, intOnly: bool, p: nat, pos: nat, dot: int, sigPos: nat,
                           count: nat, v: nat, cur: nat, n: nat) {
    && Scanned(s, start, intOnly, p, pos, dot) && sigPos <= pos
    && var d := Mantissa(s, start, p, dot);
    && |d| == pos && AllZeros(d[..sigPos]) && Gathered(d[sigPos..], count, v, cur, n)
    && (pos == sigPos ==> AtSignificant(s, start, intOnly, p, dot))
    && (pos > sigPos ==> d[sigPos] != '0')
  }

  lemma ScanningStart(s: string, start: nat, intOnly: bool, p: nat, pos: nat, dot: int)
    requires Scanned(s, start, intOnly, p, pos, dot) && AllZeros(Mantissa(s, start, p, dot))
    requires AtSignificant(s, start, intOnly, p, dot)
    ensures Scanning(s, start, intOnly, p, pos, dot, pos, 0, 0, 0, 0)
  {
    GatherStart();
    var d := Mantissa(s, start, p, dot);
    assert d[..|d|] == d && d[|d|..] == [];
  }

  lemma ScanningPoint(s: string, start: nat, intOnly: bool, p: nat, pos: nat, sigPos: nat,
                      count: nat, v: nat, cur: nat, n: nat)
    requires Scanning(s, start, intOnly, p, pos, -1, sigPos, count, v, cur, n) && PointAt(s, start, p, intOnly)
    ensures p < |s| && Scanning(s, start, intOnly, p + 1, pos, pos, sigPos, count, v, cur, n)
  {
    hide Gathered, Mantissa, AllDigits;
    ScanPoint(s, start, intOnly, p, pos);
  }

  lemma ScanningDigit(s: string, start: nat, intOnly: bool, p: nat, pos: nat, dot: int, sigPos: nat,
                      count: nat, v: nat, cur: nat, n: nat)
    requires Scanning(s, start, intOnly, p, pos, dot, sigPos, count, v, cur, n) && IsDigit(At(s, p)) && n < 9
    ensures p < |s| && count <= MAX_DIGITS
    ensures count < MAX_DIGITS ==>
              Scanning(s, start, intOnly, p + 1, pos + 1, dot, sigPos,
                       count + 1, v, cur * 10 + DigitValue(At(s, p)), n + 1)
    ensures count >= MAX_DIGITS ==>
              Scanning(s, start, intOnly, p + 1, pos + 1, dot, sigPos, count, v, cur, n)
  {
    hide Mantissa, Gathered, AllDigits;
    var d, c := Mantissa(s, start, p, dot), At(s, p);
    ScanDigit(s, start, intOnly, p, pos, dot);
    assert (d + [c])[sigPos..] == d[sigPos..] + [c];
    assert (d + [c])[..sigPos] == d[..sigPos];
    GatherDigit(d[sigPos..], c, count, v, cur, n);
    GatheredCount(d[sigPos..], count, v, cur, n);
  }

  lemma GatheredCount(d: string, count: nat, v: nat, cur: nat, n: nat)
    requires Gathered(d, count, v, cur, n)
    ensures count <= MAX_DIGITS && n <= 9 && cur < Pow(10, n)
  {}

  lemma ScanningFlush(s: string, start: nat, intOnly: bool, p: nat, pos: nat, dot: int, sigPos: nat,
                      count: nat, v: nat, cur: nat, n: nat, b: nat)
    requires Scanning(s, start, intOnly, p, pos, dot, sigPos, count, v, cur, n) && b == Pow(10, n)
    ensures Scanning(s, start, intOnly, p, pos, dot, sigPos, count, v * b + cur, 0, 0)
  {
    hide Gathered, Mantissa, AllDigits, AtSignificant;
    GatherFlush(Mantissa(s, start, p, dot)[sigPos..], count, v, cur, n, b);
  }

  lemma ScanningWord(s: string, start: nat, intOnly: bool, p: nat, pos: nat, dot: int, sigPos: nat,
                     count: nat, v: nat, cur: nat, n: nat)
    requires Scanning(s, start, intOnly, p, pos, dot, sigPos, count, v, cur, n)
    ensures start <= p <= |s| && -1 <= dot < p - start && sigPos <= pos <= p - start && dot <= pos
    ensures count <= MAX_DIGITS && 0 < Pow(10, n) < LIMB && cur < Pow(10, n)
    ensures Pow(10, n) <= 0x3b9a_ca00
  {
    hide Pow, Mantissa, AllDigits, AtSignificant;
    LimbRoom(n);
  }

  /** What the scan leaves: the literal's end and counters, and the kept digits as a big number. */
  lemma ScanningEnd(s: string, start: nat, intOnly: bool, p: nat, pos: nat, dot: int, sigPos: nat, count: nat, v: nat)
    requires Scanning(s, start, intOnly, p, pos, dot, sigPos, count, v, 0, 0)
    requires !IsDigit(At(s, p)) && (dot >= 0 || !PointAt(s, start, p, intOnly))
    ensures start <= |s| && p == MantissaEnd(s, start, intOnly) && DigitRun(s, start) == if dot < 0 then pos else dot
    ensures var d := MantissaDigits(s, start, intOnly);
            |d| == pos && LeadingZeros(d) == sigPos && |Kept(d)| == count && v == Num(Kept(d))
  {
    hide Mantissa, Num, Pow, AtSignificant, MantissaDigits, MantissaEnd, LeadingZeros, Kept, DigitRun, Scanned;
    ScannedStart(s, start, intOnly, p, pos, dot);
    ScanEnd(s, start, intOnly, p, pos, dot);
    var d := MantissaDigits(s, start, intOnly);
    LeadingZerosUnique(d, sigPos);
    GatheredAll(d[sigPos..], count, v);
    KeptOf(d, sigPos, count);
  }

  lemma ScannedStart(s: string, start: nat, intOnly: bool, p: nat, pos: nat, dot: int)
    requires Scanned(s, start, intOnly, p, pos, dot)
    ensures start <= p <= |s| && dot < p - start
  {}

  lemma GatheredAll(d: string, count: nat, v: nat)
    requires Gathered(d, count, v, 0, 0)
    ensures AllDigits(d) && count == (if |d| <= MAX_DIGITS then |d| else MAX_DIGITS) && v == Num(d[..count])
  {
    hide Pow;
    PowStep(10, 0);
  }

  lemma KeptOf(d: string, z: nat, count: nat)
    requires LeadingZeros(d) == z && z <= |d| && count == (if |d| - z <= MAX_DIGITS then |d| - z else MAX_DIGITS)
    ensures Kept(d) == d[z..][..count]
  {}

  /** The digits of the literal: counted from the first that is not zero, the first 38 gathered in tmp0. */
  method ScanDigits(tmp0: Mpb, s: string, start: nat, intOnly: bool)
    returns (p: nat, pos: nat, sigPos: nat, dot: int, digitCount: nat)
    requires start <= |s| && tmp0.tab.Length == BIGNUM_LIMBS
    modifies tmp0`len, tmp0.tab
    ensures tmp0.Valid() && tmp0.len <= 6
    ensures p == MantissaEnd(s, start, intOnly) && DigitRun(s, start) == if dot < 0 then pos else dot
    ensures dot <= pos <= |s|
    ensures var d := MantissaDigits(s, start, intOnly);
            |d| == pos && LeadingZeros(d) == sigPos && |Kept(d)| == digitCount && tmp0.Value() == Num(Kept(d))
  {
    hide Pow, Scanning, Scanned, AtSignificant, Mantissa, Kept, LeadingZeros, Num, MantissaEnd, MantissaDigits, Val;
    p, pos, dot := SkipZeros(s, start, intOnly);
    sigPos, digitCount := pos, 0;
    var limbDigits, cur := 0, 0;
    tmp0.len := 1;
    tmp0.tab[0] := 0;
    assert tmp0.tab[..1] == [0];
    ValSingle(0);
    ScanningStart(s, start, intOnly, p, pos, dot);
    while true
      invariant tmp0.Valid() && limbDigits < 9 && 9 * tmp0.len + limbDigits <= digitCount + 9
      invariant Scanning(s, start, intOnly, p, pos, dot, sigPos, digitCount, tmp0.Value(), cur, limbDigits)
      invariant start <= p <= |s|
      decreases |s| - p
    {
      ScanningWord(s, start, intOnly, p, pos, dot, sigPos, digitCount, tmp0.Value(), cur, limbDigits);
      if PointAt(s, start, p, intOnly) {
        if dot >= 0 { break; }
        ScanningPoint(s, start, intOnly, p, pos, sigPos, digitCount, tmp0.Value(), cur, limbDigits);
        dot, p := pos, p + 1;
      }
      if !IsDigit(At(s, p)) { break; }
      ScanningDigit(s, start, intOnly, p, pos, dot, sigPos, digitCount, tmp0.Value(), cur, limbDigits);
      var c := DigitValue(At(s, p));
      p, pos := p + 1, pos + 1;
      if digitCount < MAX_DIGITS {
        cur := cur * 10 + c;
        limbDigits, digitCount := limbDigits + 1, digitCount + 1;
        if limbDigits == 9 {
          FlushDigits(tmp0, s, start, intOnly, p, pos, dot, sigPos, digitCount, cur, 9, 0x3b9a_ca00);
          cur, limbDigits := 0, 0;
        }
      }
    }
    if limbDigits != 0 {
      ScanningWord(s, start, intOnly, p, pos, dot, sigPos, digitCount, tmp0.Value(), cur, limbDigits);
      var b := PowUi(10, limbDigits);
      FlushDigits(tmp0, s, start, intOnly, p, pos, dot, sigPos, digitCount, cur, limbDigits, b);
      cur, limbDigits := 0, 0;
    }
    ScanningWord(s, start, intOnly, p, pos, dot, sigPos, digitCount, tmp0.Value(), cur, limbDigits);
    PowStep(10, 0);
    ScanningEnd(s, start, intOnly, p, pos, dot, sigPos, digitCount, tmp0.Value());
  }

  method FlushDigits(tmp0: Mpb, s: string, start: nat, intOnly: bool, p: nat, pos: nat, dot: int, sigPos: nat,
                     count: nat, cur: nat, n: nat, b: nat)
    requires tmp0.Valid() && tmp0.len < tmp0.tab.Length
    requires Scanning(s, start, intOnly, p, pos, dot, sigPos, count, tmp0.Value(), cur, n)
    requires b == if n == 9 then 0x3b9a_ca00 else Pow(10, n)
    modifies tmp0`len, tmp0.tab
    ensures tmp0.Valid() && tmp0.len <= old(tmp0.len) + 1
    ensures Scanning(s, start, intOnly, p, pos, dot, sigPos, count, tmp0.Value(), 0, 0)
  {
    hide Pow, Scanning, Val;
    TenToNine();
    ScanningWord(s, start, intOnly, p, pos, dot, sigPos, count, tmp0.Value(), cur, n);
    ScanningFlush(s, start, intOnly, p, pos, dot, sigPos, count, tmp0.Value(), cur, n, b);
    Mul1Base(tmp0, b, cur);
  }

  // ---------- the exponent ----------

  /** Exponents at least this large are only noted as overflowing. */
  const EXPONENT_LIMIT: nat := 2147483640

  method ScanExponent(s: string, p: nat) returns (ok: bool, end: nat, expn: int, overflow: bool)
    requires p < |s|
    ensures ok == (ExponentRun(s, p) > 0)
    ensures ok ==> && end == ExponentStart(s, p) + ExponentRun(s, p)
                   && overflow == (WrittenExponent(s, p) >= EXPONENT_LIMIT || WrittenExponent(s, p) <= 0 - EXPONENT_LIMIT)
                   && (!overflow ==> expn == WrittenExponent(s, p))
                   && (overflow ==> (WrittenExponent(s, p) < 0 <==> At(s, p + 1) == '-'))
  {
    hide Num;
    var at := p + 1 + SignLength(s, p + 1);
    end, expn, overflow := at, 0, false;
    if !IsDigit(At(s, end)) {
      return false, end, 0, false;
    }
    expn := DigitValue(At(s, end));
    NumOne(s[at]);
    assert s[at..at + 1] == [s[at]];
    end := end + 1;
    while IsDigit(At(s, end))
      invariant at < end <= |s| && AllDigits(s[at..end])
      invariant overflow == (Num(s[at..end]) >= EXPONENT_LIMIT) && (!overflow ==> expn == Num(s[at..end]))
      decreases |s| - end
    {
      NumSnoc(s[at..end], s[end]);
      assert s[at..end + 1] == s[at..end] + [s[end]];
      if !overflow {
        if expn > 214748363 {
          overflow := true;
        } else {
          expn := expn * 10 + DigitValue(At(s, end));
        }
      }
      end := end + 1;
    }
    DigitRunUnique(s, at, end);
    if At(s, p + 1) == '-' {
      expn := -expn;
    }
    ok := true;
  }

  // ---------- out of range ----------

  /** The digits kept times their power of ten, in units of 2^-1074. */
  ghost function ReadValue(n: nat, q: int): real { DecimalValue(n, q) * Scale(2, 1074) }

  lemma LeadBracket(n: nat, q: int, count: nat)
    requires count > 0 && Pow(10, count - 1) <= n < Pow(10, count)
    ensures Scale(10, q + count - 1) <= DecimalValue(n, q) < Scale(10, q + count)
  {
    hide Pow, Scale;
    ScalePositive(10, q);
    ScaleAdd(10, count - 1, q);
    ScaleAdd(10, count, q);
    ScaleNat(10, count - 1);
    ScaleNat(10, count);
    var s := Scale(10, q);
    var lo, hi := Pow(10, count - 1) as real, Pow(10, count) as real;
    assert Scale(10, q + count - 1) == lo * s && Scale(10, q + count) == hi * s;
    RealOrder(lo, n as real, s);
    RealOrder(n as real, hi, s);
  }

  lemma InfiniteMag()
    ensures Mag(INF) as real == Scale(2, 1024) * Scale(2, 1074)
  {
    hide Pow, Scale, Mag;
    assert INF == 2047 * 0x10_0000_0000_0000 + 0;
    MagFields(2047, 0);
    PowersOfTwo();
    PowAdd(2, 52, 2046);
    assert Mag(INF) == Pow(2, 2098);
    ScaleAdd(2, 1024, 1074);
    ScaleNat(2, 2098);
  }

  lemma TooLarge(n: nat, q: int, count: nat)
    requires count > 0 && Pow(10, count - 1) <= n < Pow(10, count) && q + count >= 310
    ensures Rounded(NearestEven, INF, ReadValue(n, q)) && !Rounded(NearestEven, 0, ReadValue(n, q))
  {
    hide Pow, Scale, Mag, DecimalValue, RoundedTo;
    LeadBracket(n, q, count);
    TwoPowerBelow(1024, 309);
    ScaleNat(2, 1024);
    ScaleNat(10, 309);
    ScaleMonotone(10, 309, q + count - 1);
    ScalePositive(2, 1074);
    RealOrder(Scale(2, 1024), DecimalValue(n, q), Scale(2, 1074));
    InfiniteMag();
    MagStep(INF - 1);
    if Rounded(NearestEven, 0, ReadValue(n, q)) {
      RoundedUnique(NearestEven, 0, INF, ReadValue(n, q));
    }
  }

  lemma TooSmall(n: nat, q: int, count: nat)
    requires count > 0 && Pow(10, count - 1) <= n < Pow(10, count) && q + count <= -324
    ensures Rounded(NearestEven, 0, ReadValue(n, q)) && !Rounded(NearestEven, INF, ReadValue(n, q))
  {
    hide Pow, Scale, Mag, DecimalValue;
    LeadBracket(n, q, count);
    TwoPowerBelow(1075, 324);
    ScaleReciprocalOrder(10, 2, 324, 1075);
    ScaleMonotone(10, q + count, -324);
    ScalePositive(2, 1074);
    RealOrder(DecimalValue(n, q), Scale(2, -1075), Scale(2, 1074));
    ScaleAdd(2, -1075, 1074);
    ScaleStep(2, -1);
    ScaleZero(2);
    ScalePositive(10, q + count - 1);
    RealPositive(DecimalValue(n, q), Scale(2, 1074));
    MagFields(0, 0);
    MagFields(0, 1);
    if Rounded(NearestEven, INF, ReadValue(n, q)) {
      RoundedUnique(NearestEven, 0, INF, ReadValue(n, q));
    }
  }

  // ---------- packing ----------

  /** The fields of the result: subnormals shift down, large exponents become infinity. */
  function PackMag(x: Float): nat {
    if x.m == 0 then 0
    else if x.e > 1024 then INF
    else if x.e < -1073 then 0
    else if x.e < -1021 then x.m / Pow(2, -x.e - 1021)
    else (x.e + 1022) * 0x10_0000_0000_0000 + x.m % 0x10_0000_0000_0000
  }

  lemma PackIsPattern(x: Float)
    requires ProperFloat(x)
    ensures PackMag(x) == if PatternOf(x) < INF then PatternOf(x) else INF
  {
    hide Pow;
    if x.m > 0 {
      DivUnique(x.m, 0x10_0000_0000_0000, 1, x.m - 0x10_0000_0000_0000);
      if x.e < -1021 { PatternParts(x); }
    }
  }

  // ---------- the conversion ----------

  /** Two's complement wrap-around of a signed 32-bit result. */
  function Wrap32(x: int): int { (x + 0x8000_0000) % 0x1_0000_0000 - 0x8000_0000 }

  predicate FitsInt32(x: int) { -0x8000_0000 <= x < 0x8000_0000 }

  lemma WrapSum(a: int, b: int)
    ensures Wrap32(Wrap32(a) + b) == Wrap32(a + b)
  {
    var q, r := Cell(a + 0x8000_0000, 0x1_0000_0000);
    var k, t := Cell(r + b, 0x1_0000_0000);
    DivUnique(a + 0x8000_0000, 0x1_0000_0000, q, r);
    DivUnique(r + b, 0x1_0000_0000, k, t);
    DivUnique(a + b + 0x8000_0000, 0x1_0000_0000, q + k, t);
  }

  lemma WrapFits(x: int)
    ensures FitsInt32(x) ==> Wrap32(x) == x
    ensures 0x8000_0000 <= x < 0x1_8000_0000 ==> Wrap32(x) == x - 0x1_0000_0000
    ensures -0x1_8000_0000 <= x < -0x8000_0000 ==> Wrap32(x) == x + 0x1_0000_0000
  {
    var y := x + 0x8000_0000;
    if FitsInt32(x) {
      DivUnique(y, 0x1_0000_0000, 0, y);
    } else if 0x8000_0000 <= x < 0x1_8000_0000 {
      DivUnique(y, 0x1_0000_0000, 1, y - 0x1_0000_0000);
    } else if -0x1_8000_0000 <= x < -0x8000_0000 {
      DivUnique(y, 0x1_0000_0000, -1, y + 0x1_0000_0000);
    }
  }

  /** The kept digits n times 10^(expn - offset) as a double; right exactly when the leading exponent fits in 32 bits. */
  method Finish(tmp0: Mpb, expn0: int, offset: int, count: nat) returns (mag: nat)
    requires tmp0.Valid() && tmp0.len <= 6 && tmp0.tab.Length == BIGNUM_LIMBS
    requires 0 < count <= MAX_DIGITS && Pow(10, count - 1) <= tmp0.Value() < Pow(10, count)
    requires 0 - EXPONENT_LIMIT < expn0 < EXPONENT_LIMIT && -0x4000_0000 < offset < 0x4000_0000
    modifies tmp0`len, tmp0.tab
    ensures var z, lead := ReadValue(old(tmp0.Value()), expn0 - offset), expn0 - offset + count;
            && (Rounded(NearestEven, mag, z) <==> FitsInt32(lead))
            && (!FitsInt32(lead) ==> mag == if lead < 0 then INF else 0)
  {
    hide Pow, Scale, DecimalValue, Val, RoundedTo, Rounded, Wrap32, PatternOf, ExactDouble, ScaledLen, ReadValue,
         ProperFloat, PackMag;
    ghost var n := tmp0.Value();
    ghost var q: int := expn0 - offset;
    ghost var lead: int := q + count;
    var expn := Wrap32(expn0 - offset);
    var expn1 := Wrap32(expn + count);
    WrapSum(q, count);
    WrapFits(lead);
    WrapFits(q);
    Extremes(n, q, count);
    if expn1 >= 310 {
      mag := INF;
    } else if expn1 <= -324 {
      mag := 0;
    } else {
      PowMonotone(10, 0, count - 1);
      PowStep(10, 0);
      ReadingRoom(tmp0.len, n, q);
      var x := MulPowRoundToD(tmp0, 5, 1, expn, RNDN);
      mag := PackMag(x);
      PackIsPattern(x);
      ReadingIsDecimal(n, q);
      ClampRounded(NearestEven, PatternOf(x), ExactDouble(n, 5, 1, q));
      ReadValueIs(n, q, ExactDouble(n, 5, 1, q));
    }
  }

  lemma ReadValueIs(n: nat, q: int, z: real)
    requires z == DecimalValue(n, q) * Scale(2, 1074)
    ensures z == ReadValue(n, q)
  {}

  lemma Extremes(n: nat, q: int, count: nat)
    requires count > 0 && Pow(10, count - 1) <= n < Pow(10, count)
    ensures q + count >= 310 ==>
              Rounded(NearestEven, INF, ReadValue(n, q)) && !Rounded(NearestEven, 0, ReadValue(n, q))
    ensures q + count <= -324 ==>
              Rounded(NearestEven, 0, ReadValue(n, q)) && !Rounded(NearestEven, INF, ReadValue(n, q))
  {
    hide *;
    if q + count >= 310 {
      TooLarge(n, q, count);
    } else if q + count <= -324 {
      TooSmall(n, q, count);
    }
  }

  const MAX_TEXT: nat := 0x3fff_ffff

  datatype Outcome = NaN | Double(negative: bool, magnitude: nat)

  /** The exponent arithmetic does not wrap: it is skipped for a huge written exponent, or stays within 32 bits. */
  predicate ExponentFits(digits: string, point: nat, exponent: int) {
    || exponent >= EXPONENT_LIMIT || exponent <= 0 - EXPONENT_LIMIT
    || FitsInt32(LeadExponent(digits, point, exponent))
  }

  /** mag is what a decimal literal reads as: the nearest double to its kept digits, exactly when the exponent fits. */
  ghost predicate ReadsAs(digits: string, point: nat, exponent: int, mag: nat)
    requires AllDigits(digits)
  {
    if Num(digits) == 0 then mag == 0
    else
      var z := ReadValue(Num(Kept(digits)), KeptExponent(digits, point, exponent));
      && (Rounded(NearestEven, mag, z) <==> ExponentFits(digits, point, exponent))
      && (!ExponentFits(digits, point, exponent) ==> mag == if exponent < 0 then INF else 0)
  }

  lemma LeadIs(digits: string, point: nat, exponent: int)
    requires AllDigits(digits) && Num(digits) > 0 && point <= |digits| <= MAX_TEXT
    ensures var k := Kept(digits);
            && 0 < |k| <= MAX_DIGITS && Pow(10, |k| - 1) <= Num(k) < Pow(10, |k|)
            && LeadExponent(digits, point, exponent) == KeptExponent(digits, point, exponent) + |k|
            && -0x4000_0000 < LeadExponent(digits, point, exponent) - exponent < 0x4000_0000
  {
    hide Pow, Num;
    KeptSize(digits);
  }

  /** A huge written exponent decides the result whatever the digits. */
  lemma HugeExponent(digits: string, point: nat, exponent: int)
    requires AllDigits(digits) && point <= |digits| <= MAX_TEXT
    requires exponent >= EXPONENT_LIMIT || exponent <= 0 - EXPONENT_LIMIT
    ensures ReadsAs(digits, point, exponent, if Num(digits) == 0 || exponent < 0 then 0 else INF)
  {
    hide Pow, Num, Kept, Rounded, ReadValue, LeadExponent, KeptExponent;
    if Num(digits) > 0 {
      LeadIs(digits, point, exponent);
      Extremes(Num(Kept(digits)), KeptExponent(digits, point, exponent), |Kept(digits)|);
    }
  }

  lemma ReadsAsFinished(digits: string, point: nat, exponent: int, mag: nat)
    requires AllDigits(digits) && Num(digits) > 0 && point <= |digits| <= MAX_TEXT
    requires 0 - EXPONENT_LIMIT < exponent < EXPONENT_LIMIT
    requires var q := KeptExponent(digits, point, exponent);
             var z, lead := ReadValue(Num(Kept(digits)), q), q + |Kept(digits)|;
             && (Rounded(NearestEven, mag, z) <==> FitsInt32(lead))
             && (!FitsInt32(lead) ==> mag == if lead < 0 then INF else 0)
    ensures ReadsAs(digits, point, exponent, mag)
  {
    hide Pow, Num, Kept, Rounded, ReadValue, LeadExponent, KeptExponent;
    LeadIs(digits, point, exponent);
  }

  /** Whether r, ending at end, is what the literal at the start of the text denotes. */
  ghost predicate Denotes(lit: Literal, r: Outcome, end: nat) {
    match lit
    case Malformed => r == NaN
    case Infinite(negative, e) => r == Double(negative, INF) && end == e
    case Decimal(negative, digits, point, exponent, e) =>
      && r.Double? && r.negative == negative && end == e
      && AllDigits(digits) && ReadsAs(digits, point, exponent, r.magnitude)
  }

  /** A literal denotes one double. */
  lemma DenotesOnce(lit: Literal, r: Outcome, end: nat, q: Outcome, end': nat)
    requires Denotes(lit, r, end) && Denotes(lit, q, end') && r.Double?
    ensures q == r && end' == end && r.magnitude <= INF
  {
    if lit.Decimal? { ReadsAsOnce(lit.digits, lit.point, lit.exponent, r.magnitude, q.magnitude); }
  }

  lemma ReadsAsOnce(digits: string, point: nat, exponent: int, a: nat, b: nat)
    requires AllDigits(digits) && ReadsAs(digits, point, exponent, a) && ReadsAs(digits, point, exponent, b)
    ensures a == b <= INF
  {
    hide Num, Kept, KeptExponent, ReadValue, Rounded, ExponentFits;
    if Num(digits) > 0 && ExponentFits(digits, point, exponent) {
      var z := ReadValue(Num(Kept(digits)), KeptExponent(digits, point, exponent));
      RoundedUnique(NearestEven, a, b, z);
      RoundedBound(a, z);
    }
  }

  lemma RoundedBound(p: nat, z: real)
    requires Rounded(NearestEven, p, z)
    ensures p <= INF
  {
    hide RoundedTo, Mag;
  }

  /** The literal whose digits end at the given place and whose written exponent is x. */
  ghost predicate LiteralIs(s: string, intOnly: bool, end: nat, x: int) {
    var start := SignLength(s, 0);
    && start <= |s|
    && Parse(s, intOnly) == Decimal(At(s, 0) == '-', MantissaDigits(s, start, intOnly), DigitRun(s, start), x, end)
  }

  lemma PlainLiteral(s: string, intOnly: bool)
    requires intOnly || !HasPrefix(s, SignLength(s, 0), "Infinity")
    ensures var start := SignLength(s, 0); start <= |s| && var p := MantissaEnd(s, start, intOnly);
            && (p == start ==> Parse(s, intOnly) == Malformed)
            && (p > start && !ExponentMark(s, p, intOnly) ==> LiteralIs(s, intOnly, p, 0))
  {
    hide DigitRun, MantissaEnd, MantissaDigits, Num, WithExponent, HasPrefix;
  }

  lemma ExponentLiteral(s: string, intOnly: bool, p: nat)
    requires intOnly || !HasPrefix(s, SignLength(s, 0), "Infinity")
    requires var start := SignLength(s, 0);
             start <= |s| && p == MantissaEnd(s, start, intOnly) > start && ExponentMark(s, p, intOnly)
    ensures p < |s| && if ExponentRun(s, p) == 0 then Parse(s, intOnly) == Malformed
                       else LiteralIs(s, intOnly, ExponentStart(s, p) + ExponentRun(s, p), WrittenExponent(s, p))
  {
    hide DigitRun, MantissaEnd, MantissaDigits, HasPrefix, IsDigit, Parse, ExponentRun, ExponentStart, WrittenExponent;
    MarkInText(s, p, intOnly);
    MarkedLiteral(s, intOnly, p);
  }

  lemma MarkedLiteral(s: string, intOnly: bool, p: nat)
    requires intOnly || !HasPrefix(s, SignLength(s, 0), "Infinity")
    requires var start := SignLength(s, 0);
             start <= |s| && p == MantissaEnd(s, start, intOnly) > start && ExponentMark(s, p, intOnly) && p < |s|
    ensures var start := SignLength(s, 0);
            Parse(s, intOnly)
            == WithExponent(s, p, At(s, 0) == '-', MantissaDigits(s, start, intOnly), DigitRun(s, start))
  {
    hide DigitRun, MantissaEnd, MantissaDigits, Num, HasPrefix, WithExponent;
  }

  lemma MarkInText(s: string, p: nat, intOnly: bool)
    requires ExponentMark(s, p, intOnly)
    ensures p < |s| && p + 1 + SignLength(s, p + 1) <= |s|
  {}

  lemma DenotesDecimal(s: string, intOnly: bool, end: nat, x: int, mag: nat)
    requires LiteralIs(s, intOnly, end, x)
    requires ReadsAs(MantissaDigits(s, SignLength(s, 0), intOnly), DigitRun(s, SignLength(s, 0)), x, mag)
    ensures Denotes(Parse(s, intOnly), Double(At(s, 0) == '-', mag), end)
  {
    hide Parse, ReadsAs, MantissaDigits, DigitRun;
  }

  lemma ZeroReads(digits: string, point: nat, x: int)
    requires AllDigits(digits) && Num(digits) == 0
    ensures ReadsAs(digits, point, x, 0)
  {}

  method FinishLiteral(tmp0: Mpb, ghost digits: string, ghost point: nat, expn: int, offset: int, count: nat)
    returns (mag: nat)
    requires tmp0.Valid() && tmp0.len <= 6 && tmp0.tab.Length == BIGNUM_LIMBS
    requires AllDigits(digits) && Num(digits) > 0 && point <= |digits| <= MAX_TEXT
    requires tmp0.Value() == Num(Kept(digits)) && count == |Kept(digits)|
    requires 0 - EXPONENT_LIMIT < expn < EXPONENT_LIMIT && offset == LeadingZeros(digits) + count - point
    modifies tmp0`len, tmp0.tab
    ensures ReadsAs(digits, point, expn, mag)
  {
    hide Pow, Num, Kept, ReadsAs, LeadingZeros, Val, ReadValue;
    KeptSize(digits);
    LeadIs(digits, point, expn);
    mag := Finish(tmp0, expn, offset, count);
    ReadsAsFinished(digits, point, expn, mag);
  }

  /** The text read as a double: right for every literal whose exponent fits, and refused when there is none. */
  method Atod(tmp0: Mpb, s: string, intOnly: bool) returns (r: Outcome, end: nat)
    requires |s| <= MAX_TEXT && tmp0.tab.Length == BIGNUM_LIMBS
    modifies tmp0`len, tmp0.tab
    ensures Denotes(Parse(s, intOnly), r, end)
  {
    hide Pow, Num, Kept, ReadsAs, MantissaDigits, MantissaEnd, DigitRun, LeadingZeros, Val, Parse, LiteralIs, ReadValue,
         HasPrefix, KeptExponent, LeadExponent, ExponentRun, WrittenExponent, ExponentStart;
    var negative, start := At(s, 0) == '-', SignLength(s, 0);
    if !intOnly && HasPrefix(s, start, "Infinity") {
      InfiniteLiteral(s);
      return Double(negative, INF), start + 8;
    }
    PlainLiteral(s, intOnly);
    var p, pos, sigPos, dot, digitCount := ScanDigits(tmp0, s, start, intOnly);
    ghost var digits := MantissaDigits(s, start, intOnly);
    KeptSize(digits);
    var isZero, dotPos := digitCount == 0, if dot < 0 then pos else dot;
    var offset: int := if isZero then 0 else sigPos + digitCount - dotPos;
    var expn := 0;
    end := p;
    if ExponentMark(s, p, intOnly) && p > start {
      ExponentLiteral(s, intOnly, p);
      var ok, overflow;
      ok, end, expn, overflow := ScanExponent(s, p);
      if !ok {
        return NaN, end;
      }
      if overflow {
        ghost var x := WrittenExponent(s, p);
        var mag := if isZero || At(s, p + 1) == '-' then 0 else INF;
        HugeExponent(digits, dotPos, x);
        DenotesDecimal(s, intOnly, end, x, mag);
        return Double(negative, mag), end;
      }
    }
    if end == start {
      return NaN, end;
    }
    var mag := 0;
    if isZero {
      ZeroReads(digits, dotPos, expn);
    } else {
      mag := FinishLiteral(tmp0, digits, dotPos, expn, offset, digitCount);
    }
    DenotesDecimal(s, intOnly, end, expn, mag);
    r := Double(negative, mag);
  }

  lemma InfiniteLiteral(s: string)
    requires HasPrefix(s, SignLength(s, 0), "Infinity")
    ensures Parse(s, false) == Infinite(At(s, 0) == '-', SignLength(s, 0) + 8)
  {}

  // ---------- where the exponent wraps ----------

  /** 1234...9e2147483639 overflows to infinity, but its leading exponent wraps and it reads as zero. */
  lemma WrappedExponent(r: Outcome, end: nat)
    requires Denotes(Parse("123456789e2147483639", false), r, end)
    ensures r == Double(false, 0)
    ensures Parse("123456789e2147483639", false) == Decimal(false, "123456789", 9, 2147483639, 20)
    ensures Rounded(NearestEven, INF, ReadValue(Num(Kept("123456789")), KeptExponent("123456789", 9, 2147483639)))
  {
    hide *;
    var d := "123456789";
    ExampleParse();
    ExampleDigits();
    KeptAll(d);
    LeadIs(d, 9, 2147483639);
    ExampleLead(d);
    Extremes(Num(Kept(d)), KeptExponent(d, 9, 2147483639), |Kept(d)|);
    ExampleDenotes(r, end);
  }

  lemma ExampleDenotes(r: Outcome, end: nat)
    requires Denotes(Decimal(false, "123456789", 9, 2147483639, 20), r, end)
    requires AllDigits("123456789") && Num("123456789") > 0 && LeadExponent("123456789", 9, 2147483639) == 2147483648
    ensures r == Double(false, 0)
  {
    hide Num, Rounded, ReadValue, Kept, KeptExponent, LeadExponent, AllDigits;
  }

  lemma ExampleLead(d: string)
    requires LeadingZeros(d) == 0
    ensures LeadExponent(d, 9, 2147483639) == 2147483648
  {}

  lemma ExampleDigits()
    ensures var d := "123456789"; AllDigits(d) && LeadingZeros(d) == 0 && Num(d) > 0 && |d| == 9 <= MAX_DIGITS <= MAX_TEXT
  {
    var d := "123456789";
    assert d[0] == '1';
    NumBound(d);
    PowMonotone(10, 0, 8);
    PowStep(10, 0);
    LeadingZerosUnique(d, 0);
  }

  lemma ExampleExponent()
    ensures var x := "2147483639"; AllDigits(x) && Num(x) == 2147483639
  {
    hide Num, AllDigits;
    NumOne('2');
    assert ['2'] == "2";
    Longer("2", '1', "21");
    Longer("21", '4', "214");
    Longer("214", '7', "2147");
    Longer("2147", '4', "21474");
    Longer("21474", '8', "214748");
    Longer("214748", '3', "2147483");
    Longer("2147483", '6', "21474836");
    Longer("21474836", '3', "214748363");
    Longer("214748363", '9', "2147483639");
  }

  lemma Longer(d: string, c: char, e: string)
    requires AllDigits(d) && IsDigit(c) && e == d + [c]
    ensures AllDigits(e) && Num(e) == 10 * Num(d) + DigitValue(c)
  {
    NumSnoc(d, c);
  }

  lemma ExampleParse()
    ensures Parse("123456789e2147483639", false) == Decimal(false, "123456789", 9, 2147483639, 20)
  {
    hide Num, AllDigits, DigitRun;
    var s := "123456789e2147483639";
    ExampleSlices(s);
    ExampleRuns(s);
    ExampleExponent();
  }

  lemma ExampleRuns(s: string)
    requires s == "123456789e2147483639"
    ensures DigitRun(s, 0) == 9 && DigitRun(s, 10) == 10
  {
    hide Num, DigitRun;
    ExampleSlices(s);
    DigitRunUnique(s, 0, 9);
    DigitRunUnique(s, 10, 20);
  }

  lemma ExampleSlices(s: string)
    requires s == "123456789e2147483639"
    ensures s[0..9] == "123456789" && s[9] == 'e' && s[10..20] == "2147483639"
  {
    var a, b := "123456789", "2147483639";
    assert s == a + "e" + b;
    assert (a + "e" + b)[0..9] == a && (a + "e" + b)[9] == 'e' && (a + "e" + b)[10..20] == b;
  }
}
