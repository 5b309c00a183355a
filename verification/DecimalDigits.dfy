/** Writing numbers in decimal: digit strings, and the routines that put them into a buffer. */
module DecimalDigits {
  import opened Arith
  import opened Powers
  import opened Limbs
  import opened Bignum
  import opened DecimalText

  function DigitChar(d: nat): (c: char)
    requires d < 10
    ensures IsDigit(c) && DigitValue(c) == d
  {
    '0' + d as char
  }

  /** The n low digits of v. */
  function DigitsOf(v: nat, n: nat): (d: string)
    ensures |d| == n
  {
    if n == 0 then [] else DigitsOf(v / 10, n - 1) + [DigitChar(v % 10)]
  }

  /** All digits of v, without leading zeros. */
  function Dec(v: nat): (d: string)
    ensures |d| > 0
  {
    if v < 10 then [DigitChar(v)] else Dec(v / 10) + [DigitChar(v % 10)]
  }

  lemma {:induction false} DigitsOfNum(v: nat, n: nat)
    ensures AllDigits(DigitsOf(v, n))
    ensures v < Pow(10, n) ==> Num(DigitsOf(v, n)) == v
  {
    hide Pow;
    PowStep(10, 0);
    if n > 0 {
      DigitsOfNum(v / 10, n - 1);
      PowStep(10, n - 1);
      NumSnoc(DigitsOf(v / 10, n - 1), DigitChar(v % 10));
    }
  }

  lemma {:induction false} DecNum(v: nat)
    ensures AllDigits(Dec(v)) && Num(Dec(v)) == v && (v > 0 ==> Dec(v)[0] != '0')
  {
    if v < 10 {
      NumOne(DigitChar(v));
    } else {
      DecNum(v / 10);
      NumSnoc(Dec(v / 10), DigitChar(v % 10));
    }
  }

  /** Digits of the quotient by a power of ten, then those of the remainder. */
  lemma {:induction false} DigitsSplit(q: nat, r: nat, m: nat, n: nat)
    requires r < Pow(10, m)
    ensures DigitsOf(q * Pow(10, m) + r, n + m) == DigitsOf(q, n) + DigitsOf(r, m)
    decreases m
  {
    hide Pow;
    if m == 0 {
      PowStep(10, 0);
      assert DigitsOf(q, n) + [] == DigitsOf(q, n);
    } else {
      PowStep(10, m - 1);
      var p := Pow(10, m - 1);
      var v := q * Pow(10, m) + r;
      Assoc(q, 10, p);
      assert q * Pow(10, m) == 10 * (q * p);
      DivUnique(v, 10, q * p + r / 10, r % 10);
      DigitsSplit(q, r / 10, m - 1, n);
      assert DigitsOf(r, m) == DigitsOf(r / 10, m - 1) + [DigitChar(r % 10)];
    }
  }

  lemma {:induction false} DecSplit(q: nat, r: nat, m: nat)
    requires q > 0 && r < Pow(10, m)
    ensures Dec(q * Pow(10, m) + r) == Dec(q) + DigitsOf(r, m)
    decreases m
  {
    hide Pow;
    PowStep(10, 0);
    if m == 0 {
      assert Dec(q) + [] == Dec(q);
    } else {
      PowStep(10, m - 1);
      var p := Pow(10, m - 1);
      var v := q * Pow(10, m) + r;
      PowMonotone(10, 0, m - 1);
      Positive(q, p);
      Assoc(q, 10, p);
      assert q * Pow(10, m) == 10 * (q * p);
      DivUnique(v, 10, q * p + r / 10, r % 10);
      DecSplit(q, r / 10, m - 1);
      assert DigitsOf(r, m) == DigitsOf(r / 10, m - 1) + [DigitChar(r % 10)];
    }
  }

  lemma {:induction false} DecLength(v: nat, n: nat)
    requires n > 0 && v < Pow(10, n)
    ensures |Dec(v)| <= n
  {
    hide Pow;
    PowStep(10, 0);
    PowStep(10, n - 1);
    if v >= 10 { DecLength(v / 10, n - 1); }
  }

  // ---------- into a buffer ----------

  /** u32toa_len: exactly len digits, the last one first. */
  method U32ToALen(buf: array<char>, q: nat, n: nat, len: nat)
    requires q + len <= buf.Length
    modifies buf
    ensures buf[..q] == old(buf[..q]) && buf[q + len..] == old(buf[q + len..])
    ensures buf[q..q + len] == DigitsOf(n, len)
  {
    var i, v := len, n;
    while i > 0
      invariant 0 <= i <= len
      invariant buf[..q] == old(buf[..q]) && buf[q + len..] == old(buf[q + len..])
      invariant DigitsOf(v, i) + buf[q + i..q + len] == DigitsOf(n, len)
    {
      ghost var tail := buf[q + i..q + len];
      i := i - 1;
      buf[q + i] := DigitChar(v % 10);
      assert buf[q + i..q + len] == [DigitChar(v % 10)] + tail;
      assert DigitsOf(v, i + 1) + tail == DigitsOf(v / 10, i) + ([DigitChar(v % 10)] + tail);
      v := v / 10;
    }
    assert buf[q..q + len] == [] + buf[q + 0..q + len];
  }

  /** u32toa: digits from the back of a scratch buffer, then copied. */
  method U32ToA(buf: array<char>, q: nat, n: nat) returns (len: nat)
    requires n < 0x1_0000_0000 && q + |Dec(n)| <= buf.Length
    modifies buf
    ensures len == |Dec(n)| <= 10 && buf[q..q + len] == Dec(n)
    ensures buf[..q] == old(buf[..q]) && buf[q + len..] == old(buf[q + len..])
  {
    var scratch := new char[10];
    var p := FillScratch(scratch, n);
    len := 10 - p;
    forall k | 0 <= k < len { buf[q + k] := scratch[p + k]; }
    assert buf[q..q + len] == scratch[p..];
  }

  method FillScratch(scratch: array<char>, n: nat) returns (p: nat)
    requires n < 0x1_0000_0000 && scratch.Length == 10
    modifies scratch
    ensures p < 10 && scratch[p..] == Dec(n)
  {
    hide Dec;
    var v := n;
    p := 10;
    TenDigits(n);
    DecLength(n, 10);
    while true
      invariant 0 < p <= 10 && |Dec(v)| <= p && Dec(v) + scratch[p..] == Dec(n)
      decreases p
    {
      ghost var tail := scratch[p..];
      DecStep(v, tail);
      p := p - 1;
      scratch[p] := DigitChar(v % 10);
      assert scratch[p..] == [DigitChar(v % 10)] + tail;
      if v < 10 {
        break;
      }
      v := v / 10;
    }
  }

  lemma DecStep(v: nat, tail: string)
    ensures Dec(v) + tail == (if v < 10 then [] else Dec(v / 10)) + ([DigitChar(v % 10)] + tail)
    ensures v >= 10 ==> |Dec(v)| == |Dec(v / 10)| + 1
    ensures v < 10 ==> Dec(v) + tail == [DigitChar(v % 10)] + tail
  {}

  lemma TenDigits(n: nat)
    requires n < 0x1_0000_0000
    ensures n < Pow(10, 10)
  {
    hide Pow;
    PowStep(10, 0);
    PowStep(10, 1);
    PowAdd(10, 2, 2);
    PowStep(10, 4);
    PowAdd(10, 5, 5);
  }

  /** u64toa: at most two leading digits, then groups of nine. */
  method U64ToA(buf: array<char>, q: nat, n: nat) returns (len: nat)
    requires n < 0x1_0000_0000_0000_0000 && q + 20 <= buf.Length
    modifies buf
    ensures len == |Dec(n)| <= 20 && buf[q..q + len] == Dec(n)
    ensures buf[..q] == old(buf[..q]) && buf[q + len..] == old(buf[q + len..])
  {
    hide Pow, Dec, DigitsOf;
    TenToNine();
    ghost var was := buf[..];
    if n < 0x1_0000_0000 {
      TenDigits(n);
      DecLength(n, 10);
      len := U32ToA(buf, q, n);
    } else {
      var n1, r := n / 1_000_000_000, n % 1_000_000_000;
      DecSplit(n1, r, 9);
      if n1 >= 0x1_0000_0000 {
        len := ThreeParts(buf, q, n1, r);
      } else {
        TenDigits(n1);
        DecLength(n1, 10);
        len := U32ToA(buf, q, n1);
        ghost var mid := buf[..];
        U32ToALen(buf, q + len, r, 9);
        JoinedTwo(was, mid, buf[..], q, q + len, Dec(n1), DigitsOf(r, 9));
        len := len + 9;
      }
    }
  }

  method ThreeParts(buf: array<char>, q: nat, n1: nat, r: nat) returns (len: nat)
    requires 0x1_0000_0000 <= n1 < 100_000_000_000 && r < 1_000_000_000 && q + 20 <= buf.Length
    modifies buf
    ensures var d := Dec(n1) + DigitsOf(r, 9); len == |d| <= 20 && buf[q..q + len] == d
    ensures buf[..q] == old(buf[..q]) && buf[q + len..] == old(buf[q + len..])
  {
    hide Pow, Dec, DigitsOf;
    TenToNine();
    ghost var was := buf[..];
    var n2, r1 := n1 / 1_000_000_000, n1 % 1_000_000_000;
    DecSplit(n2, r1, 9);
    var p := TwoDigits(buf, q, n2);
    ghost var top := buf[..];
    U32ToALen(buf, p, r1, 9);
    ghost var mid := buf[..];
    U32ToALen(buf, p + 9, r, 9);
    Joined(was, top, mid, buf[..], q, p, Dec(n2), DigitsOf(r1, 9), DigitsOf(r, 9));
    len := p + 18 - q;
  }

  /** One digit, or two. */
  method TwoDigits(buf: array<char>, q: nat, n2: nat) returns (p: nat)
    requires 0 < n2 < 100 && q + 2 <= buf.Length
    modifies buf
    ensures q < p == q + |Dec(n2)| <= q + 2 && buf[q..p] == Dec(n2)
    ensures buf[..q] == old(buf[..q]) && buf[p..] == old(buf[p..])
  {
    p := q;
    var v := n2;
    assert n2 >= 10 ==> Dec(n2) == [DigitChar(n2 / 10)] + [DigitChar(n2 % 10)];
    if v >= 10 {
      buf[p] := DigitChar(v / 10);
      p := p + 1;
      v := v % 10;
    }
    buf[p] := DigitChar(v);
    p := p + 1;
  }

  lemma JoinedTwo(was: string, mid: string, now: string, q: nat, p: nat, a: string, b: string)
    requires q + |a| == p && p + |b| <= |was| == |mid| == |now|
    requires mid[..q] == was[..q] && mid[q..p] == a && mid[p..] == was[p..]
    requires now[..p] == mid[..p] && now[p..p + |b|] == b && now[p + |b|..] == mid[p + |b|..]
    ensures now[..q] == was[..q] && now[q..p + |b|] == a + b && now[p + |b|..] == was[p + |b|..]
  {
    assert now[..q] == now[..p][..q] == mid[..q];
    assert now[q..p] == now[..p][q..] == mid[..p][q..] == mid[q..p];
    assert mid[p + |b|..] == mid[p..][|b|..] == was[p..][|b|..];
  }

  lemma Joined(was: string, top: string, mid: string, now: string, q: nat, p: nat, a: string, b: string, c: string)
    requires q + |a| == p && |b| == |c| == 9 && p + 18 <= |was| == |top| == |mid| == |now|
    requires top[..q] == was[..q] && top[q..p] == a && top[p..] == was[p..]
    requires mid[..p] == top[..p] && mid[p..p + 9] == b && mid[p + 9..] == top[p + 9..]
    requires now[..p + 9] == mid[..p + 9] && now[p + 9..p + 18] == c && now[p + 18..] == mid[p + 18..]
    ensures now[..q] == was[..q] && now[q..p + 18] == a + b + c && now[p + 18..] == was[p + 18..]
  {
    JoinedTwo(was, top, mid, q, p, a, b);
    JoinedTwo(was, mid, now, q, p + 9, a + b, c);
  }

  // ---------- a big number's digits ----------

  lemma {:induction false} LowDigits(q: nat, r: nat, m: nat, k: nat)
    requires k <= m
    ensures DigitsOf(q * Pow(10, m) + r, k) == DigitsOf(r, k)
    decreases k
  {
    hide Pow;
    if k > 0 {
      PowStep(10, m - 1);
      var p := Pow(10, m - 1);
      Assoc(q, 10, p);
      assert q * Pow(10, m) == 10 * (q * p);
      DivUnique(q * Pow(10, m) + r, 10, q * p + r / 10, r % 10);
      LowDigits(q, r / 10, m - 1, k - 1);
    }
  }

  /** Digits with a point after the first k, unless it would come last. */
  function WithPoint(d: string, k: nat): string
    requires k <= |d|
  {
    if k == |d| then d else d[..k] + "." + d[k..]
  }

  /** output_digits in base 10: groups of nine from the least significant, and the point moved in. */
  method OutputDigits(buf: array<char>, q: nat, a: Mpb, n: nat, dotPos: nat) returns (len: nat)
    requires a.Valid() && n >= 1 && dotPos <= n && q + n + 1 <= buf.Length
    modifies buf, a`len, a.tab
    ensures var d := WithPoint(DigitsOf(old(a.Value()), n), dotPos);
            len == |d| <= n + 1 && buf[q..q + len] == d && buf[..q] == old(buf[..q])
  {
    hide Pow, DigitsOf;
    WriteDigits(buf, q, a, n);
    len := n;
    if dotPos != n {
      InsertPoint(buf, q, n, dotPos);
      len := len + 1;
    }
  }

  method InsertPoint(buf: array<char>, q: nat, n: nat, dotPos: nat)
    requires dotPos < n && q + n + 1 <= buf.Length
    modifies buf
    ensures buf[q..q + n + 1] == old(buf[q..q + n][..dotPos]) + "." + old(buf[q..q + n][dotPos..])
    ensures buf[..q] == old(buf[..q])
  {
    forall k | dotPos <= k < n { buf[q + k + 1] := buf[q + k]; }
    buf[q + dotPos] := '.';
  }

  method WriteDigits(buf: array<char>, q: nat, a: Mpb, n: nat)
    requires a.Valid() && q + n + 1 <= buf.Length
    modifies buf, a`len, a.tab
    ensures buf[q..q + n] == DigitsOf(old(a.Value()), n) && buf[..q] == old(buf[..q])
  {
    hide Pow, DigitsOf, Val, Base;
    TenToNine();
    var nDigits := n;
    ghost var v := a.Value();
    NoDigits(v);
    assert buf[q + n..q + n] == [] && DigitsOf(v, n) + [] == DigitsOf(v, n);
    while nDigits != 0
      invariant 0 <= nDigits <= n && a.Valid() && buf[..q] == old(buf[..q])
      invariant DigitsOf(a.Value(), nDigits) + buf[q + nDigits..q + n] == DigitsOf(v, n)
      decreases nDigits
    {
      var k := if nDigits < 9 then nDigits else 9;
      WriteGroup(buf, q, nDigits, k, a, n);
      nDigits := nDigits - k;
    }
    NoDigits(a.Value());
    assert [] + buf[q..q + n] == buf[q..q + n];
  }

  /** Divide by 10^9 and write the last k digits before those already there. */
  method WriteGroup(buf: array<char>, q: nat, nd: nat, k: nat, a: Mpb, n: nat)
    requires a.Valid() && 0 < nd <= n && k == (if nd < 9 then nd else 9) && q + n + 1 <= buf.Length
    modifies buf, a`len, a.tab
    ensures a.Valid() && buf[..q] == old(buf[..q])
    ensures DigitsOf(a.Value(), nd - k) + buf[q + nd - k..q + n] == old(DigitsOf(a.Value(), nd) + buf[q + nd..q + n])
  {
    hide Pow, DigitsOf, Val, Base;
    ghost var cur, tail, was := a.Value(), buf[q + nd..q + n], buf[..];
    var r := DivOne(a.tab, a.len, 1_000_000_000, 0);
    a.Renorm();
    GroupOf(cur, a.Value(), r, nd, k, tail);
    U32ToALen(buf, q + nd - k, r, k);
    Placed(was, buf[..], q, nd - k, k, n, DigitsOf(r, k));
  }

  /** The last group of at most nine digits is that of the remainder. */
  lemma GroupOf(cur: nat, v: nat, r: nat, nd: nat, k: nat, tail: string)
    requires cur == v * 1_000_000_000 + r && r < 1_000_000_000 && k == (if nd < 9 then nd else 9)
    ensures DigitsOf(cur, nd) + tail == DigitsOf(v, nd - k) + (DigitsOf(r, k) + tail)
  {
    hide Pow, DigitsOf;
    TenToNine();
    NoDigits(v);
    if nd >= 9 {
      DigitsSplit(v, r, 9, nd - 9);
    } else {
      LowDigits(v, r, 9, nd);
      assert [] + DigitsOf(r, nd) == DigitsOf(r, nd);
    }
    assert DigitsOf(cur, nd) == DigitsOf(v, nd - k) + DigitsOf(r, k);
  }

  lemma NoDigits(v: nat)
    ensures DigitsOf(v, 0) == []
  {}

  lemma Placed(was: string, now: string, q: nat, i: nat, k: nat, n: nat, d: string)
    requires i + k <= n && q + n <= |was| == |now| && |d| == k
    requires now[..q + i] == was[..q + i] && now[q + i..q + i + k] == d && now[q + i + k..] == was[q + i + k..]
    ensures now[..q] == was[..q] && now[q + i..q + n] == d + was[q + i + k..q + n]
  {
    assert now[..q] == now[..q + i][..q] == was[..q];
    assert now[q + i + k..q + n] == now[q + i + k..][..n - i - k] == was[q + i + k..][..n - i - k];
  }
}
