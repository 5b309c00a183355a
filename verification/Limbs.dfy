/** Numbers as sequences of 32-bit limbs, least significant first, and the in-place limb loops of dtoa.c. */
module Limbs {
  import opened Arith
  import opened Powers

  const LIMB: nat := 0x1_0000_0000

  predicate AreLimbs(s: seq<nat>) { forall i | 0 <= i < |s| :: s[i] < 0x1_0000_0000 }

  /** sum of s[i] * 2^(32 i). */
  ghost function Val(s: seq<nat>): nat {
    if |s| == 0 then 0 else s[0] + 0x1_0000_0000 * Val(s[1..])
  }

  /** 2^(32 n). */
  ghost function Base(n: nat): nat { Pow(0x1_0000_0000, n) }

  lemma BaseStep(n: nat)
    ensures Base(n + 1) == 0x1_0000_0000 * Base(n) && Base(0) == 1 && Base(n) > 0
  {
    hide Pow;
    PowStep(0x1_0000_0000, n);
  }

  lemma BaseIsPowerOfTwo(n: nat)
    ensures Base(n) == Pow(2, 32 * n)
  {
    hide Pow, Base;
    if n == 0 {
      BaseStep(0);
      PowStep(2, 0);
    } else {
      BaseIsPowerOfTwo(n - 1);
      BaseStep(n - 1);
      PowersOfTwo();
      PowAdd(2, 32, 32 * (n - 1));
    }
  }

  lemma ValEmpty(s: seq<nat>)
    requires |s| == 0
    ensures Val(s) == 0
  {}

  lemma ValCons(s: seq<nat>, i: nat)
    requires i < |s|
    ensures Val(s[i..]) == s[i] + 0x1_0000_0000 * Val(s[i + 1..])
  {
    assert s[i..][1..] == s[i + 1..];
  }

  lemma {:induction false} ValSplit(s: seq<nat>, i: nat)
    requires i <= |s|
    ensures Val(s) == Val(s[..i]) + Base(i) * Val(s[i..])
  {
    hide Base, Val;
    if i == 0 {
      BaseStep(0);
      ValEmpty(s[..0]);
      assert s[0..] == s;
    } else {
      ValSplit(s[1..], i - 1);
      assert s[1..][..i - 1] == s[..i][1..];
      assert s[1..][i - 1..] == s[i..];
      ValCons(s, 0);
      ValCons(s[..i], 0);
      assert s[0..] == s && s[..i][0..] == s[..i];
      BaseStep(i - 1);
      Assoc(0x1_0000_0000, Base(i - 1), Val(s[i..]));
    }
  }

  /** One more limb on top. */
  lemma ValSnoc(s: seq<nat>, i: nat)
    requires i < |s|
    ensures Val(s[..i + 1]) == Val(s[..i]) + Base(i) * s[i]
  {
    hide Base, Val;
    ValSplit(s[..i + 1], i);
    assert s[..i + 1][..i] == s[..i];
    assert s[..i + 1][i..] == [s[i]];
    ValSingle(s[i]);
  }

  lemma ValSingle(x: nat)
    ensures Val([x]) == x
  {
    assert [x][1..] == [];
  }

  lemma {:induction false} ValBound(s: seq<nat>)
    requires AreLimbs(s)
    ensures Val(s) < Base(|s|)
  {
    hide Base;
    if |s| == 0 {
      BaseStep(0);
    } else {
      ValBound(s[1..]);
      BaseStep(|s| - 1);
    }
  }

  /** A nonzero top limb bounds the value from below. */
  lemma ValTop(s: seq<nat>)
    requires |s| > 0 && s[|s| - 1] > 0
    ensures Val(s) >= Base(|s| - 1)
  {
    hide Base, Val;
    var n := |s| - 1;
    ValSnoc(s, n);
    assert s[..n + 1] == s;
    BaseStep(n);
    Positive(Base(n), s[n]);
  }

  lemma {:induction false} ValZeros(s: seq<nat>)
    requires forall i | 0 <= i < |s| :: s[i] == 0
    ensures Val(s) == 0
  {
    if |s| > 0 { ValZeros(s[1..]); }
  }

  // ---------- tabr = taba * b + l ----------

  /** Multiplication done below limb i, carry l. */
  ghost predicate MulDone(was: seq<nat>, now: seq<nat>, b: nat, l0: nat, l: nat) {
    Val(now) + l * Base(|now|) == b * Val(was) + l0
  }

  lemma MulStep(was: seq<nat>, now: seq<nat>, b: nat, l0: nat, l: nat, x: nat, t: nat)
    requires |was| == |now| && MulDone(was, now, b, l0, l) && t == x * b + l
    ensures MulDone(was + [x], now + [t % 0x1_0000_0000], b, l0, t / 0x1_0000_0000)
  {
    hide Base, Val;
    var n := |now|;
    var h, m := t / 0x1_0000_0000, t % 0x1_0000_0000;
    ValPush(was, x);
    ValPush(now, m);
    BaseStep(n);
    var w := Base(n);
    assert t * w == (x * w) * b + l * w by {
      Distribute(x * b, l, w);
      assert (x * b) * w == (x * w) * b;
    }
    assert t * w == h * (0x1_0000_0000 * w) + m * w by {
      Distribute(h * 0x1_0000_0000, m, w);
      assert (h * 0x1_0000_0000) * w == h * (0x1_0000_0000 * w);
    }
    Distribute(Val(was), w * x, b);
  }

  lemma ValPush(s: seq<nat>, x: nat)
    ensures Val(s + [x]) == Val(s) + Base(|s|) * x
  {
    hide Base, Val;
    ValSnoc(s + [x], |s|);
    assert (s + [x])[..|s|] == s && (s + [x])[..|s| + 1] == s + [x];
  }

  method MulOne(tab: array<nat>, n: nat, b: nat, l: nat) returns (carry: nat)
    requires n <= tab.Length && AreLimbs(tab[..n]) && b < LIMB && l < LIMB
    modifies tab
    ensures Val(tab[..n]) + carry * Base(n) == b * old(Val(tab[..n])) + l
    ensures AreLimbs(tab[..n]) && carry < LIMB
    ensures tab[n..] == old(tab[n..])
  {
    hide Base, Val, MulDone;
    carry := l;
    ghost var was := tab[..];
    MulStart(b, l);
    for i := 0 to n
      invariant carry < LIMB && AreLimbs(tab[..i]) && tab[i..] == was[i..]
      invariant MulDone(was[..i], tab[..i], b, l, carry)
    {
      var t := tab[i] * b + carry;
      LimbProduct(tab[i], b, carry);
      MulStep(was[..i], tab[..i], b, l, carry, was[i], t);
      ghost var before, now := tab[..i], tab[..];
      tab[i] := t % 0x1_0000_0000;
      KeptAbove(was, now, tab[..], i);
      assert tab[i + 1..] == tab[..][i + 1..];
      carry := t / 0x1_0000_0000;
      assert tab[..i + 1] == before + [t % 0x1_0000_0000];
      assert was[..i + 1] == was[..i] + [was[i]];
    }
    MulFinish(was[..n], tab[..n], b, l, carry);
  }

  lemma MulStart(b: nat, l: nat)
    ensures MulDone([], [], b, l, l)
  {}

  lemma MulFinish(was: seq<nat>, now: seq<nat>, b: nat, l0: nat, l: nat)
    requires MulDone(was, now, b, l0, l)
    ensures Val(now) + l * Base(|now|) == b * Val(was) + l0
  {}

  lemma LimbProduct(x: nat, b: nat, l: nat)
    requires x < LIMB && b < LIMB && l < LIMB
    ensures (x * b + l) / 0x1_0000_0000 < LIMB
  {
    Monotone(x, 0xFFFF_FFFF, b);
  }

  // ---------- tab_r = (tab << shift) + low ----------

  /** The two halves of a shifted limb, as the code masks them. */
  lemma ShiftedLimb(x: nat, s: nat, l: nat)
    requires x < LIMB && 1 <= s < 32 && l < Pow(2, s)
    ensures var t := x * Pow(2, s) + l;
            && t % 0x1_0000_0000 == (x * Pow(2, s)) % 0x1_0000_0000 + l
            && t / 0x1_0000_0000 == x / Pow(2, 32 - s) < Pow(2, s)
  {
    hide Pow;
    PowersOfTwo();
    PowAdd(2, s, 32 - s);
    var f, g := Pow(2, s), Pow(2, 32 - s);
    var h, m := Cell(x, g);
    DivUnique(x, g, h, m);
    Distribute(h * g, m, f);
    assert (h * g) * f == h * 0x1_0000_0000;
    StrictMonotone(m, g, f);
    DivUnique(x * f, 0x1_0000_0000, h, m * f);
    DivUnique(x * f + l, 0x1_0000_0000, h, m * f + l);
    if h >= f { Monotone(f, h, g); }
  }

  method ShiftLeft(tab: array<nat>, n: nat, shift: nat, low: nat) returns (l: nat)
    requires n <= tab.Length && AreLimbs(tab[..n]) && 1 <= shift < 32 && low < Pow(2, shift)
    modifies tab
    ensures Val(tab[..n]) + l * Base(n) == Pow(2, shift) * old(Val(tab[..n])) + low
    ensures AreLimbs(tab[..n]) && l < Pow(2, shift)
    ensures tab[n..] == old(tab[n..])
  {
    hide Base, Val, MulDone, Pow;
    l := low;
    ghost var was, f := tab[..], Pow(2, shift);
    MulStart(f, l);
    for i := 0 to n
      invariant l < f && AreLimbs(tab[..i]) && tab[i..] == was[i..]
      invariant MulDone(was[..i], tab[..i], f, low, l)
    {
      var a := tab[i];
      assert a == was[..n][i];
      ShiftedLimb(a, shift, l);
      MulStep(was[..i], tab[..i], f, low, l, a, a * f + l);
      ghost var before := tab[..i];
      ghost var t := tab[..];
      tab[i] := (a * Pow(2, shift)) % 0x1_0000_0000 + l;
      KeptAbove(was, t, tab[..], i);
      assert tab[i + 1..] == tab[..][i + 1..];
      l := a / Pow(2, 32 - shift);
      assert tab[..i + 1] == before + [tab[i]];
      assert was[..i + 1] == was[..i] + [was[i]];
    }
    MulFinish(was[..n], tab[..n], f, low, l);
  }

  /** Setting one limb leaves those above it. */
  lemma KeptAbove(was: seq<nat>, t: seq<nat>, u: seq<nat>, i: nat)
    requires i < |t| == |was| && t[i..] == was[i..] && |u| == |t| && u == t[i := u[i]]
    ensures u[i + 1..] == was[i + 1..]
  {
    assert u[i + 1..] == t[i..][1..] && was[i + 1..] == was[i..][1..];
  }

  // ---------- carry propagation ----------

  method AddUi(tab: array<nat>, n: nat, b: nat) returns (k: nat)
    requires n <= tab.Length && AreLimbs(tab[..n]) && b < LIMB
    modifies tab
    ensures Val(tab[..n]) + k * Base(n) == old(Val(tab[..n])) + b
    ensures AreLimbs(tab[..n]) && tab[n..] == old(tab[n..])
    ensures k <= 1 || n == 0
  {
    hide Base, Val, MulDone;
    k := b;
    ghost var was := tab[..];
    MulStart(1, b);
    var i := 0;
    while i < n
      invariant i <= n && k < LIMB && AreLimbs(tab[..n]) && tab[i..] == was[i..]
      invariant MulDone(was[..i], tab[..i], 1, b, k)
      invariant i > 0 ==> k <= 1
    {
      if k == 0 { break; }
      var a := (tab[i] + k) % 0x1_0000_0000;
      ghost var t := tab[..];
      assert t[..i] == tab[..i] && t[..n] == tab[..n] && t[i..] == tab[i..];
      LimbStored(was, t, i, n, a);
      MulStep(was[..i], t[..i], 1, b, k, was[i], was[i] * 1 + k);
      k := if a < k then 1 else 0;
      tab[i] := a;
      assert tab[..] == t[i := a];
      assert tab[..][..n] == tab[..n] && tab[..][i + 1..] == tab[i + 1..] && tab[..][..i + 1] == tab[..i + 1];
      i := i + 1;
    }
    MulFinish(was[..i], tab[..i], 1, b, k);
    assert was[..n][..i] == was[..i] && tab[..n][..i] == tab[..i];
    assert was[..n][i..] == was[i..][..n - i] && tab[..n][i..] == tab[i..][..n - i];
    CarryStopped(was[..n], tab[..n], i, b, k);
  }

  /** One limb replaced, those above it still as they were. */
  lemma LimbStored(was: seq<nat>, t: seq<nat>, i: nat, n: nat, a: nat)
    requires i < n <= |t| == |was| && t[i..] == was[i..] && AreLimbs(t[..n]) && a < LIMB
    ensures t[i] == was[i] < LIMB
    ensures var now := t[i := a];
            && AreLimbs(now[..n]) && now[i + 1..] == was[i + 1..] && now[..i + 1] == t[..i] + [a]
    ensures was[..i + 1] == was[..i] + [was[i]]
  {
    assert t[i] == t[i..][0] && was[i] == was[i..][0] && t[i] == t[..n][i];
    var now := t[i := a];
    forall k | 0 <= k < n ensures now[k] < LIMB { assert k != i ==> now[k] == t[..n][k]; }
    assert now[i + 1..] == t[i..][1..] && was[i + 1..] == was[i..][1..];
  }

  lemma CarryStopped(was: seq<nat>, now: seq<nat>, i: nat, b: nat, k: nat)
    requires |was| == |now| && i <= |was| && was[i..] == now[i..] && (i == |was| || k == 0)
    requires Val(now[..i]) + k * Base(i) == 1 * Val(was[..i]) + b
    ensures Val(now) + k * Base(|now|) == Val(was) + b
  {
    hide *;
    ValSplit(was, i);
    ValSplit(now, i);
    if i == |was| {
      assert was[..i] == was && now[..i] == now;
    } else {
      assert k * Base(i) == 0 && k * Base(|now|) == 0;
    }
  }

  // ---------- tabr = taba / b ----------

  /** Division done from limb i up, remainder r. */
  ghost predicate DivDone(was: seq<nat>, now: seq<nat>, b: nat, r0: nat, r: nat) {
    Val(was) + r0 * Base(|was|) == Val(now) * b + r && r < b
  }

  lemma DivStart(b: nat, r: nat)
    requires r < b
    ensures DivDone([], [], b, r, r)
  {}

  lemma DivFinish(was: seq<nat>, now: seq<nat>, b: nat, r0: nat, r: nat)
    requires DivDone(was, now, b, r0, r)
    ensures Val(was) + r0 * Base(|was|) == Val(now) * b + r && r < b
  {}

  lemma DivStep(was: seq<nat>, now: seq<nat>, b: nat, r0: nat, r: nat, x: nat, q: nat, r': nat)
    requires |was| == |now| && DivDone(was, now, b, r0, r)
    requires r * 0x1_0000_0000 + x == q * b + r' && r' < b
    ensures DivDone([x] + was, [q] + now, b, r0, r')
  {
    hide Base, Val;
    ValPrepend(x, was);
    ValPrepend(q, now);
    BaseStep(|was|);
    Assoc(0x1_0000_0000, r0, Base(|was|));
    Assoc(0x1_0000_0000, Val(now), b);
    Distribute(q, 0x1_0000_0000 * Val(now), b);
  }

  lemma ValPrepend(x: nat, s: seq<nat>)
    ensures Val([x] + s) == x + 0x1_0000_0000 * Val(s)
  {
    assert ([x] + s)[1..] == s;
  }

  lemma DivideLimb(was: seq<nat>, now: seq<nat>, b: nat, r0: nat, r: nat, x: nat)
    requires |was| == |now| && DivDone(was, now, b, r0, r) && x < LIMB && r < b
    ensures var a1 := r * 0x1_0000_0000 + x;
            0 <= a1 / b < LIMB && 0 <= a1 % b < b && DivDone([x] + was, [a1 / b] + now, b, r0, a1 % b)
  {
    hide DivDone;
    var a1 := r * 0x1_0000_0000 + x;
    var q, m := Cell(a1, b);
    DivUnique(a1, b, q, m);
    DivStep(was, now, b, r0, r, x, q, m);
    if q >= LIMB { Monotone(0x1_0000_0000, q, b); }
  }

  method DivOne(tab: array<nat>, n: nat, b: nat, r0: nat) returns (r: nat)
    requires n <= tab.Length && AreLimbs(tab[..n]) && r0 < b < LIMB
    modifies tab
    ensures old(Val(tab[..n])) + r0 * Base(n) == Val(tab[..n]) * b + r && r < b
    ensures AreLimbs(tab[..n]) && tab[n..] == old(tab[n..])
  {
    hide Base, Val, DivDone;
    r := r0;
    ghost var was := tab[..];
    DivStart(b, r);
    assert was[n..n] == [] && tab[n..n] == [];
    var i := n;
    while i > 0
      invariant i <= n && r < b && AreLimbs(tab[..n]) && tab[..i] == was[..i] && tab[n..] == was[n..]
      invariant DivDone(was[i..n], tab[i..n], b, r0, r)
    {
      i := i - 1;
      assert tab[i] == tab[..n][i];
      DivideLimb(was[i + 1..n], tab[i + 1..n], b, r0, r, tab[i]);
      var a1 := r * 0x1_0000_0000 + tab[i];
      var q := a1 / b;
      ghost var above := tab[i + 1..n];
      tab[i] := q;
      r := a1 % b;
      assert tab[i..n] == [q] + above;
      assert was[i..n] == [was[i]] + was[i + 1..n];
    }
    assert was[0..n] == was[..n] && tab[0..n] == tab[..n];
    DivFinish(was[..n], tab[..n], b, r0, r);
  }

  // ---------- r = (a + high*B^n) >> shift ----------

  /** (a >> s) | (l << (32 - s)), the second operand truncated to a limb. */
  function ShiftedPair(a: nat, l: nat, s: nat): nat
    requires s <= 32
  {
    hide Pow;
    Quotient(a, Pow(2, s)) + Times(l, Pow(2, 32 - s)) % 0x1_0000_0000
  }

  function Quotient(a: nat, f: nat): nat
    requires f > 0
  {
    a / f
  }

  function Times(a: nat, g: nat): nat { a * g }

  function LowBits(l: nat, s: nat): (r: nat)
    ensures r < Pow(2, s)
  {
    l % Pow(2, s)
  }

  lemma ShiftedDownLimb(x: nat, s: nat, l: nat)
    requires x < LIMB && l < LIMB && 1 <= s < 32
    ensures LowBits(l, s) * 0x1_0000_0000 + x == ShiftedPair(x, l, s) * Pow(2, s) + LowBits(x, s)
    ensures ShiftedPair(x, l, s) < LIMB
  {
    hide Pow;
    PowersOfTwo();
    PowAdd(2, s, 32 - s);
    var f, g := Pow(2, s), Pow(2, 32 - s);
    var h, m := Cell(l, f);
    DivUnique(l, f, h, m);
    Distribute(h * f, m, g);
    assert (h * f) * g == h * 0x1_0000_0000;
    StrictMonotone(m, f, g);
    DivUnique(l * g, 0x1_0000_0000, h, m * g);
    var p, r := Cell(x, f);
    DivUnique(x, f, p, r);
    Distribute(p, m * g, f);
    assert (m * g) * f == m * 0x1_0000_0000;
    StrictMonotone(m, f, g);
    if p >= g { Monotone(g, p, f); }
  }

  lemma ShiftDownStep(was: seq<nat>, now: seq<nat>, s: nat, r0: nat, l: nat, x: nat)
    requires |was| == |now| && x < LIMB && l < LIMB && 1 <= s < 32
    requires DivDone(was, now, Pow(2, s), r0, LowBits(l, s))
    ensures ShiftedPair(x, l, s) < LIMB
    ensures DivDone([x] + was, [ShiftedPair(x, l, s)] + now, Pow(2, s), r0, LowBits(x, s))
  {
    hide DivDone, Pow, LowBits, ShiftedPair;
    ShiftedDownLimb(x, s, l);
    DivStep(was, now, Pow(2, s), r0, LowBits(l, s), x, ShiftedPair(x, l, s), LowBits(x, s));
  }

  lemma LowBitsSmall(l: nat, s: nat)
    requires l < Pow(2, s) && s < 32
    ensures LowBits(l, s) == l && l < LIMB
  {
    hide Pow;
    PowersOfTwo();
    PowMonotone(2, s, 32);
    DivUnique(l, Pow(2, s), 0, l);
  }

  method ShiftRight(tab: array<nat>, n: nat, shift: nat, high: nat) returns (rest: nat)
    requires n <= tab.Length && AreLimbs(tab[..n]) && 1 <= shift < 32 && high < Pow(2, shift)
    modifies tab
    ensures old(Val(tab[..n])) + high * Base(n) == Val(tab[..n]) * Pow(2, shift) + rest && rest < Pow(2, shift)
    ensures AreLimbs(tab[..n]) && tab[n..] == old(tab[n..])
  {
    hide Base, Val, DivDone, Pow, LowBits, ShiftedPair;
    var l: nat := high;
    ghost var was := tab[..];
    LowBitsSmall(high, shift);
    DivStart(Pow(2, shift), high);
    assert was[n..n] == [] && tab[n..n] == [];
    var i := n;
    while i > 0
      invariant i <= n && l < LIMB && AreLimbs(tab[..n]) && tab[..i] == was[..i] && tab[n..] == was[n..]
      invariant DivDone(was[i..n], tab[i..n], Pow(2, shift), high, LowBits(l, shift))
    {
      i := i - 1;
      var a := tab[i];
      assert a == tab[..n][i];
      ShiftDownStep(was[i + 1..n], tab[i + 1..n], shift, high, l, a);
      ghost var above := tab[i + 1..n];
      tab[i] := ShiftedPair(a, l, shift);
      l := a;
      assert tab[i..n] == [tab[i]] + above;
      assert was[i..n] == [was[i]] + was[i + 1..n];
    }
    assert was[0..n] == was[..n] && tab[0..n] == tab[..n];
    rest := LowBits(l, shift);
    DivFinish(was[..n], tab[..n], Pow(2, shift), high, rest);
  }
}
