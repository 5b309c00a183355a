/** The big number of dtoa.c: a length and a limb buffer, changed in place. */
module Bignum {
  import opened Arith
  import opened Powers
  import opened Rounding
  import opened Bits
  import opened Limbs
  import opened LimbBits
  import opened InverseDivision

  class Mpb {
    var len: nat
    const tab: array<nat>

    ghost predicate Shaped()
      reads this, tab
    {
      1 <= len <= tab.Length && AreLimbs(tab[..len])
    }

    /** No leading zero limb, except that zero itself keeps one. */
    ghost predicate Valid()
      reads this, tab
    {
      Shaped() && (len > 1 ==> tab[len - 1] != 0)
    }

    ghost function Value(): nat
      requires Shaped()
      reads this, tab
    {
      Val(tab[..len])
    }

    constructor (capacity: nat)
      requires capacity >= 2
      ensures Valid() && Value() == 0 && fresh(tab) && tab.Length == capacity
    {
      len := 1;
      tab := new nat[capacity];
      new;
      tab[0] := 0;
      assert tab[..1] == [0];
      ValSingle(0);
    }

    method Renorm()
      requires Shaped()
      modifies this`len
      ensures Valid() && Value() == old(Value()) && len <= old(len)
    {
      hide Val;
      while len > 1 && tab[len - 1] == 0
        invariant Shaped() && Value() == old(Value()) && len <= old(len)
        decreases len
      {
        ValSnoc(tab[..len], len - 1);
        assert tab[..len][..len] == tab[..len] && tab[..len][..len - 1] == tab[..len - 1];
        len := len - 1;
      }
    }

    method SetU64(m: nat)
      requires m < LIMB2 && tab.Length >= 2
      modifies this`len, tab
      ensures Valid() && Value() == m && len <= 2
    {
      tab[0] := m % 0x1_0000_0000;
      tab[1] := m / 0x1_0000_0000;
      if tab[1] == 0 {
        len := 1;
        assert tab[..1] == [m];
        ValSingle(m);
      } else {
        len := 2;
        assert tab[..2] == [m % 0x1_0000_0000] + [m / 0x1_0000_0000];
        ValSingle(m / 0x1_0000_0000);
        ValPrepend(m % 0x1_0000_0000, [m / 0x1_0000_0000]);
      }
    }

    /** The low 64 bits. */
    method GetU64() returns (m: nat)
      requires Valid()
      ensures m == Value() % LIMB2
    {
      hide Val;
      if len == 1 {
        assert tab[..1] == [tab[0]];
        ValSingle(tab[0]);
        return tab[0];
      } else {
        m := tab[0] + tab[1] * 0x1_0000_0000;
        ghost var s := tab[..len];
        ValCons(s, 0);
        ValCons(s, 1);
        assert s[0..] == s;
        LowTwoLimbs(s[0], s[1], Val(s[2..]));
      }
    }

    method FloorLog2() returns (k: int)
      requires Valid()
      ensures k == BitLength(Value()) - 1
    {
      hide Val, BitLength, Base;
      var v := tab[len - 1];
      ValSnoc(tab[..len], len - 1);
      assert tab[..len][..len] == tab[..len] && tab[..len][..len - 1] == tab[..len - 1];
      if v == 0 {
        BaseStep(0);
        ValEmpty(tab[..0]);
        BitLengthZero();
        return -1;
      }
      ValBound(tab[..len - 1]);
      TopLimbLength(Val(tab[..len - 1]), v, len - 1);
      k := len * 32 - 1 - (32 - BitLength(v));
    }

    method GetBit(k: nat) returns (b: nat)
      requires Valid()
      ensures b == BitAt(Value(), k)
    {
      hide Val, BitAt, Pow;
      var l, j := k / 32, k % 32;
      if l >= len {
        BitBeyond(tab[..len], l, j);
        return 0;
      }
      LimbBit(tab[..len], l, j);
      b := tab[l] / Pow(2, j) % 2;
    }

    /** Whether a bit below position k is set: whole limbs first, then the low bits of the next. */
    method AnyBitBelow(k: nat) returns (any: bool)
      requires Valid()
      ensures any == BitsBelow(Value(), k)
    {
      hide Val, BitsBelow, Pow, BitAt;
      var l, j := k / 32, k % 32;
      any := AnyLimbBelow(if l < len then l else len);
      if l < len {
        any := any || tab[l] % Pow(2, j) != 0;
        LimbBit(tab[..len], l, j);
        assert tab[..len][..l] == tab[..l];
      } else {
        BitBeyond(tab[..len], l, j);
      }
    }

    method AnyLimbBelow(n: nat) returns (any: bool)
      requires Shaped() && n <= len
      ensures any == (Val(tab[..n]) != 0)
    {
      hide Val;
      any := false;
      for i := 0 to n
        invariant !any <==> forall m | 0 <= m < i :: tab[m] == 0
      {
        any := any || tab[i] != 0;
      }
      AllZero(tab[..n]);
    }

    /** -1, 0 or 1: lengths first, then limbs from the top. */
    method Cmp(b: Mpb) returns (c: int)
      requires Valid() && b.Valid()
      ensures -1 <= c <= 1
      ensures (c < 0 <==> Value() < b.Value()) && (c == 0 <==> Value() == b.Value())
    {
      hide Val, Base;
      if len < b.len {
        ShorterIsLess(tab[..len], b.tab[..b.len]);
        return -1;
      } else if len > b.len {
        ShorterIsLess(b.tab[..b.len], tab[..len]);
        return 1;
      }
      var i: nat := len;
      while i > 0
        invariant i <= len && tab[i..len] == b.tab[i..len]
      {
        i := i - 1;
        if tab[i] != b.tab[i] {
          if tab[i] < b.tab[i] {
            TopLimbDecides(tab[..len], b.tab[..len], i);
            return -1;
          } else {
            TopLimbDecides(b.tab[..len], tab[..len], i);
            return 1;
          }
        }
      }
      assert tab[0..len] == tab[..len] && b.tab[0..len] == b.tab[..len];
      c := 0;
    }
  
    // ---------- shifting ----------

    /** Multiplication by a power of two: bits first, then whole limbs. */
    method ShiftUp(shift: nat)
      requires Valid() && shift > 0 && len + 1 + shift / 32 <= tab.Length
      modifies this`len, tab
      ensures Shaped() && Value() == old(Value()) * Pow(2, shift) && (old(Value()) > 0 || shift < 32 ==> Valid())
      ensures len <= old(len) + 1 + shift / 32
    {
      hide Val, Base, Pow;
      var l, j := shift / 32, shift % 32;
      ghost var v := Value();
      if j != 0 {
        ShiftBits(j);
      } else {
        PowStep(2, 0);
      }
      PowAdd(2, j, 32 * l);
      ghost var u := Value();
      if v > 0 { Positive(Pow(2, j), v); }
      if l > 0 {
        RaiseLimbs(l);
      } else {
        PowStep(2, 0);
      }
      ShiftedValue(v, Pow(2, j), Pow(2, 32 * l));
    }

    method AppendLimb(c: nat)
      requires Shaped() && len < tab.Length && c < LIMB
      modifies this`len, tab
      ensures Shaped() && len == old(len) + 1 && Value() == old(Value()) + Base(old(len)) * c
      ensures tab[len - 1] == c
    {
      hide Val, Base;
      tab[len] := c;
      ValPush(tab[..len], c);
      assert tab[..len + 1] == tab[..len] + [c];
      len := len + 1;
    }

    method ShiftBits(j: nat)
      requires Valid() && 0 < j < 32 && len + 1 <= tab.Length
      modifies this`len, tab
      ensures Valid() && Value() == Pow(2, j) * old(Value()) && len <= old(len) + 1
    {
      hide Val, Base, Pow;
      PowStep(2, j - 1);
      var c := ShiftLeft(tab, len, j, 0);
      PowersOfTwo();
      PowMonotone(2, j, 32);
      AppendLimb(c);
      Renorm();
    }

    method MoveLimbsUp(l: nat)
      requires Shaped() && len + l <= tab.Length
      modifies tab
      ensures tab[l..len + l] == old(tab[..len])
    {
      ghost var was := tab[..len];
      var i: nat := len;
      while i > 0
        invariant i <= len
        invariant forall k | 0 <= k < i :: tab[k] == was[k]
        invariant forall k | i + l <= k < len + l :: tab[k] == was[k - l]
      {
        i := i - 1;
        tab[i + l] := tab[i];
      }
    }

    method ClearLimbs(l: nat)
      requires len + l <= tab.Length
      modifies tab
      ensures tab[l..len + l] == old(tab[l..len + l]) && forall m | 0 <= m < l :: tab[m] == 0
    {
      for k := 0 to l
        invariant tab[l..len + l] == old(tab[l..len + l])
        invariant forall m | 0 <= m < k :: tab[m] == 0
      {
        tab[k] := 0;
      }
    }

    method RaiseLimbs(l: nat)
      requires Valid() && len + l <= tab.Length && l > 0
      modifies this`len, tab
      ensures Shaped() && Value() == Pow(2, 32 * l) * old(Value()) && len == old(len) + l && (old(Value()) > 0 ==> Valid())
    {
      hide Val, Base, Pow;
      ghost var was := tab[..len];
      MoveLimbsUp(l);
      ClearLimbs(l);
      len := len + l;
      assert tab[..len] == tab[..l] + was;
      RaisedValue(tab[..len], was, l);
      if |was| == 1 {
        assert was == [was[0]];
        ValSingle(was[0]);
      }
      assert tab[len - 1] == was[|was| - 1];
    }
  
    method MoveLimbsDown(l: nat)
      requires Shaped() && 0 < l < len
      modifies this`len, tab
      ensures Shaped() && len == old(len) - l && tab[..len] == old(tab[..len])[l..]
    {
      ghost var was := tab[..len];
      len := len - l;
      for i := 0 to len
        invariant len == |was| - l
        invariant forall k | 0 <= k < i :: tab[k] == was[k + l]
        invariant forall k | i <= k < len + l :: tab[k] == was[k]
      {
        tab[i] := tab[i + l];
      }
      assert tab[..len] == was[l..];
    }

    method ShiftBitsDown(j: nat)
      requires Valid() && 0 < j < 32
      modifies this`len, tab
      ensures Valid() && Value() == old(Value()) / Pow(2, j) && len <= old(len)
      ensures len == old(len) ==> tab[len - 1] < 0x8000_0000
    {
      hide Val, Base, Pow;
      ghost var v := Value();
      PowStep(2, j - 1);
      ValBound(tab[..len]);
      var rest := ShiftRight(tab, len, j, 0);
      DivUnique(v, Pow(2, j), Value(), rest);
      TopLimbShrunk(tab[..len], v, j, rest);
      Renorm();
    }

    /** Division by 2^shift, dropping the remainder; fewer limbs than the shift leaves zero. */
    method DropBits(shift: nat)
      requires Valid() && shift > 0
      modifies this`len, tab
      ensures Valid() && Value() == old(Value()) / Pow(2, shift) && len <= old(len)
      ensures len == old(len) ==> tab[len - 1] < 0x8000_0000
    {
      hide Val, Base, Pow;
      var l, j := shift / 32, shift % 32;
      if l >= len {
        BitBeyond(tab[..len], l, j);
        DivUnique(Value(), Pow(2, shift), 0, Value());
        SetZero();
        return;
      }
      DroppedValue(tab[..len], l, j);
      if l > 0 {
        MoveLimbsDown(l);
      } else {
        assert tab[..len][0..] == tab[..len];
      }
      if j != 0 {
        ShiftBitsDown(j);
      } else {
        PowStep(2, 0);
      }
    }

    method SetZero()
      requires tab.Length > 0
      modifies this`len, tab
      ensures Valid() && Value() == 0 && len == 1 && tab[0] == 0
    {
      len := 1;
      tab[0] := 0;
      assert tab[..1] == [0];
      ValSingle(0);
    }
  
    /** Adding one; a carry out of the top limb opens a new one. */
    method Increment()
      requires Valid() && (len < tab.Length || tab[len - 1] < 0x8000_0000)
      modifies this`len, tab
      ensures Valid() && Value() == old(Value()) + 1 && len <= old(len) + 1
      ensures old(tab[len - 1]) < 0x8000_0000 ==> len == old(len)
    {
      hide Val, Base;
      ghost var was := tab[..len];
      ValBound(was);
      BaseStep(len - 1);
      if len > 1 { ValTop(was); }
      if tab[len - 1] < 0x8000_0000 { RoomAtTop(was); }
      var a := AddUi(tab, len, 1);
      if a != 0 {
        AppendLimb(a);
      } else if len > 1 {
        TopNonzero(tab[..len]);
      }
    }

    /** round(r / 2^shift); a negative shift multiplies, and makes a zero longer when it is by whole limbs. */
    method ShrRound(shift: int, rnd: Rnd)
      requires Valid() && (shift < 0 ==> len + 1 + (-shift) / 32 <= tab.Length)
      modifies this`len, tab
      ensures Shaped() && (old(Value()) > 0 || shift > -32 ==> Valid())
      ensures shift <= 0 ==> Value() == old(Value()) * Pow(2, -shift) && len <= old(len) + 1 + (-shift) / 32
      ensures shift > 0 ==>
                RoundedQuotient(DirectionOfRnd(rnd), Value(), old(Value()) as real, Pow(2, shift)) && len <= old(len)
    {
      hide Val, Base, Pow, BitAt, BitsBelow, RoundedQuotient;
      if shift == 0 {
        PowStep(2, 0);
        return;
      }
      if shift < 0 {
        ShiftUp(-shift);
        return;
      }
      ghost var v := Value();
      var addOne := RoundingBit(shift, rnd);
      RoundUpCorrect(v, shift, rnd);
      DropBits(shift);
      if addOne != 0 {
        Increment();
      }
    }

    method RoundingBit(shift: nat, rnd: Rnd) returns (addOne: nat)
      requires Valid() && shift > 0
      ensures addOne == RoundUp(Value(), shift, rnd) && addOne <= 1
    {
      hide Val, BitAt, BitsBelow, Pow;
      if rnd == RNDZ {
        return 0;
      }
      var bit1 := GetBit(shift - 1);
      BitIsBit(Value(), shift - 1);
      if bit1 != 0 {
        var bit2 := true;
        if rnd != RNDNA {
          bit2 := AnyBitBelow(shift - 1);
        }
        if bit2 {
          addOne := 1;
        } else {
          addOne := GetBit(shift);
          BitIsBit(Value(), shift);
        }
      } else {
        addOne := 0;
      }
    }
  }

  lemma BitIsBit(v: nat, k: nat)
    ensures BitAt(v, k) <= 1
  {}

  lemma RoomAtTop(s: seq<nat>)
    requires AreLimbs(s) && |s| > 0 && s[|s| - 1] < 0x8000_0000
    ensures Val(s) + 1 < Base(|s|)
  {
    hide Val, Base;
    var n := |s| - 1;
    ValSnoc(s, n);
    assert s[..n + 1] == s;
    ValBound(s[..n]);
    BaseStep(n);
    Monotone(s[n], 0x7FFF_FFFF, Base(n));
  }

  lemma TopNonzero(s: seq<nat>)
    requires AreLimbs(s) && |s| > 0 && Val(s) >= Base(|s| - 1)
    ensures s[|s| - 1] != 0
  {
    hide Val, Base;
    var n := |s| - 1;
    ValSnoc(s, n);
    assert s[..n + 1] == s;
    ValBound(s[..n]);
  }

  lemma DroppedValue(s: seq<nat>, l: nat, j: nat)
    requires AreLimbs(s) && l < |s|
    ensures Val(s) / Pow(2, 32 * l + j) == Val(s[l..]) / Pow(2, j)
  {
    hide Val, Base, Pow;
    var low := DropLimbs(s, l);
    BaseIsPowerOfTwo(l);
    PowAdd(2, 32 * l, j);
    var q, r := Cell(Val(s[l..]), Pow(2, j));
    DivUnique(Val(s[l..]), Pow(2, j), q, r);
    NestedCell(Val(s), low, Base(l), Val(s[l..]), Pow(2, j), q, r);
    DivUnique(Val(s), Pow(2, 32 * l + j), q, low + Base(l) * r);
  }

  lemma NestedCell(v: nat, low: nat, w: nat, u: nat, f: nat, q: nat, r: nat)
    requires v == low + w * u && low < w && u == q * f + r && r < f
    ensures v == q * (w * f) + (low + w * r) && low + w * r < w * f
  {
    Distribute(q * f, r, w);
    assert q * f * w == q * (w * f);
    StrictMonotone(r, f, w);
  }

  lemma TopLimbShrunk(s: seq<nat>, v: nat, j: nat, rest: nat)
    requires |s| > 0 && AreLimbs(s) && j > 0 && v == Val(s) * Pow(2, j) + rest && v < Base(|s|)
    ensures s[|s| - 1] < 0x8000_0000
  {
    hide Val, Base, Pow;
    var n := |s| - 1;
    ValSnoc(s, n);
    assert s[..n + 1] == s;
    BaseStep(n);
    PowStep(2, j - 1);
    HalfTop(Val(s), s[n], Base(n), Pow(2, j), v);
  }

  lemma HalfTop(u: nat, x: nat, w: nat, f: nat, v: nat)
    requires u >= w * x && f >= 2 && v >= u * f && v < 0x1_0000_0000 * w && w > 0
    ensures x < 0x8000_0000
  {
    Monotone(2, f, u);
    if x >= 0x8000_0000 { Monotone(0x8000_0000, x, w); }
  }

  lemma RaisedValue(now: seq<nat>, was: seq<nat>, l: nat)
    requires |now| == l + |was| && now[l..] == was && (forall i | 0 <= i < l :: now[i] == 0) && AreLimbs(was)
    ensures Val(now) == Pow(2, 32 * l) * Val(was) && AreLimbs(now)
  {
    hide Val, Base, Pow;
    ValSplit(now, l);
    ValZeros(now[..l]);
    BaseIsPowerOfTwo(l);
    forall i | 0 <= i < |now| ensures now[i] < LIMB {
      if i >= l { assert now[i] == was[i - l]; }
    }
  }

  lemma ShiftedValue(v: nat, f: nat, g: nat)
    ensures g * (f * v) == v * (f * g)
  {
    assert g * (f * v) == (g * f) * v;
  }

  lemma LowTwoLimbs(x: nat, y: nat, up: nat)
    requires x < LIMB && y < LIMB
    ensures (x + 0x1_0000_0000 * (y + 0x1_0000_0000 * up)) % LIMB2 == x + y * 0x1_0000_0000
  {
    DivUnique(x + 0x1_0000_0000 * (y + 0x1_0000_0000 * up), 0x1_0000_0000_0000_0000, up, x + y * 0x1_0000_0000);
  }

  lemma TopLimbLength(low: nat, v: nat, n: nat)
    requires low < Base(n) && 0 < v < LIMB
    ensures BitLength(low + Base(n) * v) == 32 * n + BitLength(v) && BitLength(v) <= 32
  {
    hide Base, BitLength, Pow;
    var l := BitLength(v);
    BitLengthBounds(v);
    PowersOfTwo();
    BitLengthAtMost(v, 32);
    BaseIsPowerOfTwo(n);
    PowAdd(2, 32 * n, l);
    PowAdd(2, 32 * n, l - 1);
    var w := Base(n);
    Monotone(Pow(2, l - 1), v, w);
    Monotone(v, Pow(2, l) - 1, w);
    Distribute(Pow(2, l), 1, w);
    BitLengthIs(low + w * v, 32 * n + l);
  }

  lemma ShorterIsLess(s: seq<nat>, t: seq<nat>)
    requires AreLimbs(s) && 0 < |s| < |t| && t[|t| - 1] != 0
    ensures Val(s) < Val(t)
  {
    hide Val, Base;
    ValBound(s);
    ValTop(t);
    BaseIsPowerOfTwo(|s|);
    BaseIsPowerOfTwo(|t| - 1);
    PowMonotone(2, 32 * |s|, 32 * (|t| - 1));
  }

  lemma TopLimbDecides(s: seq<nat>, t: seq<nat>, i: nat)
    requires AreLimbs(s) && AreLimbs(t) && |s| == |t| && i < |s| && s[i] < t[i] && s[i + 1..] == t[i + 1..]
    ensures Val(s) < Val(t)
  {
    hide Val, Base;
    ValSplit(s, i);
    ValSplit(t, i);
    ValCons(s, i);
    ValCons(t, i);
    ValBound(s[..i]);
    BaseStep(i);
    OneMore(Base(i), Val(s[i..]), Val(t[i..]));
  }

  lemma OneMore(w: nat, a: nat, b: nat)
    requires a < b && w > 0
    ensures w * a + w <= w * b
  {
    StrictMonotone(a, b, w);
  }
}
