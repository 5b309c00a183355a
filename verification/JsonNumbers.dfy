/** Numbers in JSON texts: doubles as js_dtoa prints them in free format and js_atod reads them. */
module JsonNumbers {
  import opened Options
  import opened Binary64
  import opened DecimalText
  import opened Bignum
  import DecimalDigits
  import Json
  import Reader
  import Shortest
  import Dtoa
  import FreeFormat

  type Bits64 = Json.Bits64

  function Magnitude(n: Bits64): nat { n % TWO63 }

  predicate IsNegative(n: Bits64) { n >= TWO63 }

  function BitsOf(negative: bool, mag: nat): Bits64
    requires mag < TWO63
  {
    if negative then TWO63 + mag else mag
  }

  /** The text js_dtoa prints for a finite number. */
  ghost predicate IsNumberText(w: string, n: Bits64) {
    if Magnitude(n) == 0 then w == Dtoa.FreeText("0", 1, Dtoa.Auto)
    else Dtoa.IsTextOf(w, IsNegative(n), Magnitude(n), Dtoa.Auto)
  }

  /** The text of a finite number: there is one, and only one. */
  ghost function TextFor(n: Bits64): string {
    if exists w :: IsNumberText(w, n) then
      var w :| IsNumberText(w, n); w
    else []
  }

  lemma TextForIs(w: string, n: Bits64)
    requires IsNumberText(w, n)
    ensures TextFor(n) == w
  {
    hide Dtoa.FreeText, Dtoa.IsTextOf;
    forall u, v | IsNumberText(u, n) && IsNumberText(v, n) ensures u == v {
      if Magnitude(n) > 0 { Dtoa.TextOnce(u, v, IsNegative(n), Magnitude(n), Dtoa.Auto); }
    }
  }

  method NumberText(n: Bits64) returns (w: string)
    requires Json.IsFinite(n)
    ensures IsNumberText(w, n) && w == TextFor(n)
  {
    hide Dtoa.FreeText, Dtoa.IsTextOf, TextFor;
    var buf := new char[Dtoa.MAX_LENGTH + 1];
    var tmp1 := new Mpb(FreeFormat.BIGNUM_LIMBS);
    var len := Dtoa.PrintDouble(buf, tmp1, IsNegative(n), Magnitude(n), Dtoa.Auto, false);
    w := buf[..len];
    assert Dtoa.Sign(false) + Dtoa.FreeText("0", 1, Dtoa.Auto) == Dtoa.FreeText("0", 1, Dtoa.Auto);
    TextForIs(w, n);
  }

  /** What the literal at p denotes. */
  ghost predicate Stands(s: string, p: nat, negative: bool, mag: nat, end: nat) {
    p <= |s| && mag <= INF && Reader.Denotes(Parse(s[p..], false), Reader.Double(negative, mag), end)
  }

  /** The number js_atod reads at p, and where it stops; nothing when it gives NaN. */
  ghost function NumberAt(s: string, p: nat): (r: Option<(Bits64, nat)>)
    ensures r.Some? ==> p < r.value.1 <= |s|
  {
    if exists negative, mag, end: nat :: Stands(s, p, negative, mag, end) then
      var negative, mag, end: nat :| Stands(s, p, negative, mag, end);
      LiteralEnd(s[p..], Reader.Double(negative, mag), end);
      Some((BitsOf(negative, mag), p + end))
    else None
  }

  /** A literal takes at least one character, and ends within the text. */
  lemma LiteralEnd(s: string, r: Reader.Outcome, end: nat)
    requires Reader.Denotes(Parse(s, false), r, end) && r.Double?
    ensures 0 < end <= |s|
  {
    hide MantissaDigits, Reader.ReadsAs, DigitRun, Num, MantissaEnd, WrittenExponent;
  }

  lemma NumberIs(s: string, p: nat, negative: bool, mag: nat, end: nat)
    requires Stands(s, p, negative, mag, end)
    ensures NumberAt(s, p) == Some((BitsOf(negative, mag), p + end))
  {
    hide Parse, Reader.Denotes;
    forall v, m, e: nat | Stands(s, p, v, m, e) ensures v == negative && m == mag && e == end {
      Reader.DenotesOnce(Parse(s[p..], false), Reader.Double(negative, mag), end, Reader.Double(v, m), e);
    }
  }

  /** js_atod at p, as the JSON parser calls it. */
  method ReadNumber(s: string, p: nat) returns (r: Option<(Bits64, nat)>)
    requires p <= |s| <= Reader.MAX_TEXT
    ensures r == NumberAt(s, p)
  {
    hide Parse, Reader.Denotes;
    var tmp0 := new Mpb(FreeFormat.BIGNUM_LIMBS);
    var d, end := Reader.Atod(tmp0, s[p..], false);
    if d.NaN? {
      forall v, m, e: nat | Stands(s, p, v, m, e) ensures false {
        Reader.DenotesOnce(Parse(s[p..], false), Reader.Double(v, m), e, d, end);
      }
      return None;
    }
    Reader.DenotesOnce(Parse(s[p..], false), d, end, d, end);
    NumberIs(s, p, d.negative, d.magnitude, end);
    return Some((BitsOf(d.negative, d.magnitude), p + end));
  }

  // ---------- the round trip ----------

  /** The text lays out a decimal that reads as the number; minus zero lays out zero. */
  lemma TextShape(w: string, n: Bits64) returns (a: string, b: string, e: string, x: int, m: nat, q: int)
    requires Json.IsFinite(n) && IsNumberText(w, n)
    ensures Dtoa.LaysOut(a, b, e, x, m, q) && Dtoa.Readable(a, b, x) && w == Dtoa.Shape(IsNegative(n) && Magnitude(n) > 0, a, b, e)
    ensures if m == 0 then Magnitude(n) == 0
            else 0 < Magnitude(n) < INF && Shortest.Reads(FreeFormat.FloatOf(Magnitude(n)), Shortest.DecimalValue(m, q))
  {
    hide Dtoa.LaysOut, Dtoa.Shape, Dtoa.FreeText, Dtoa.IsTextOf, FreeFormat.FloatOf;
    if Magnitude(n) == 0 {
      a, b, e, x := Dtoa.ZeroLayout(Dtoa.Auto);
      m, q := 0, 0;
    } else {
      a, b, e, x, m, q := Dtoa.TextLaysOut(w, IsNegative(n), Magnitude(n), Dtoa.Auto);
    }
  }

  /** Where a printed number stands, and a value may end behind it, it reads back; a zero without its sign. */
  lemma NumberReadsBack(w: string, n: Bits64, s: string, p: nat)
    requires Json.IsFinite(n) && IsNumberText(w, n) && Json.Here(s, p, w) && Json.EndsAt(s, p + |w|)
    ensures NumberAt(s, p) == Some((if Json.IsMinusZero(n) then 0 else n, p + |w|))
  {
    hide *;
    var a, b, e, x, m, q := TextShape(w, n);
    var tail := TailAt(s, p, w);
    var negative := IsNegative(n) && Magnitude(n) > 0;
    Dtoa.LaidOutReads(negative, a, b, e, x, m, q, tail, Magnitude(n));
    StandsIs(s, p, w + tail, negative, Magnitude(n), |w|, n);
    NumberIs(s, p, negative, Magnitude(n), |w|);
    BitsIs(n);
  }

  lemma ShapeStarts(negative: bool, a: string, b: string, e: string, x: int, m: nat, q: int)
    requires Dtoa.LaysOut(a, b, e, x, m, q)
    ensures var w := Dtoa.Shape(negative, a, b, e); w != [] && Json.IsNumberStart(w[0])
  {
    hide Num;
    Dtoa.ShapeStart(negative, a, b, e, []);
    assert Dtoa.Shape(negative, a, b, e) + [] == Dtoa.Shape(negative, a, b, e);
  }

  lemma TailAt(s: string, p: nat, w: string) returns (tail: string)
    requires Json.Here(s, p, w) && Json.EndsAt(s, p + |w|)
    ensures p <= |s| && s[p..] == w + tail && Dtoa.Stops(tail)
  {
    tail := s[p + |w|..];
    assert s[p..] == s[p..p + |w|] + tail;
  }

  lemma StandsIs(s: string, p: nat, w: string, negative: bool, mag: nat, end: nat, n: Bits64)
    requires p <= |s| && s[p..] == w && Reader.Denotes(Parse(w, false), Reader.Double(negative, mag), end)
    requires mag == Magnitude(n) && Json.IsFinite(n)
    ensures Stands(s, p, negative, mag, end)
  {
    hide Parse, Reader.Denotes;
  }

  lemma BitsIs(n: Bits64)
    ensures Magnitude(n) < TWO63
    ensures BitsOf(IsNegative(n) && Magnitude(n) > 0, Magnitude(n)) == if Json.IsMinusZero(n) then 0 else n
  {}

  lemma TextExists(n: Bits64)
    requires Json.IsFinite(n)
    ensures IsNumberText(TextFor(n), n)
  {
    hide Dtoa.FreeText, FreeFormat.FloatOf, FreeFormat.Found, FreeFormat.Printable, Dtoa.IsSmallInteger, Dtoa.SmallInteger;
    if Magnitude(n) == 0 {
      assert IsNumberText(Dtoa.FreeText("0", 1, Dtoa.Auto), n);
    } else {
      var x := FreeFormat.FloatOf(Magnitude(n));
      FreeFormat.FloatOfPattern(Magnitude(n));
      var sign := Dtoa.Sign(IsNegative(n));
      if Dtoa.IsSmallInteger(x) {
        assert IsNumberText(sign + DecimalDigits.Dec(Dtoa.SmallInteger(x)), n);
      } else {
        var P, E, mant := FreeFormat.SomeFound(x);
        Dtoa.FoundRange(x, P, E, mant);
        assert IsNumberText(sign + Dtoa.FreeText(DecimalDigits.DigitsOf(mant, P), E, Dtoa.Auto), n);
      }
    }
  }
}
