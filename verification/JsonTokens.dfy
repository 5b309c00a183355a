/** The engine's own numbers and strings as tokens of JSON: every double is printed and read by the conversions of this
    model, every string is escaped and scanned. */
module JsonTokens {
  import opened Options
  import opened Json
  import opened JsonPrinter
  import opened JsonImage
  import Binary64
  import Dtoa
  import JsonNumbers
  import JsonStrings

  /** Tokens read as the engine does. */
  ghost predicate ReadByEngine(t: Tokens) {
    && (forall s, p: nat :: t.readNum(s, p) == JsonNumbers.NumberAt(s, p))
    && (forall s, p: nat :: t.readStr(s, p) == JsonStrings.Unquote(s, p))
  }

  /** Tokens printed and read as the engine does. */
  ghost predicate OfEngine(t: Tokens) {
    && (forall n: Bits64 :: IsFinite(n) ==> t.numText(n) == JsonNumbers.TextFor(n))
    && (forall w: JsString :: t.strText(w) == "\"" + JsonStrings.Quote(w))
    && ReadByEngine(t)
  }

  ghost function EngineTokens(): (t: Tokens) {
    Tokens((n: Bits64) => JsonNumbers.TextFor(n), (s: string, p: nat) => JsonNumbers.NumberAt(s, p),
           (w: JsString) => "\"" + JsonStrings.Quote(w), (s: string, p: nat) => JsonStrings.Unquote(s, p))
  }

  lemma EngineHasTokens()
    ensures OfEngine(EngineTokens())
  {
    hide JsonNumbers.TextFor, JsonNumbers.NumberAt, JsonStrings.Quote, JsonStrings.Unquote;
  }

  /** What the round trip of JSON texts asks of tokens, the engine's keep. */
  lemma EngineRoundTrips(t: Tokens)
    requires OfEngine(t)
    ensures RoundTripping(t)
  {
    hide *;
    Reading(t);
    EngineAdvances(t);
    forall n: Bits64 | IsFinite(n) ensures t.numText(n) != [] && IsNumberStart(t.numText(n)[0]) {
      Writing(t, n);
      NumberStarts(t.numText(n), n);
    }
    forall n: Bits64, s, p: nat
      | IsFinite(n) && !IsMinusZero(n) && Here(s, p, t.numText(n)) && EndsAt(s, p + |t.numText(n)|)
      ensures var r := t.readNum(s, p); r.Some? && r.value.0 == n && r.value.1 == p + |t.numText(n)|
    {
      Writing(t, n);
      JsonNumbers.NumberReadsBack(t.numText(n), n, s, p);
    }
    StringsRoundTrip(t);
    RoundTrippingIs(t);
  }

  lemma Reading(t: Tokens)
    requires OfEngine(t)
    ensures forall s, p: nat :: t.readNum(s, p) == JsonNumbers.NumberAt(s, p)
  {}

  lemma Writing(t: Tokens, n: Bits64)
    requires OfEngine(t) && IsFinite(n)
    ensures JsonNumbers.IsNumberText(t.numText(n), n)
  {
    JsonNumbers.TextExists(n);
  }

  lemma EngineAdvances(t: Tokens)
    requires OfEngine(t)
    ensures Advancing(t)
  {
    ReaderAdvances(t);
  }

  lemma ReaderAdvances(t: Tokens)
    requires ReadByEngine(t)
    ensures Advancing(t)
  {
    hide JsonNumbers.IsNumberText, JsonNumbers.NumberAt, JsonStrings.Quote, JsonStrings.Unquote;
  }

  lemma NumberStarts(w: string, n: Bits64)
    requires IsFinite(n) && JsonNumbers.IsNumberText(w, n)
    ensures w != [] && IsNumberStart(w[0])
  {
    hide JsonNumbers.IsNumberText;
    var a, b, e, x, m, q := JsonNumbers.TextShape(w, n);
    JsonNumbers.ShapeStarts(JsonNumbers.IsNegative(n) && JsonNumbers.Magnitude(n) > 0, a, b, e, x, m, q);
  }

  lemma StringsRoundTrip(t: Tokens)
    requires OfEngine(t)
    ensures forall w: JsString :: t.strText(w) != [] && t.strText(w)[0] == '"'
    ensures forall w: JsString, s, p: nat :: Here(s, p, t.strText(w)) ==>
              var r := t.readStr(s, p + 1); r.Some? && r.value.0 == w && r.value.1 == p + |t.strText(w)|
  {
    hide JsonNumbers.IsNumberText, JsonNumbers.NumberAt, JsonStrings.Quote, JsonStrings.Unquote;
    forall w: JsString, s, p: nat | Here(s, p, t.strText(w))
      ensures var r := t.readStr(s, p + 1); r.Some? && r.value.0 == w && r.value.1 == p + |t.strText(w)|
    {
      HereParts(s, p, "\"", JsonStrings.Quote(w));
      JsonStrings.UnquoteQuoted(w, s, p + 1);
    }
  }

  lemma RoundTrippingIs(t: Tokens)
    requires Advancing(t)
    requires forall n: Bits64 :: IsFinite(n) ==> t.numText(n) != [] && IsNumberStart(t.numText(n)[0])
    requires forall w: JsString :: t.strText(w) != [] && t.strText(w)[0] == '"'
    requires forall n: Bits64, s, p: nat ::
               IsFinite(n) && !IsMinusZero(n) && Here(s, p, t.numText(n)) && EndsAt(s, p + |t.numText(n)|) ==>
               var r := t.readNum(s, p); r.Some? && r.value.0 == n && r.value.1 == p + |t.numText(n)|
    requires forall w: JsString, s, p: nat :: Here(s, p, t.strText(w)) ==>
               var r := t.readStr(s, p + 1); r.Some? && r.value.0 == w && r.value.1 == p + |t.strText(w)|
    ensures RoundTripping(t)
  {
    hide Here, EndsAt, IsFinite, IsMinusZero, IsNumberStart;
  }

  /** Every value, printed by the engine and parsed by it, comes back as its image, which is the value itself exactly
      when JSON can express it. */
  lemma EngineReadsItself(t: Tokens, v: Value)
    requires OfEngine(t) && KeyedOnce(v)
    ensures Advancing(t) && ParseText(t, Text(t, v)) == Some(Image(v))
    ensures ParseText(t, Text(t, v)) == Some(v) <==> Plain(v)
  {
    hide OfEngine, RoundTripping, ParseText, Text, Plain, Advancing, Image, KeyedOnce;
    EngineRoundTrips(t);
    IsAdvancing(t);
    ZerosAlike(t);
    TextGivesImage(t, v);
    ImagePlain(v);
  }

  lemma ZerosAlike(t: Tokens)
    requires OfEngine(t)
    ensures t.numText(Binary64.TWO63) == t.numText(0)
  {
    hide Dtoa.FreeText;
    assert IsFinite(0) && IsFinite(Binary64.TWO63);
    Writing(t, 0);
    Writing(t, Binary64.TWO63);
  }
}
