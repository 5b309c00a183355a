/** A counted loop without a maximum runs out of rounds: `/a{2,}/` on many letters a. */
module RegexpRounds {
  import opened Bytes
  import opened RegexpCode
  import opened RegexpPattern
  import opened RegexpRegisters
  import opened RegexpSource
  import opened RegexpEmit
  import opened RegexpProgram
  import opened RegexpAnswer

  function TwoOrMore(): Source { Quantified(Leaf(Chars([97])), 2, JS_SHORTINT_MAX, true) }

  predicate Letters(text: seq<byte>) { forall i :: 0 <= i < |text| ==> text[i] == 97 }

  lemma OneLetter(text: seq<byte>, c: nat, caps: seq<nat>)
    requires Letters(text)
    ensures Matches(Chars([97]), text, c, caps) == if c < |text| then [Way(c + 1, caps)] else []
  {
    if c < |text| { assert text[c..c + 1] == [97]; }
  }

  /** The loop of the engine goes as far as the count it starts with. */
  lemma {:induction false} TimesEnd(p: Pattern, k: nat, text: seq<byte>, c: nat, caps: seq<nat>)
    requires p.Counted? && p.body == Chars([97]) && p.greedy && p.min < p.max && Letters(text) && c + k <= |text|
    ensures var l := Times(p, k, text, c, caps); l != [] && l[0].at == c + k
    decreases k
  {
    hide Matches;
    if k > 0 {
      var e := RoundCaps(p, c, caps);
      OneLetter(text, c, e);
      TimesEnd(p, k - 1, text, c + 1, Put(e, p.slot, k - 1));
    }
  }

  /** What the pattern means goes to the end. */
  lemma {:induction false} TurnsEnd(s: Source, lo: nat, text: seq<byte>, c: nat, caps: seq<nat>)
    requires s == TwoOrMore() && Letters(text) && c + lo <= |text|
    ensures var l := Turns(s, 1, lo, JS_SHORTINT_MAX, text, c, caps); l != [] && l[0].at == |text|
    decreases |text| - c
  {
    hide Matches;
    var e := Reset(caps, 1, 0);
    OneLetter(text, c, e);
    assert Means(s.body, 1, text, c, e) == Matches(Chars([97]), text, c, e);
    if c < |text| {
      TurnsEnd(s, if lo > 0 then lo - 1 else 0, text, c + 1, e);
    }
  }

  lemma PutAllFirst(l: seq<Way>, i: nat)
    requires l != []
    ensures PutAll(l, i) != [] && PutAll(l, i)[0].at == l[0].at
  {}

  /** Beyond 2^30 - 1 letters the engine's match ends there, where the match asked for ends with the subject. */
  lemma RoundsRunOut(text: seq<byte>, k: seq<nat>)
    requires Letters(text) && |text| >= JS_SHORTINT_MAX
    ensures Valid(TwoOrMore()) && Captures(TwoOrMore()) == 1
    ensures var w := Found(true, TwoOrMore(), text, 0, k, 0); w.Some? && w.value.at == JS_SHORTINT_MAX
    ensures var w := SourceAnswer(true, TwoOrMore(), text, 0); w.Some? && w.value.at == |text|
  {
    hide Matches, Means, Plan, PutAll, Times;
    var s, e := TwoOrMore(), Undefined(1);
    var p := ThePlan();
    LoopEnd(p, text, Put(k, 0, 0));
    PutAllFirst(Matches(p, text, 0, Put(k, 0, 0)), 1);
    GroupMatches(p, text, 0, k);
    TurnsEnd(s, 2, text, 0, Put(e, 0, 0));
    assert Means(s, 1, text, 0, Put(e, 0, 0)) == Turns(s, 1, 2, JS_SHORTINT_MAX, text, 0, Put(e, 0, 0)) by { MeansTurns(s, text, Put(e, 0, 0)); }
    PutAllFirst(Means(s, 1, text, 0, Put(e, 0, 0)), 1);
    CaptureMeans0(s, text, 0, e);
  }

  lemma MeansTurns(s: Source, text: seq<byte>, e: seq<nat>)
    requires s.Quantified?
    ensures Means(s, 1, text, 0, e) == Turns(s, 1, s.min, s.max, text, 0, e)
  {}

  lemma ThePlan() returns (p: Pattern)
    ensures p == Plan(TwoOrMore(), 1, 1, 0, 0) && p == Counted(Chars([97]), 2, JS_SHORTINT_MAX, true, false, 2, 3)
  {
    p := Plan(TwoOrMore(), 1, 1, 0, 0);
  }

  lemma LoopEnd(p: Pattern, text: seq<byte>, e: seq<nat>)
    requires p == Counted(Chars([97]), 2, JS_SHORTINT_MAX, true, false, 2, 3) && Letters(text) && |text| >= JS_SHORTINT_MAX
    ensures var l := Matches(p, text, 0, e); l != [] && l[0].at == JS_SHORTINT_MAX
  {
    hide Times;
    var f := RoundCaps(p, 0, Put(e, 2, p.max));
    OneLetter(text, 0, f);
    TimesEnd(p, p.max - 1, text, 1, Put(f, p.slot, p.max - 1));
  }
}
