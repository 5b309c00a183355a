/** What a whole match should find according to ECMA-262, and exactly where the engine's captures differ from it. */
module RegexpAnswer {
  import opened Bytes
  import opened Options
  import opened RegexpCode
  import opened RegexpPattern
  import opened RegexpRegisters
  import opened RegexpSource
  import opened RegexpPlan
  import opened RegexpSoundness
  import opened RegexpAgreement
  import opened RegexpMarks
  import opened RegexpProgram
  import opened RegexpEmit

  /** More than any word holds. */
  const MARK: nat := WORD

  const JS_STRING_LEN_MAX: nat := 2147483646

  /** All captures undefined. */
  function Undefined(count: nat): seq<nat> { seq(2 * count, _ => UNSET) }

  /** The preferred match of s at the leftmost place that has one; capture 0 is the match. */
  function SourceLeftmost(s: Source, text: seq<byte>, c: nat): Option<Way>
    decreases |text| - c
  {
    var l := Means(Capture(s), 0, text, c, Undefined(Captures(s)));
    if l != [] then Some(l[0])
    else if c < |text| then SourceLeftmost(s, text, c + CharAt(text, c).1)
    else None
  }

  /** What RegExp.prototype.exec should find from c on, by section 15.10.6.2 of ECMA-262; a sticky pattern matches at c only. */
  function SourceAnswer(sticky: bool, s: Source, text: seq<byte>, c: nat): Option<Way> {
    if sticky then First(Means(Capture(s), 0, text, c, Undefined(Captures(s)))) else SourceLeftmost(s, text, c)
  }

  /** What the engine's program finds, had a reset left value. */
  function Found(sticky: bool, s: Source, text: seq<byte>, c: nat, k: seq<nat>, value: nat): Option<Way> {
    Answer(sticky, Plan(s, 1, Captures(s), 0, value), text, c, k)
  }

  /** The words captures start from: undefined, with anything in the registers. */
  predicate Blanked(k: seq<nat>, count: nat) {
    |k| >= 2 * count && (forall i :: 0 <= i < |k| ==> k[i] < WORD) && (forall i :: 0 <= i < 2 * count ==> k[i] == UNSET)
  }

  /** A pattern and a subject the engine's limits allow. */
  ghost predicate WithinLimits(s: Source, text: seq<byte>) {
    Valid(s) && WholeChars(text) && Bounded(s, |text|) && |text| <= JS_STRING_LEN_MAX
  }

  /** Also, there are captures for all back references. */
  ghost predicate Allowed(s: Source, text: seq<byte>) { WithinLimits(s, text) && RefersBelow(s, Captures(s)) }

  // ---------- where the match begins ----------

  lemma CaptureEnds(s: Source, text: seq<byte>, c: nat, j: nat)
    requires Valid(s) && WholeChars(text) && j < |Means(Capture(s), 0, text, c, Undefined(Captures(s)))|
    ensures var w := Means(Capture(s), 0, text, c, Undefined(Captures(s)))[j];
            c <= w.at && |w.caps| == 2 * Captures(s) && w.caps[0] == c && w.caps[1] == w.at
  {
    hide WholeChars, Means;
    var e, n := Undefined(Captures(s)), 2 * Captures(s);
    var l := Means(s, 1, text, c, Put(e, 0, c));
    CaptureMeans0(s, text, c, e);
    PutAllAt(l, 1, j);
    MeansSound(s, 1, text, c, Put(e, 0, c), 0);
    assert Sound(l[j], text, c, Put(e, 0, c), 0, Changes(s, 1, 0));
    if Changes(s, 1, 0) { ChangesOwn(s, 1, 0); }
  }

  lemma {:induction false} PutAllAt(l: seq<Way>, i: nat, j: nat)
    requires j < |PutAll(l, i)|
    ensures |PutAll(l, i)| == |l| && PutAll(l, i)[j] == Way(l[j].at, Put(l[j].caps, i, l[j].at))
  {
    if j > 0 { PutAllAt(l[1..], i, j - 1); } else if |l| > 1 { PutAllAt(l[1..], i, 0); }
  }

  /** Capture 0 of the match begins at a character boundary that has a match, and no earlier boundary has one. */
  lemma {:induction false} SourceLeftmostStarts(s: Source, text: seq<byte>, c: nat)
    requires Valid(s) && WholeChars(text)
    ensures var v, e := SourceLeftmost(s, text, c), Undefined(Captures(s));
            if v.None? then forall d :: Boundary(text, c, d) ==> Means(Capture(s), 0, text, d, e) == []
            else
              && |v.value.caps| == 2 * Captures(s) && v.value.caps[1] == v.value.at
              && var d := v.value.caps[0];
                 && Boundary(text, c, d) && Means(Capture(s), 0, text, d, e) != []
                 && v.value == Means(Capture(s), 0, text, d, e)[0]
                 && forall b :: Boundary(text, c, b) && Means(Capture(s), 0, text, b, e) != [] ==> d <= b
    decreases |text| - c
  {
    hide Means, WholeChars, CharAt, Undefined;
    if Means(Capture(s), 0, text, c, Undefined(Captures(s))) != [] {
      CaptureEnds(s, text, c, 0);
      forall b | Boundary(text, c, b) ensures c <= b { BoundaryAfter(text, c, b); }
    } else if c < |text| {
      SourceLeftmostStarts(s, text, c + CharAt(text, c).1);
    }
  }

  // ---------- the engine's match against the meaning ----------

  function For(s: Source, text: seq<byte>, k: seq<nat>, mark: nat): Setting {
    Setting(text, Captures(s), |k|, Resets(s), mark, Reads(s))
  }

  lemma HereAgrees(s: Source, text: seq<byte>, c: nat, k: seq<nat>, mark: nat)
    requires Allowed(s, text) && c <= |text| && Blanked(k, Captures(s)) && UNSET <= mark
    ensures SameWays(For(s, text, k, mark), Matches(Group(0, Plan(s, 1, Captures(s), 0, mark)), text, c, k),
                     Means(Capture(s), 0, text, c, Undefined(Captures(s))), {})
  {
    hide WholeChars, Plan, Matches, Means, Bounded, SameWays;
    var t, whole := For(s, text, k, mark), Capture(s);
    assert Bounded(whole, |text|) && Resets(whole) == Resets(s) && Reads(whole) == Reads(s) && RefersBelow(whole, t.count) by { WholeBounded(s, |text|); }
    PlanOf(whole, 0, t.count, 0, mark);
    PlanMeans(t, whole, 0, 0, c, k, Undefined(t.count), {});
    assert {} - Sets(whole, 0) == {};
  }

  lemma WholeBounded(s: Source, n: nat)
    ensures Bounded(Capture(s), n) == Bounded(s, n) && Resets(Capture(s)) == Resets(s) && Reads(Capture(s)) == Reads(s)
    ensures RefersBelow(Capture(s), Captures(s)) == RefersBelow(s, Captures(s))
  {}

  /** The match the engine finds and the one there should be. */
  predicate Agree(t: Setting, w: Option<Way>, v: Option<Way>) {
    w.Some? == v.Some? && (w.Some? ==> w.value.at == v.value.at && Shows(t, w.value.caps, v.value.caps, {}))
  }

  lemma {:induction false} LeftmostAgrees(s: Source, text: seq<byte>, c: nat, k: seq<nat>, mark: nat)
    requires Allowed(s, text) && c <= |text| && Blanked(k, Captures(s)) && UNSET <= mark
    ensures Agree(For(s, text, k, mark), Leftmost(Plan(s, 1, Captures(s), 0, mark), text, c, k), SourceLeftmost(s, text, c))
    decreases |text| - c
  {
    hide Plan, Matches, Means, Shows, CharAt, Bounded;
    HereAgrees(s, text, c, k, mark);
    var l := Matches(Group(0, Plan(s, 1, Captures(s), 0, mark)), text, c, k);
    if l == [] && c < |text| {
      assert c + CharAt(text, c).1 <= |text|;
      LeftmostAgrees(s, text, c + CharAt(text, c).1, k, mark);
    }
  }

  lemma FoundAgrees(sticky: bool, s: Source, text: seq<byte>, c: nat, k: seq<nat>, mark: nat)
    requires Allowed(s, text) && c <= |text| && Blanked(k, Captures(s)) && UNSET <= mark
    ensures Agree(For(s, text, k, mark), Found(sticky, s, text, c, k, mark), SourceAnswer(sticky, s, text, c))
  {
    hide Plan, Matches, Means, Shows, CharAt, Bounded, Leftmost, SourceLeftmost, Blanked, Allowed;
    HereAgrees(s, text, c, k, mark);
    LeftmostAgrees(s, text, c, k, mark);
  }

  // ---------- where resets are left ----------

  lemma LoopOfMarked(body: Pattern, min: nat, max: nat, greedy: bool, check: bool, slot: nat, mark: nat, count: nat)
    requires Markable(body, mark, count) && 2 * count <= slot && max <= JS_SHORTINT_MAX < mark
    ensures var p := LoopOf(body, min, max, greedy, check, slot);
            Markable(p, mark, count) && Marked(p, mark) == LoopOf(Marked(body, mark), min, max, greedy, check, slot)
  {
    assert Marked(Guarded(slot, body), mark) == Guarded(slot, Marked(body, mark)) && Markable(Guarded(slot, body), mark, count);
  }

  lemma LoopMarked(b: Pattern, low: nat, g: nat, min: nat, max: nat, greedy: bool, check: bool, init: bool, slot: nat, mark: nat, count: nat)
    requires Markable(b, mark, count) && 2 * count <= slot && max <= JS_SHORTINT_MAX < mark
    ensures var p := Quantify(b, low, g, min, max, greedy, check, init, slot, 0);
            Markable(p, mark, count) && Marked(p, mark) == Quantify(Marked(b, mark), low, g, min, max, greedy, check, init, slot, mark)
  {
    hide LoopOf;
    var body := LoopBodyOf(b, low, g, init, 0);
    if g > 0 {
      var reset := ForgetAll(low, g, 0);
      assert Markable(reset, mark, count) && Marked(reset, mark) == ForgetAll(low, g, mark);
      assert Marked(Concat(reset, b), mark) == Concat(Marked(reset, mark), Marked(b, mark));
    }
    assert Markable(body, mark, count) && Marked(body, mark) == LoopBodyOf(Marked(b, mark), low, g, init, mark);
    LoopOfMarked(body, min, max, greedy, check, slot, mark, count);
  }

  lemma NoLoopMarked(b: Pattern, b': Pattern, low: nat, g: nat, greedy: bool, check: bool, init: bool, slot: nat, mark: nat, count: nat)
    requires JS_SHORTINT_MAX < mark
    ensures var p := Quantify(b, low, g, 0, 0, greedy, check, init, slot, 0);
            Markable(p, mark, count) && Marked(p, mark) == Quantify(b', low, g, 0, 0, greedy, check, init, slot, mark)
  {
    assert g > 0 ==> Marked(Concat(ForgetAll(low, g, 0), Empty), mark) == Concat(ForgetAll(low, g, mark), Empty);
  }

  /** The plan whose resets write a mark is the marked plan. */
  lemma {:induction false} PlanMarked(s: Source, low: nat, count: nat, depth: nat, mark: nat)
    requires Valid(s) && JS_SHORTINT_MAX < mark && low + Groups(s) <= count && RefersBelow(s, count)
    ensures var p := Plan(s, low, count, depth, 0); Markable(p, mark, count) && Marked(p, mark) == Plan(s, low, count, depth, mark)
    decreases s
  {
    hide Plan, Quantify, OwnRegisters, Encodable;
    PlanOf(s, low, count, depth, 0);
    PlanOf(s, low, count, depth, mark);
    match s
    case Leaf(_) =>
    case Sequence(a, b) => PlanMarked(a, low, count, depth, mark); PlanMarked(b, low + Groups(a), count, depth, mark);
    case Alternative(a, b) => PlanMarked(a, low, count, depth, mark); PlanMarked(b, low + Groups(a), count, depth, mark);
    case Capture(b) =>
      PlanMarked(b, low + 1, count, depth, mark);
      if WritesTo(Plan(b, low + 1, count, depth, 0), 2 * low) { PlanWrites(b, low + 1, count, depth, 2 * low); }
    case Ahead(_, b) => PlanMarked(b, low, count, depth, mark);
    case Quantified(b, min, max, greedy) =>
      var check, init := !SurelyConsumes(b), Branches(b);
      var d := depth + OwnRegisters(min, max, check);
      if max == 0 {
        NoLoopMarked(Plan(b, low, count, d, 0), Plan(b, low, count, d, mark), low, Groups(b), greedy, check, init, 2 * count + depth, mark, count);
      } else {
        PlanMarked(b, low, count, d, mark);
        LoopMarked(Plan(b, low, count, d, 0), low, Groups(b), min, max, greedy, check, init, 2 * count + depth, mark, count);
      }
  }

  /** What the engine finds is what it would find with marks, these showing as 0. */
  predicate Unmarks(w: Option<Way>, z: Option<Way>, mark: nat) {
    w.Some? == z.Some? && (w.Some? ==> w.value == Way(z.value.at, Unmark(z.value.caps, mark)))
  }

  lemma HereMarked(s: Source, text: seq<byte>, c: nat, k: seq<nat>, mark: nat)
    requires Allowed(s, text) && c <= |text| && Blanked(k, Captures(s)) && MARK <= mark
    ensures var p, q := Plan(s, 1, Captures(s), 0, 0), Plan(s, 1, Captures(s), 0, mark);
            Matches(Group(0, p), text, c, k) == UnmarkAll(Matches(Group(0, q), text, c, k), mark)
  {
    hide Plan, Matches, WholeChars, Bounded, Markable;
    var p := Plan(s, 1, Captures(s), 0, 0);
    PlanMarked(s, 1, Captures(s), 0, mark);
    assert Unmark(k, mark) == k;
    assert Marked(Group(0, p), mark) == Group(0, Marked(p, mark));
    assert Markable(Group(0, p), mark, Captures(s)) by {
      if WritesTo(p, 0) { PlanWrites(s, 1, Captures(s), 0, 0); }
      GroupMarkable(p, mark, Captures(s));
    }
    MarkedMatches(Group(0, p), text, c, k, mark, Captures(s));
  }

  lemma GroupMarkable(p: Pattern, mark: nat, n: nat)
    requires Markable(p, mark, n) && 0 < n && !WritesTo(p, 0)
    ensures Markable(Group(0, p), mark, n)
  {}

  lemma {:induction false} LeftmostMarked(s: Source, text: seq<byte>, c: nat, k: seq<nat>, mark: nat)
    requires Allowed(s, text) && c <= |text| && Blanked(k, Captures(s)) && MARK <= mark
    ensures Unmarks(Leftmost(Plan(s, 1, Captures(s), 0, 0), text, c, k), Leftmost(Plan(s, 1, Captures(s), 0, mark), text, c, k), mark)
    decreases |text| - c
  {
    hide Plan, Matches, CharAt, Unmark, Bounded;
    HereMarked(s, text, c, k, mark);
    if Matches(Group(0, Plan(s, 1, Captures(s), 0, 0)), text, c, k) == [] && c < |text| {
      assert c + CharAt(text, c).1 <= |text|;
      LeftmostMarked(s, text, c + CharAt(text, c).1, k, mark);
    }
  }

  lemma FoundMarked(sticky: bool, s: Source, text: seq<byte>, c: nat, k: seq<nat>, mark: nat)
    requires Allowed(s, text) && c <= |text| && Blanked(k, Captures(s)) && MARK <= mark
    ensures Unmarks(Found(sticky, s, text, c, k, 0), Found(sticky, s, text, c, k, mark), mark)
  {
    hide Plan, Matches, CharAt, Unmark, Leftmost, Allowed, Blanked;
    HereMarked(s, text, c, k, mark);
    LeftmostMarked(s, text, c, k, mark);
  }

  /** The last thing to happen to word i of the captures of the match found is a reset. */
  predicate LeftReset(sticky: bool, s: Source, text: seq<byte>, c: nat, k: seq<nat>, i: nat) {
    var z := Found(sticky, s, text, c, k, MARK);
    z.Some? && i < |z.value.caps| && z.value.caps[i] == MARK
  }

  predicate Seen(sticky: bool, s: Source, text: seq<byte>, c: nat, k: seq<nat>, mark: nat) {
    && Unmarks(Found(sticky, s, text, c, k, 0), Found(sticky, s, text, c, k, mark), mark)
    && Agree(For(s, text, k, mark), Found(sticky, s, text, c, k, mark), SourceAnswer(sticky, s, text, c))
  }

  /** Whatever marks the resets, the captures show those there should be. */
  lemma TwoMarks(sticky: bool, s: Source, text: seq<byte>, c: nat, k: seq<nat>)
    requires Allowed(s, text) && c <= |text| && Blanked(k, Captures(s))
    ensures Seen(sticky, s, text, c, k, MARK) && Seen(sticky, s, text, c, k, MARK + 1)
  {
    hide Plan, Matches, Leftmost, SourceAnswer, Found, Allowed, Blanked, Unmarks, Agree;
    FoundAgrees(sticky, s, text, c, k, MARK);
    FoundAgrees(sticky, s, text, c, k, MARK + 1);
    FoundMarked(sticky, s, text, c, k, MARK);
    FoundMarked(sticky, s, text, c, k, MARK + 1);
  }

  /**
   The engine finds a match exactly where there is one, in the right place and with the right captures, except
   that a capture that was reset and not set since reads 0 where it should be undefined.
   */
  lemma CapturesExact(sticky: bool, s: Source, text: seq<byte>, c: nat, k: seq<nat>)
    requires Allowed(s, text) && c <= |text| && Blanked(k, Captures(s))
    ensures var w, v := Found(sticky, s, text, c, k, 0), SourceAnswer(sticky, s, text, c);
            && w.Some? == v.Some?
            && (w.Some? ==>
                  && w.value.at == v.value.at && |v.value.caps| == 2 * Captures(s) <= |w.value.caps|
                  && forall i :: 0 <= i < 2 * Captures(s) ==>
                       if LeftReset(sticky, s, text, c, k, i) then w.value.caps[i] == 0 && v.value.caps[i] == UNSET
                       else w.value.caps[i] == v.value.caps[i])
  {
    hide Plan, Matches, Leftmost, SourceAnswer, Found, Allowed, Blanked, Resets, Unmark, Shows;
    TwoMarks(sticky, s, text, c, k);
    var w, v := Found(sticky, s, text, c, k, 0), SourceAnswer(sticky, s, text, c);
    if w.Some? {
      var y, z := Found(sticky, s, text, c, k, MARK).value, Found(sticky, s, text, c, k, MARK + 1).value;
      ShownSize(For(s, text, k, MARK), y.caps, v.value.caps);
      forall i | 0 <= i < 2 * Captures(s)
        ensures if y.caps[i] == MARK then w.value.caps[i] == 0 && v.value.caps[i] == UNSET else w.value.caps[i] == v.value.caps[i]
      {
        WordShown(s, text, k, y.caps, z.caps, w.value.caps, v.value.caps, i);
      }
    }
  }

  lemma ShownSize(t: Setting, k: seq<nat>, e: seq<nat>)
    requires Shows(t, k, e, {})
    ensures |e| == 2 * t.count <= |k|
  {}

  /** One word of the captures, with the two marks and with none. */
  lemma WordShown(s: Source, text: seq<byte>, k: seq<nat>, y: seq<nat>, z: seq<nat>, w: seq<nat>, v: seq<nat>, i: nat)
    requires Shows(For(s, text, k, MARK), y, v, {}) && Shows(For(s, text, k, MARK + 1), z, v, {})
    requires w == Unmark(y, MARK) == Unmark(z, MARK + 1) && i < 2 * Captures(s)
    ensures i < |y| == |w| && i < |v|
    ensures if y[i] == MARK then w[i] == 0 && v[i] == UNSET else w[i] == v[i]
  {}

  /** The engine's captures are those there should be if and only if no capture of the match found is left reset. */
  lemma CapturesRight(sticky: bool, s: Source, text: seq<byte>, c: nat, k: seq<nat>)
    requires Allowed(s, text) && c <= |text| && Blanked(k, Captures(s)) && Found(sticky, s, text, c, k, 0).Some?
    ensures var w, v := Found(sticky, s, text, c, k, 0), SourceAnswer(sticky, s, text, c);
            && v.Some? && 2 * Captures(s) <= |w.value.caps|
            && (w.value.caps[..2 * Captures(s)] == v.value.caps
                <==> forall i :: 0 <= i < 2 * Captures(s) ==> !LeftReset(sticky, s, text, c, k, i))
  {
    hide Plan, Matches, Leftmost, SourceAnswer, Found, Allowed, Blanked, LeftReset;
    CapturesExact(sticky, s, text, c, k);
    var w, v := Found(sticky, s, text, c, k, 0).value.caps, SourceAnswer(sticky, s, text, c).value.caps;
    if w[..2 * Captures(s)] == v {
      forall i | 0 <= i < 2 * Captures(s) ensures !LeftReset(sticky, s, text, c, k, i) {
        assert w[..2 * Captures(s)][i] == v[i];
      }
    }
  }

  lemma SameUnmarked(z: seq<nat>, y: seq<nat>, i: nat)
    requires Unmark(z, MARK) == Unmark(y, MARK + 1) && i < |z| && z[i] == y[i]
    ensures z[i] != MARK
  {
    assert Unmark(z, MARK)[i] == Unmark(y, MARK + 1)[i];
  }

  /** So they are, whatever the subject, when the code resets nothing. */
  lemma NothingReset(sticky: bool, s: Source, text: seq<byte>, c: nat, k: seq<nat>, i: nat)
    requires Allowed(s, text) && c <= |text| && Blanked(k, Captures(s)) && !Resets(s) && i < 2 * Captures(s)
    ensures !LeftReset(sticky, s, text, c, k, i)
  {
    hide Plan, Matches, Leftmost, SourceAnswer, Found, Allowed, Blanked, Resets;
    TwoMarks(sticky, s, text, c, k);
    var z, y := Found(sticky, s, text, c, k, MARK), Found(sticky, s, text, c, k, MARK + 1);
    if z.Some? { SameUnmarked(z.value.caps, y.value.caps, i); }
  }

  // ---------- /(z)?b/ on "b" ----------

  function OptionalZ(): Source { Quantified(Capture(Leaf(Chars([122]))), 0, 1, true) }

  function OptionalZThenB(): Source { Sequence(OptionalZ(), Leaf(Chars([98]))) }

  lemma ZPlan()
    ensures Plan(OptionalZThenB(), 1, 2, 0, 0)
            == Concat(Concat(Forget(1, 1, 0), Optional(Group(1, Chars([122])), true)), Chars([98]))
  {
    var z := Capture(Leaf(Chars([122])));
    assert Plan(z, 1, 2, 0, 0) == Group(1, Chars([122]));
    assert SurelyConsumes(z) && !Branches(z) && Groups(z) == 1;
  }

  /** No z: the engine's optional group is left reset. */
  lemma ZEngine(k: seq<nat>)
    requires k == [0, UNSET, UNSET, UNSET]
    ensures Matches(Concat(Concat(Forget(1, 1, 0), Optional(Group(1, Chars([122])), true)), Chars([98])), [98], 0, k)
            == [Way(1, [0, UNSET, 0, 0])]
  {
    var text, q, b := [98], Optional(Group(1, Chars([122])), true), Chars([98]);
    var k' := [0, UNSET, 0, 0];
    assert Blank(k, 1, 1, 0) == k';
    assert Matches(Forget(1, 1, 0), text, 0, k) == [Way(0, k')];
    assert Matches(Chars([122]), text, 0, Put(k', 2, 0)) == [] by { assert text[0..1] == [98]; assert [98][0] != [122][0]; }
    assert Matches(q, text, 0, k') == [] + [Way(0, k')] == [Way(0, k')];
    ThenOne(q, text, Way(0, k'));
    assert Matches(Concat(Forget(1, 1, 0), q), text, 0, k) == [Way(0, k')];
    assert Matches(b, text, 0, k') == [Way(1, k')] by { assert text[0..1] == [98]; }
    ThenOne(b, text, Way(0, k'));
  }

  lemma ThenOne(p: Pattern, text: seq<byte>, w: Way)
    ensures Then(p, text, [w]) == Matches(p, text, w.at, w.caps)
  {
    hide Matches;
    assert [w][1..] == [];
    assert Then(p, text, [w]) == Matches(p, text, w.at, w.caps) + [];
  }

  lemma SequelOne(s: Source, low: nat, text: seq<byte>, w: Way)
    ensures Sequel(s, low, text, [w]) == Means(s, low, text, w.at, w.caps)
  {
    hide Means;
    assert [w][1..] == [];
    assert Sequel(s, low, text, [w]) == Means(s, low, text, w.at, w.caps) + [];
  }

  lemma ZMeans(e: seq<nat>)
    requires e == [0, UNSET, UNSET, UNSET]
    ensures Means(OptionalZThenB(), 1, [98], 0, e) == [Way(1, e)]
  {
    var text, z := [98], OptionalZ();
    var e' := Reset(e, 1, 1);
    assert Means(Leaf(Chars([122])), 2, text, 0, Put(e', 2, 0)) == [] by {
      assert text[0..1] == [98];
      assert [98][0] != [122][0];
    }
    assert Means(z.body, 1, text, 0, e') == [];
    assert NextTurns(z, 1, 0, 1, text, 0, []) == [];
    assert Turns(z, 1, 0, 1, text, 0, e) == [] + [Way(0, e)] == [Way(0, e)];
    assert Means(z, 1, text, 0, e) == [Way(0, e)];
    SequelOne(Leaf(Chars([98])), 2, text, Way(0, e));
    assert Matches(Chars([98]), text, 0, e) == [Way(1, e)] by { assert text[0..1] == [98]; }
  }

  lemma ZAllowed()
    ensures Allowed(OptionalZThenB(), [98]) && Captures(OptionalZThenB()) == 2
  {
    hide Plan;
    assert WholeChars([98]) by { assert CharAt([98], 0).1 == 1; }
  }

  lemma GroupMatches(p: Pattern, text: seq<byte>, c: nat, k: seq<nat>)
    ensures Matches(Group(0, p), text, c, k) == PutAll(Matches(p, text, c, Put(k, 0, c)), 1)
  {}

  lemma CaptureMeans0(s: Source, text: seq<byte>, c: nat, e: seq<nat>)
    ensures Means(Capture(s), 0, text, c, e) == PutAll(Means(s, 1, text, c, Put(e, 0, c)), 1)
  {}

  /** `/(z)?b/.exec("b")` should leave capture 1 undefined; the engine makes it the empty string at 0. */
  lemma ResetShows()
    ensures var s, k := OptionalZThenB(), [UNSET, UNSET, UNSET, UNSET];
            && Allowed(s, [98]) && Captures(s) == 2 && Blanked(k, 2)
            && Found(false, s, [98], 0, k, 0) == Some(Way(1, [0, 1, 0, 0]))
            && SourceAnswer(false, s, [98], 0) == Some(Way(1, [0, 1, UNSET, UNSET]))
  {
    hide Plan, Matches, Means, Allowed, OptionalZThenB, PutAll;
    var s, k, text := OptionalZThenB(), [UNSET, UNSET, UNSET, UNSET], [98];
    assert Undefined(2) == k;
    ZAllowed();
    ZPlan();
    assert Put(k, 0, 0) == [0, UNSET, UNSET, UNSET];
    ZEngine(Put(k, 0, 0));
    PutAllOne(Way(1, [0, UNSET, 0, 0]), 1);
    assert Put([0, UNSET, 0, 0], 1, 1) == [0, 1, 0, 0];
    GroupMatches(Plan(s, 1, 2, 0, 0), text, 0, k);
    ZMeans(Put(k, 0, 0));
    PutAllOne(Way(1, [0, UNSET, UNSET, UNSET]), 1);
    assert Put([0, UNSET, UNSET, UNSET], 1, 1) == [0, 1, UNSET, UNSET];
    CaptureMeans0(s, text, 0, k);
  }

  lemma PutAllOne(w: Way, i: nat)
    ensures PutAll([w], i) == [Way(w.at, Put(w.caps, i, w.at))]
  {
    assert [w][1..] == [];
  }
}
