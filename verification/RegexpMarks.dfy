/** Resets made visible: run with resets that write a mark, a pattern finds the same matches, and the marks are where it would leave 0. */
module RegexpMarks {
  import opened Bytes
  import opened RegexpCode
  import opened RegexpPattern

  /** The pattern with resets that write mark. */
  function Marked(p: Pattern, mark: nat): Pattern {
    match p
    case Concat(a, b) => Concat(Marked(a, mark), Marked(b, mark))
    case Either(a, b) => Either(Marked(a, mark), Marked(b, mark))
    case Group(i, b) => Group(i, Marked(b, mark))
    case Forget(low, high, _) => Forget(low, high, mark)
    case Look(negative, b) => Look(negative, Marked(b, mark))
    case Optional(b, greedy) => Optional(Marked(b, mark), greedy)
    case Repeat(b, greedy) => Repeat(Marked(b, mark), greedy)
    case Plus(b, greedy) => Plus(Marked(b, mark), greedy)
    case Counted(b, min, max, greedy, check, slot, reg) => Counted(Marked(b, mark), min, max, greedy, check, slot, reg)
    case Guarded(slot, b) => Guarded(slot, Marked(b, mark))
    case _ => p
  }

  /** Resets write 0, no counter reaches the mark, registers lie behind the n captures, and a group sets its own start only. */
  predicate Markable(p: Pattern, mark: nat, n: nat) {
    match p
    case Concat(a, b) => Markable(a, mark, n) && Markable(b, mark, n)
    case Either(a, b) => Markable(a, mark, n) && Markable(b, mark, n)
    case BackRef(i, _) => i < n
    case Group(i, b) => i < n && Markable(b, mark, n) && !WritesTo(b, 2 * i)
    case Forget(_, _, value) => value == 0
    case Look(_, b) => Markable(b, mark, n)
    case Optional(b, _) => Markable(b, mark, n)
    case Repeat(b, _) => Markable(b, mark, n)
    case Plus(b, _) => Markable(b, mark, n)
    case Counted(b, _, max, _, check, slot, reg) => max < mark && Markable(b, mark, n) && 2 * n <= slot && (check ==> 2 * n <= reg)
    case Guarded(slot, b) => Markable(b, mark, n) && 2 * n <= slot
    case _ => true
  }

  /** The words as the engine would have them: 0 for a mark. */
  function Unmark(caps: seq<nat>, mark: nat): (r: seq<nat>)
    ensures |r| == |caps|
  {
    seq(|caps|, i requires 0 <= i < |caps| => if caps[i] == mark then 0 else caps[i])
  }

  function UnmarkAll(l: seq<Way>, mark: nat): (r: seq<Way>)
    ensures |r| == |l|
    ensures forall j :: 0 <= j < |l| ==> r[j] == Way(l[j].at, Unmark(l[j].caps, mark))
  {
    if l == [] then [] else [Way(l[0].at, Unmark(l[0].caps, mark))] + UnmarkAll(l[1..], mark)
  }

  // ---------- unmarking goes with everything a pattern does ----------

  lemma UnmarkPut(caps: seq<nat>, i: nat, v: nat, mark: nat)
    requires v != mark
    ensures Unmark(Put(caps, i, v), mark) == Put(Unmark(caps, mark), i, v)
  {
    assert Unmark(Put(caps, i, v), mark) == Put(Unmark(caps, mark), i, v);
  }

  lemma UnmarkBlank(caps: seq<nat>, low: nat, high: nat, mark: nat)
    ensures Unmark(Blank(caps, low, high, mark), mark) == Blank(Unmark(caps, mark), low, high, 0)
  {
    assert Unmark(Blank(caps, low, high, mark), mark) == Blank(Unmark(caps, mark), low, high, 0);
  }

  lemma UnmarkJoin(l: seq<Way>, m: seq<Way>, mark: nat)
    ensures UnmarkAll(l + m, mark) == UnmarkAll(l, mark) + UnmarkAll(m, mark)
  {
    hide Unmark;
    assert UnmarkAll(l + m, mark) == UnmarkAll(l, mark) + UnmarkAll(m, mark);
  }

  /** Positions at most the subject's length. */
  predicate Inside(l: seq<Way>, text: seq<byte>) { forall w :: w in l ==> w.at <= |text| }

  lemma {:induction false} UnmarkPutAll(l: seq<Way>, i: nat, text: seq<byte>, mark: nat)
    requires Inside(l, text) && |text| < mark
    ensures UnmarkAll(PutAll(l, i), mark) == PutAll(UnmarkAll(l, mark), i)
  {
    hide Unmark;
    if l != [] {
      assert l[0] in l;
      UnmarkPut(l[0].caps, i, l[0].at, mark);
      UnmarkPutAll(l[1..], i, text, mark);
      UnmarkJoin([Way(l[0].at, Put(l[0].caps, i, l[0].at))], PutAll(l[1..], i), mark);
    }
  }

  lemma {:induction false} UnmarkMoved(l: seq<Way>, c: nat, mark: nat)
    ensures UnmarkAll(Moved(l, c), mark) == Moved(UnmarkAll(l, mark), c)
  {
    hide Unmark;
    if l != [] {
      UnmarkMoved(l[1..], c, mark);
      if l[0].at != c { UnmarkJoin([l[0]], Moved(l[1..], c), mark); }
    }
  }

  lemma UnmarkSelf(l: seq<Way>, c: nat, caps: seq<nat>, mark: nat)
    ensures UnmarkAll(l + [Way(c, caps)], mark) == UnmarkAll(l, mark) + [Way(c, Unmark(caps, mark))]
    ensures UnmarkAll([Way(c, caps)] + l, mark) == [Way(c, Unmark(caps, mark))] + UnmarkAll(l, mark)
  {
    hide Unmark;
    UnmarkJoin(l, [Way(c, caps)], mark);
    UnmarkJoin([Way(c, caps)], l, mark);
  }

  lemma MatchesInside(p: Pattern, text: seq<byte>, c: nat, caps: seq<nat>)
    requires WholeChars(text) && c <= |text|
    ensures Inside(Matches(p, text, c, caps), text)
  {
    hide Matches, WholeChars;
    var l := Matches(p, text, c, caps);
    MatchesSound(p, text, c, caps, 0);
    forall w | w in l ensures w.at <= |text| {
      var j :| 0 <= j < |l| && l[j] == w;
      assert Sound(l[j], text, c, caps, 0, WritesTo(p, 0));
    }
  }

  // ---------- marks come in pairs ----------

  /** A capture whose start is marked has no end. */
  predicate Paired(caps: seq<nat>, mark: nat, n: nat) {
    2 * n <= |caps| && forall i :: 0 <= i < n && caps[2 * i] == mark ==> caps[2 * i + 1] >= UNSET
  }

  predicate AllPaired(l: seq<Way>, mark: nat, n: nat) { forall w :: w in l ==> Paired(w.caps, mark, n) }

  ghost predicate Marking(p: Pattern, text: seq<byte>, mark: nat, n: nat) {
    Markable(p, mark, n) && WholeChars(text) && |text| < mark && UNSET < mark
  }

  lemma PairedSize(caps: seq<nat>, mark: nat, n: nat)
    requires Paired(caps, mark, n)
    ensures 2 * n <= |caps|
  {}

  lemma PairedPut(caps: seq<nat>, i: nat, v: nat, mark: nat, n: nat)
    requires Paired(caps, mark, n) && v != mark && i % 2 == 0
    ensures Paired(Put(caps, i, v), mark, n)
  {}

  lemma PairedRegister(caps: seq<nat>, i: nat, v: nat, mark: nat, n: nat)
    requires Paired(caps, mark, n) && 2 * n <= i
    ensures Paired(Put(caps, i, v), mark, n)
  {}

  lemma PairedBlank(caps: seq<nat>, low: nat, high: nat, mark: nat, n: nat)
    requires Paired(caps, mark, n) && UNSET < mark
    ensures Paired(Blank(caps, low, high, mark), mark, n)
  {}

  lemma {:induction false} PairedPutAll(l: seq<Way>, i: nat, mark: nat, n: nat)
    requires AllPaired(l, mark, n) && forall w :: w in l ==> 2 * i < |w.caps| && w.caps[2 * i] != mark
    ensures AllPaired(PutAll(l, 2 * i + 1), mark, n)
  {
    if l != [] {
      assert l[0] in l;
      PairedPutAll(l[1..], i, mark, n);
    }
  }

  lemma {:induction false} PairedMoved(l: seq<Way>, c: nat, mark: nat, n: nat)
    requires AllPaired(l, mark, n)
    ensures AllPaired(Moved(l, c), mark, n)
  {
    if l != [] { PairedMoved(l[1..], c, mark, n); }
  }

  lemma {:induction false} PairedMatches(p: Pattern, text: seq<byte>, c: nat, caps: seq<nat>, mark: nat, n: nat)
    requires Marking(p, text, mark, n) && c <= |text| && Paired(caps, mark, n)
    ensures AllPaired(Matches(Marked(p, mark), text, c, caps), mark, n)
    decreases p, Measure(p, text, c), 2, 0
  {
    hide CharAt, SymbolEnd, SameText, InClass, WholeChars, Paired, Blank;
    var q := Marked(p, mark);
    match p
    case Concat(a, b) =>
      PairedMatches(a, text, c, caps, mark, n);
      MatchesInside(q.first, text, c, caps);
      PairedThen(b, text, Matches(q.first, text, c, caps), mark, n);
    case Either(a, b) =>
      PairedMatches(a, text, c, caps, mark, n);
      PairedMatches(b, text, c, caps, mark, n);
    case Group(_, _) => PairedGroup(p, text, c, caps, mark, n);
    case Forget(low, high, _) => PairedBlank(caps, low, high, mark, n);
    case Look(_, b) => PairedMatches(b, text, c, caps, mark, n);
    case Optional(b, greedy) => PairedMatches(b, text, c, caps, mark, n);
    case Repeat(b, _) =>
      PairedMatches(b, text, c, caps, mark, n);
      PairedAgain(p, text, c, Matches(q.body, text, c, caps), mark, n);
    case Plus(b, greedy) =>
      PairedMatches(b, text, c, caps, mark, n);
      PairedMore(p, text, c, Matches(q.body, text, c, caps), mark, n);
    case Counted(_, _, max, _, _, slot, _) =>
      PairedRegister(caps, slot, max, mark, n);
      if max > 0 { PairedRound(p, max, text, c, Put(caps, slot, max), mark, n); }
    case Guarded(slot, b) =>
      PairedRegister(caps, slot, c, mark, n);
      PairedMatches(b, text, c, Put(caps, slot, c), mark, n);
      PairedMoved(Matches(q.body, text, c, Put(caps, slot, c)), c, mark, n);
    case _ =>
  }

  lemma PairedGroup(p: Pattern, text: seq<byte>, c: nat, caps: seq<nat>, mark: nat, n: nat)
    requires p.Group? && Marking(p, text, mark, n) && c <= |text| && Paired(caps, mark, n)
    ensures AllPaired(Matches(Marked(p, mark), text, c, caps), mark, n)
    decreases p, Left(text, c), 1, |text| + 1
  {
    hide WholeChars, Paired;
    var i, caps' := p.index, Put(caps, 2 * p.index, c);
    var l := Matches(Marked(p.body, mark), text, c, caps');
    PairedPut(caps, 2 * i, c, mark, n);
    PairedMatches(p.body, text, c, caps', mark, n);
    assert 2 * n <= |caps| by { PairedSize(caps, mark, n); }
    MatchesSound(Marked(p.body, mark), text, c, caps', 2 * i);
    MarkedWrites(p.body, mark, 2 * i);
    forall w | w in l ensures 2 * i < |w.caps| && w.caps[2 * i] != mark {
      var j :| 0 <= j < |l| && l[j] == w;
      assert Sound(l[j], text, c, caps', 2 * i, WritesTo(Marked(p.body, mark), 2 * i));
    }
    PairedPutAll(l, i, mark, n);
  }

  lemma {:induction false} MarkedWrites(p: Pattern, mark: nat, i: nat)
    ensures WritesTo(Marked(p, mark), i) == WritesTo(p, i)
  {
    match p
    case Concat(a, b) => MarkedWrites(a, mark, i); MarkedWrites(b, mark, i);
    case Either(a, b) => MarkedWrites(a, mark, i); MarkedWrites(b, mark, i);
    case Group(_, b) => MarkedWrites(b, mark, i);
    case Look(_, b) => MarkedWrites(b, mark, i);
    case Optional(b, _) => MarkedWrites(b, mark, i);
    case Repeat(b, _) => MarkedWrites(b, mark, i);
    case Plus(b, _) => MarkedWrites(b, mark, i);
    case Counted(b, _, _, _, _, _, _) => MarkedWrites(b, mark, i);
    case Guarded(_, b) => MarkedWrites(b, mark, i);
    case _ =>
  }

  lemma {:induction false} PairedThen(p: Pattern, text: seq<byte>, l: seq<Way>, mark: nat, n: nat)
    requires Marking(p, text, mark, n) && Inside(l, text) && AllPaired(l, mark, n)
    ensures AllPaired(Then(Marked(p, mark), text, l), mark, n)
    decreases p, ThenMeasure(p, text), 0, |l|
  {
    hide Matches, Paired, Marking, Marked;
    if l != [] {
      assert l[0] in l;
      PairedMatches(p, text, l[0].at, l[0].caps, mark, n);
      PairedThen(p, text, l[1..], mark, n);
    }
  }

  lemma {:induction false} PairedAgain(p: Pattern, text: seq<byte>, c: nat, l: seq<Way>, mark: nat, n: nat)
    requires p.Repeat? && Marking(p, text, mark, n) && AllPaired(l, mark, n)
    ensures AllPaired(Again(Marked(p, mark), text, c, l), mark, n)
    decreases p, Left(text, c), 1, |l|
  {
    hide Matches, Paired, Marking;
    if l != [] {
      assert l[0] in l;
      if c < l[0].at <= |text| { PairedMatches(p, text, l[0].at, l[0].caps, mark, n); }
      PairedAgain(p, text, c, l[1..], mark, n);
    }
  }

  lemma {:induction false} PairedMore(p: Pattern, text: seq<byte>, c: nat, l: seq<Way>, mark: nat, n: nat)
    requires p.Plus? && Marking(p, text, mark, n) && AllPaired(l, mark, n)
    ensures AllPaired(More(Marked(p, mark), text, c, l), mark, n)
    decreases p, Left(text, c), 1, |l|
  {
    hide Matches, Paired, Marking;
    if l != [] {
      assert l[0] in l;
      if c < l[0].at <= |text| { PairedMatches(p, text, l[0].at, l[0].caps, mark, n); }
      PairedMore(p, text, c, l[1..], mark, n);
    }
  }

  lemma PairedRound(p: Pattern, k: nat, text: seq<byte>, c: nat, caps: seq<nat>, mark: nat, n: nat)
    requires p.Counted? && 0 < k <= p.max && Marking(p, text, mark, n) && c <= |text| && Paired(caps, mark, n)
    ensures var q := Marked(p, mark); AllPaired(Rounds(q, k, text, c, Matches(q.body, text, c, RoundCaps(q, c, caps))), mark, n)
    decreases p, k, 1, 0
  {
    hide WholeChars, Paired, Rounds, Matches;
    var q := Marked(p, mark);
    if p.check { PairedRegister(caps, p.mark, c, mark, n); }
    PairedMatches(p.body, text, c, RoundCaps(p, c, caps), mark, n);
    MatchesInside(q.body, text, c, RoundCaps(q, c, caps));
    PairedRounds(p, k, text, c, Matches(q.body, text, c, RoundCaps(q, c, caps)), mark, n);
  }

  lemma {:induction false} PairedRounds(p: Pattern, k: nat, text: seq<byte>, c: nat, l: seq<Way>, mark: nat, n: nat)
    requires p.Counted? && 0 < k <= p.max && Marking(p, text, mark, n) && Inside(l, text) && AllPaired(l, mark, n)
    ensures AllPaired(Rounds(Marked(p, mark), k, text, c, l), mark, n)
    decreases p, k, 0, |l|
  {
    hide Times, Paired, WholeChars;
    if l != [] {
      var w := l[0];
      assert w in l;
      PairedRegister(w.caps, p.slot, k - 1, mark, n);
      PairedTimes(p, k - 1, text, w.at, Put(w.caps, p.slot, k - 1), mark, n);
      PairedRounds(p, k, text, c, l[1..], mark, n);
    }
  }

  lemma PairedTimes(p: Pattern, k: nat, text: seq<byte>, c: nat, caps: seq<nat>, mark: nat, n: nat)
    requires p.Counted? && k <= p.max && Marking(p, text, mark, n) && c <= |text| && Paired(caps, mark, n)
    ensures AllPaired(Times(Marked(p, mark), k, text, c, caps), mark, n)
    decreases p, k, 2, 0
  {
    hide WholeChars, Paired, Rounds, Matches;
    if k > 0 { PairedRound(p, k, text, c, caps, mark, n); }
  }

  // ---------- the theorem ----------

  lemma {:induction false} MarkedMatches(p: Pattern, text: seq<byte>, c: nat, caps: seq<nat>, mark: nat, n: nat)
    requires Marking(p, text, mark, n) && c <= |text| && Paired(caps, mark, n)
    ensures Matches(p, text, c, Unmark(caps, mark)) == UnmarkAll(Matches(Marked(p, mark), text, c, caps), mark)
    decreases p, Measure(p, text, c), 2, 0
  {
    hide CharAt, SymbolEnd, Repeated, InClass, WholeChars, Unmark, Blank, Paired;
    match p
    case Concat(a, b) =>
      MarkedMatches(a, text, c, caps, mark, n);
      MatchesInside(Marked(a, mark), text, c, caps);
      PairedMatches(a, text, c, caps, mark, n);
      MarkedThen(b, text, Matches(Marked(a, mark), text, c, caps), mark, n);
    case Either(a, b) =>
      MarkedMatches(a, text, c, caps, mark, n);
      MarkedMatches(b, text, c, caps, mark, n);
      UnmarkJoin(Matches(Marked(a, mark), text, c, caps), Matches(Marked(b, mark), text, c, caps), mark);
    case Group(_, _) => MarkedGroup(p, text, c, caps, mark, n);
    case Forget(low, high, _) => UnmarkBlank(caps, low, high, mark);
    case Look(_, b) => MarkedMatches(b, text, c, caps, mark, n);
    case Optional(b, greedy) =>
      MarkedMatches(b, text, c, caps, mark, n);
      UnmarkSelf(Matches(Marked(b, mark), text, c, caps), c, caps, mark);
    case Repeat(_, _) => MarkedRepeat(p, text, c, caps, mark, n);
    case Plus(b, greedy) =>
      MarkedMatches(b, text, c, caps, mark, n);
      PairedMatches(b, text, c, caps, mark, n);
      MarkedMore(p, text, c, Matches(Marked(b, mark), text, c, caps), mark, n);
    case Counted(_, _, _, _, _, _, _) => MarkedCounted(p, text, c, caps, mark, n);
    case Guarded(_, _) => MarkedGuarded(p, text, c, caps, mark, n);
    case BackRef(i, fold) => MarkedBackRef(p, text, c, caps, mark, n);
    case _ =>
  }

  /** A marked capture is found anywhere, as is one from 0 to 0. */
  lemma MarkedBackRef(p: Pattern, text: seq<byte>, c: nat, caps: seq<nat>, mark: nat, n: nat)
    requires p.BackRef? && Marking(p, text, mark, n) && Paired(caps, mark, n)
    ensures Matches(p, text, c, Unmark(caps, mark)) == UnmarkAll(Matches(p, text, c, caps), mark)
  {
    hide CharAt, WholeChars;
    assert Repeated(text, Unmark(caps, mark), p.group, c, p.fold) == Repeated(text, caps, p.group, c, p.fold);
  }

  lemma MarkedGroup(p: Pattern, text: seq<byte>, c: nat, caps: seq<nat>, mark: nat, n: nat)
    requires p.Group? && Marking(p, text, mark, n) && c <= |text| && Paired(caps, mark, n)
    ensures Matches(p, text, c, Unmark(caps, mark)) == UnmarkAll(Matches(Marked(p, mark), text, c, caps), mark)
    decreases p, Left(text, c), 1, |text| + 1
  {
    hide Paired, WholeChars, Unmark;
    UnmarkPut(caps, 2 * p.index, c, mark);
    PairedPut(caps, 2 * p.index, c, mark, n);
    MarkedMatches(p.body, text, c, Put(caps, 2 * p.index, c), mark, n);
    MatchesInside(Marked(p.body, mark), text, c, Put(caps, 2 * p.index, c));
    UnmarkPutAll(Matches(Marked(p.body, mark), text, c, Put(caps, 2 * p.index, c)), 2 * p.index + 1, text, mark);
  }

  lemma MarkedRepeat(p: Pattern, text: seq<byte>, c: nat, caps: seq<nat>, mark: nat, n: nat)
    requires p.Repeat? && Marking(p, text, mark, n) && c <= |text| && Paired(caps, mark, n)
    ensures Matches(p, text, c, Unmark(caps, mark)) == UnmarkAll(Matches(Marked(p, mark), text, c, caps), mark)
    decreases p, Left(text, c), 1, |Matches(Marked(p.body, mark), text, c, caps)| + 1
  {
    hide Paired, WholeChars, Unmark;
    var l := Matches(Marked(p.body, mark), text, c, caps);
    MarkedMatches(p.body, text, c, caps, mark, n);
    PairedMatches(p.body, text, c, caps, mark, n);
    MarkedAgain(p, text, c, l, mark, n);
    UnmarkSelf(Again(Marked(p, mark), text, c, l), c, caps, mark);
  }

  lemma MarkedGuarded(p: Pattern, text: seq<byte>, c: nat, caps: seq<nat>, mark: nat, n: nat)
    requires p.Guarded? && Marking(p, text, mark, n) && c <= |text| && Paired(caps, mark, n)
    ensures Matches(p, text, c, Unmark(caps, mark)) == UnmarkAll(Matches(Marked(p, mark), text, c, caps), mark)
    decreases p, Left(text, c), 1, |text| + 1
  {
    hide Paired, WholeChars, Unmark;
    UnmarkPut(caps, p.slot, c, mark);
    PairedRegister(caps, p.slot, c, mark, n);
    MarkedMatches(p.body, text, c, Put(caps, p.slot, c), mark, n);
    UnmarkMoved(Matches(Marked(p.body, mark), text, c, Put(caps, p.slot, c)), c, mark);
  }

  lemma {:induction false} MarkedThen(p: Pattern, text: seq<byte>, l: seq<Way>, mark: nat, n: nat)
    requires Marking(p, text, mark, n) && Inside(l, text) && AllPaired(l, mark, n)
    ensures Then(p, text, UnmarkAll(l, mark)) == UnmarkAll(Then(Marked(p, mark), text, l), mark)
    decreases p, ThenMeasure(p, text), 0, |l|
  {
    hide Paired, Matches, Unmark, Marking, Marked;
    if l != [] {
      assert l[0] in l;
      MarkedMatches(p, text, l[0].at, l[0].caps, mark, n);
      MarkedThen(p, text, l[1..], mark, n);
      UnmarkJoin(Matches(Marked(p, mark), text, l[0].at, l[0].caps), Then(Marked(p, mark), text, l[1..]), mark);
    }
  }

  lemma {:induction false} MarkedAgain(p: Pattern, text: seq<byte>, c: nat, l: seq<Way>, mark: nat, n: nat)
    requires p.Repeat? && Marking(p, text, mark, n) && AllPaired(l, mark, n)
    ensures Again(p, text, c, UnmarkAll(l, mark)) == UnmarkAll(Again(Marked(p, mark), text, c, l), mark)
    decreases p, Left(text, c), 1, |l|
  {
    hide Paired, Matches, Unmark, Marking;
    if l != [] {
      var q := Marked(p, mark);
      assert l[0] in l;
      var m := if c < l[0].at <= |text| then Matches(q, text, l[0].at, l[0].caps) else [];
      if c < l[0].at <= |text| { MarkedMatches(p, text, l[0].at, l[0].caps, mark, n); }
      MarkedAgain(p, text, c, l[1..], mark, n);
      UnmarkJoin(m, Again(q, text, c, l[1..]), mark);
    }
  }

  lemma {:induction false} MarkedMore(p: Pattern, text: seq<byte>, c: nat, l: seq<Way>, mark: nat, n: nat)
    requires p.Plus? && Marking(p, text, mark, n) && AllPaired(l, mark, n)
    ensures More(p, text, c, UnmarkAll(l, mark)) == UnmarkAll(More(Marked(p, mark), text, c, l), mark)
    decreases p, Left(text, c), 1, |l|
  {
    hide Paired, Matches, Unmark, Marking;
    if l != [] {
      var q, w := Marked(p, mark), l[0];
      assert w in l;
      var m := if c < w.at <= |text| then Matches(q, text, w.at, w.caps) else [];
      if c < w.at <= |text| { MarkedMatches(p, text, w.at, w.caps, mark, n); }
      MarkedMore(p, text, c, l[1..], mark, n);
      UnmarkSelf(m, w.at, w.caps, mark);
      UnmarkJoin(if p.greedy then m + [w] else [w] + m, More(q, text, c, l[1..]), mark);
    }
  }

  lemma MarkedCounted(p: Pattern, text: seq<byte>, c: nat, caps: seq<nat>, mark: nat, n: nat)
    requires p.Counted? && Marking(p, text, mark, n) && c <= |text| && Paired(caps, mark, n)
    ensures Matches(p, text, c, Unmark(caps, mark)) == UnmarkAll(Matches(Marked(p, mark), text, c, caps), mark)
    decreases p, p.max + 1, 1, 0
  {
    hide Paired, WholeChars, Unmark, Rounds;
    var q, caps' := Marked(p, mark), Put(caps, p.slot, p.max);
    if p.max > 0 {
      UnmarkPut(caps, p.slot, p.max, mark);
      PairedRegister(caps, p.slot, p.max, mark, n);
      MarkedRound(p, p.max, text, c, caps', mark, n);
      UnmarkSelf(Rounds(q, p.max, text, c, Matches(q.body, text, c, RoundCaps(q, c, caps'))), c, caps, mark);
    } else {
      UnmarkSelf([], c, caps, mark);
    }
  }

  lemma MarkedRound(p: Pattern, k: nat, text: seq<byte>, c: nat, caps: seq<nat>, mark: nat, n: nat)
    requires p.Counted? && 0 < k <= p.max && Marking(p, text, mark, n) && c <= |text| && Paired(caps, mark, n)
    ensures var q := Marked(p, mark);
            Rounds(p, k, text, c, Matches(p.body, text, c, RoundCaps(p, c, Unmark(caps, mark))))
            == UnmarkAll(Rounds(q, k, text, c, Matches(q.body, text, c, RoundCaps(q, c, caps))), mark)
    decreases p, k, 1, 0
  {
    hide Paired, WholeChars, Unmark, Rounds, Matches;
    var q := Marked(p, mark);
    UnmarkPut(caps, p.mark, c, mark);
    if p.check { PairedRegister(caps, p.mark, c, mark, n); }
    MarkedMatches(p.body, text, c, RoundCaps(p, c, caps), mark, n);
    MatchesInside(q.body, text, c, RoundCaps(q, c, caps));
    PairedMatches(p.body, text, c, RoundCaps(p, c, caps), mark, n);
    MarkedRounds(p, k, text, c, Matches(q.body, text, c, RoundCaps(q, c, caps)), mark, n);
  }

  lemma {:induction false} MarkedRounds(p: Pattern, k: nat, text: seq<byte>, c: nat, l: seq<Way>, mark: nat, n: nat)
    requires p.Counted? && 0 < k <= p.max && Marking(p, text, mark, n) && Inside(l, text) && AllPaired(l, mark, n)
    ensures Rounds(p, k, text, c, UnmarkAll(l, mark)) == UnmarkAll(Rounds(Marked(p, mark), k, text, c, l), mark)
    decreases p, k, 0, |l|
  {
    hide Paired, Times, Unmark, WholeChars;
    if l != [] {
      var q, w := Marked(p, mark), l[0];
      assert w in l;
      var caps := Put(w.caps, p.slot, k - 1);
      UnmarkPut(w.caps, p.slot, k - 1, mark);
      PairedRegister(w.caps, p.slot, k - 1, mark, n);
      MarkedTimes(p, k - 1, text, w.at, caps, mark, n);
      MarkedRounds(p, k, text, c, l[1..], mark, n);
      var m := if k <= Limit(q) && w.at == c then [] else Times(q, k - 1, text, w.at, caps);
      UnmarkJoin(m, Rounds(q, k, text, c, l[1..]), mark);
    }
  }

  lemma MarkedTimes(p: Pattern, k: nat, text: seq<byte>, c: nat, caps: seq<nat>, mark: nat, n: nat)
    requires p.Counted? && k <= p.max && Marking(p, text, mark, n) && c <= |text| && Paired(caps, mark, n)
    ensures Times(p, k, text, c, Unmark(caps, mark)) == UnmarkAll(Times(Marked(p, mark), k, text, c, caps), mark)
    decreases p, k, 2, 0
  {
    hide Paired, WholeChars, Unmark, Rounds, Matches;
    var q := Marked(p, mark);
    if k == 0 {
      UnmarkSelf([], c, caps, mark);
    } else {
      MarkedRound(p, k, text, c, caps, mark, n);
      UnmarkSelf(Rounds(q, k, text, c, Matches(q.body, text, c, RoundCaps(q, c, caps))), c, caps, mark);
    }
  }
}
