/**
 The compiled pattern finds the matches the written one has, in the same order and with the same captures,
 except that a capture the engine has reset reads as empty at 0 where it should be undefined.
 */
module RegexpAgreement {
  import opened Bytes
  import opened RegexpCode
  import opened RegexpPattern
  import opened RegexpScan
  import opened RegexpRegisters
  import opened RegexpSource
  import opened RegexpPlan
  import opened RegexpSoundness

  /** The subject, how many captures there are, how many words are saved, whether resets can show, and whether captures are read. */
  datatype Setting = Setting(text: seq<byte>, count: nat, n: nat, lax: bool, mark: nat, read: bool)

  /** The engine's captures k show the captures e, but for those in free; none is free where they are read. */
  predicate Shows(t: Setting, k: seq<nat>, e: seq<nat>, free: set<nat>) {
    && (t.read ==> free == {}) && |e| == 2 * t.count <= |k| == t.n
    && forall i :: 0 <= i < 2 * t.count && i !in free ==> k[i] == e[i] || (t.lax && e[i] == UNSET && k[i] == t.mark)
  }

  /** The same matches in the same order. */
  ghost predicate SameWays(t: Setting, l: seq<Way>, m: seq<Way>, free: set<nat>) {
    |l| == |m| && forall j :: 0 <= j < |l| ==> l[j].at == m[j].at && Shows(t, l[j].caps, m[j].caps, free)
  }

  /** Captures every match of s sets. */
  function Sets(s: Source, low: nat): set<nat> {
    match s
    case Sequence(a, b) => Sets(a, low) + Sets(b, low + Groups(a))
    case Capture(b) => {2 * low, 2 * low + 1} + Sets(b, low + 1)
    case _ => {}
  }

  /** There are back references in s. */
  predicate Reads(s: Source) {
    match s
    case Leaf(p) => p.BackRef?
    case Sequence(a, b) => Reads(a) || Reads(b)
    case Alternative(a, b) => Reads(a) || Reads(b)
    case Capture(b) => Reads(b)
    case Ahead(_, b) => Reads(b)
    case Quantified(b, _, max, _) => max > 0 && Reads(b)
  }

  /** The code of s resets captures. */
  predicate Resets(s: Source) {
    match s
    case Leaf(_) => false
    case Sequence(a, b) => Resets(a) || Resets(b)
    case Alternative(a, b) => Resets(a) || Resets(b)
    case Capture(b) => Resets(b)
    case Ahead(_, b) => Resets(b)
    case Quantified(b, min, max, _) =>
      (Groups(b) > 0 && if Branches(b) then max > 0 else min == 0) || (max > 0 && Resets(b))
  }

  /** The subject is too short for a counted loop without a maximum to reach the greatest count. */
  predicate Bounded(s: Source, length: nat) {
    match s
    case Leaf(_) => true
    case Sequence(a, b) => Bounded(a, length) && Bounded(b, length)
    case Alternative(a, b) => Bounded(a, length) && Bounded(b, length)
    case Capture(b) => Bounded(b, length)
    case Ahead(_, b) => Bounded(b, length)
    case Quantified(b, min, max, _) =>
      Bounded(b, length) && (max == JS_SHORTINT_MAX && (min > 1 || (min == 1 && !SurelyConsumes(b))) ==> min + length < JS_SHORTINT_MAX)
  }

  predicate Fits(t: Setting, s: Source, low: nat) {
    && Valid(s) && low + Groups(s) <= t.count && (Resets(s) ==> t.lax) && Bounded(s, |t.text|) && WholeChars(t.text) && 2 * t.count <= t.n
    && RefersBelow(s, t.count) && (Reads(s) ==> t.read) && (t.read && t.lax ==> t.mark >= UNSET)
  }

  /** The captures of low and on, g of them, are undefined. */
  predicate Fresh(e: seq<nat>, low: nat, g: nat) {
    forall i :: 2 * low <= i < 2 * (low + g) && i < |e| ==> e[i] == UNSET
  }

  // ---------- lists of matches ----------

  lemma Weaken(t: Setting, l: seq<Way>, m: seq<Way>, free: set<nat>, more: set<nat>)
    requires SameWays(t, l, m, free) && free <= more && (t.read ==> more == {})
    ensures SameWays(t, l, m, more)
  {}

  lemma NoneFree(t: Setting, k: seq<nat>, e: seq<nat>, free: set<nat>)
    requires Shows(t, k, e, free)
    ensures t.read ==> free == {}
  {}

  lemma SameJoin(t: Setting, l: seq<Way>, m: seq<Way>, l': seq<Way>, m': seq<Way>, free: set<nat>)
    requires SameWays(t, l, m, free) && SameWays(t, l', m', free)
    ensures SameWays(t, l + l', m + m', free)
  {}

  lemma SameOne(t: Setting, c: nat, k: seq<nat>, e: seq<nat>, free: set<nat>)
    requires Shows(t, k, e, free)
    ensures SameWays(t, [Way(c, k)], [Way(c, e)], free)
  {}

  lemma SameTail(t: Setting, l: seq<Way>, m: seq<Way>, free: set<nat>)
    requires SameWays(t, l, m, free) && l != []
    ensures m != [] && l[0].at == m[0].at && Shows(t, l[0].caps, m[0].caps, free) && SameWays(t, l[1..], m[1..], free)
  {}

  lemma ShowsPut(t: Setting, k: seq<nat>, e: seq<nat>, free: set<nat>, i: nat, v: nat)
    requires Shows(t, k, e, free)
    ensures i < 2 * t.count ==> Shows(t, Put(k, i, v), Put(e, i, v), free - {i})
    ensures i >= 2 * t.count ==> Shows(t, Put(k, i, v), e, free)
  {}

  lemma {:induction false} SamePutAll(t: Setting, l: seq<Way>, m: seq<Way>, free: set<nat>, i: nat)
    requires SameWays(t, l, m, free) && i < 2 * t.count
    ensures SameWays(t, PutAll(l, i), PutAll(m, i), free - {i})
  {
    hide Shows;
    if l != [] {
      SameTail(t, l, m, free);
      ShowsPut(t, l[0].caps, m[0].caps, free, i, l[0].at);
      SamePutAll(t, l[1..], m[1..], free, i);
      SameOne(t, l[0].at, Put(l[0].caps, i, l[0].at), Put(m[0].caps, i, l[0].at), free - {i});
      SameJoin(t, [Way(l[0].at, Put(l[0].caps, i, l[0].at))], [Way(m[0].at, Put(m[0].caps, i, m[0].at))],
               PutAll(l[1..], i), PutAll(m[1..], i), free - {i});
    }
  }

  lemma SameSelf(t: Setting, l: seq<Way>, m: seq<Way>, c: nat, k: seq<nat>, e: seq<nat>, free: set<nat>)
    requires SameWays(t, l, m, free) && Shows(t, k, e, free)
    ensures SameWays(t, l + [Way(c, k)], m + [Way(c, e)], free) && SameWays(t, [Way(c, k)] + l, [Way(c, e)] + m, free)
  {
    hide Shows;
    SameOne(t, c, k, e, free);
    SameJoin(t, l, m, [Way(c, k)], [Way(c, e)], free);
    SameJoin(t, [Way(c, k)], [Way(c, e)], l, m, free);
  }

  // ---------- resets ----------

  /** After the engine's reset its captures show those of which the same are undefined. */
  lemma ShowsReset(t: Setting, k: seq<nat>, e: seq<nat>, free: set<nat>, low: nat, g: nat)
    requires Shows(t, k, e, free) && t.lax && g > 0 && low + g <= t.count
    ensures 2 * (low + g - 1) + 1 < |k| && Shows(t, Blank(k, low, low + g - 1, t.mark), Reset(e, low, g), free)
  {}

  lemma FreshReset(e: seq<nat>, low: nat, g: nat)
    ensures Fresh(e, low, g) ==> Reset(e, low, g) == e
    ensures Fresh(Reset(e, low, g), low, g)
  {
    if Fresh(e, low, g) { assert Reset(e, low, g) == e; }
  }

  lemma ForgetMatches(p: Pattern, low: nat, g: nat, text: seq<byte>, c: nat, k: seq<nat>, value: nat)
    requires g > 0 && 2 * (low + g - 1) + 1 < |k|
    ensures Matches(Concat(ForgetAll(low, g, value), p), text, c, k) == Matches(p, text, c, Blank(k, low, low + g - 1, value))
  {
    hide Blank;
    var w := Way(c, Blank(k, low, low + g - 1, value));
    assert Matches(ForgetAll(low, g, value), text, c, k) == [w];
    assert [w][1..] == [];
    assert Then(p, text, [w]) == Matches(p, text, c, w.caps) + Then(p, text, []);
  }

  lemma {:induction false} SetsOwn(s: Source, low: nat, i: nat)
    requires !Branches(s)
    ensures Changes(s, low, i) <==> i in Sets(s, low)
  {
    match s
    case Leaf(_) =>
    case Sequence(a, b) => SetsOwn(a, low, i); SetsOwn(b, low + Groups(a), i);
    case Capture(b) => SetsOwn(b, low + 1, i);
    case Quantified(_, _, _, _) =>
  }

  // ---------- the theorem ----------

  lemma {:induction false} PlanMeans(t: Setting, s: Source, low: nat, depth: nat, c: nat, k: seq<nat>, e: seq<nat>, free: set<nat>)
    requires Fits(t, s, low) && c <= |t.text| && Shows(t, k, e, free) && Fresh(e, low, Groups(s))
    ensures SameWays(t, Matches(Plan(s, low, t.count, depth, t.mark), t.text, c, k), Means(s, low, t.text, c, e), free - Sets(s, low))
    decreases s, 5, 0, 0, 0
  {
    hide Plan, Shows, SameWays, Fresh, Fits;
    PlanOf(s, low, t.count, depth, t.mark);
    match s
    case Leaf(p) => LeafMeans(t, p, low, c, k, e, free);
    case Sequence(_, _) => SequenceMeans(t, s, low, depth, c, k, e, free);
    case Alternative(_, _) => AlternativeMeans(t, s, low, depth, c, k, e, free);
    case Capture(_) => CaptureMeans(t, s, low, depth, c, k, e, free);
    case Ahead(_, _) => AheadMeans(t, s, low, depth, c, k, e, free);
    case Quantified(_, _, _, _) => QuantifiedMeans(t, s, low, depth, c, k, e, free);
  }

  lemma LeafMeans(t: Setting, p: Pattern, low: nat, c: nat, k: seq<nat>, e: seq<nat>, free: set<nat>)
    requires Fits(t, Leaf(p), low) && Shows(t, k, e, free)
    ensures SameWays(t, Matches(p, t.text, c, k), Matches(p, t.text, c, e), free - {})
  {
    hide CharAt, SymbolEnd, InClass, SameText;
    assert free - {} == free;
  }

  lemma SequenceMeans(t: Setting, s: Source, low: nat, depth: nat, c: nat, k: seq<nat>, e: seq<nat>, free: set<nat>)
    requires s.Sequence? && Fits(t, s, low) && c <= |t.text| && Shows(t, k, e, free) && Fresh(e, low, Groups(s))
    ensures SameWays(t, Then(Plan(s.second, low + Groups(s.first), t.count, depth, t.mark), t.text,
                             Matches(Plan(s.first, low, t.count, depth, t.mark), t.text, c, k)),
                     Means(s, low, t.text, c, e), free - Sets(s, low))
    decreases s, 4, 0, 0, 0
  {
    hide Plan, Shows, SameWays, WholeChars, Matches, Then;
    var a, b := s.first, s.second;
    var m := Means(a, low, t.text, c, e);
    PlanMeans(t, a, low, depth, c, k, e, free);
    StillFresh(t, a, b, low, c, e);
    SequelMeans(t, b, low + Groups(a), depth, Matches(Plan(a, low, t.count, depth, t.mark), t.text, c, k), m, free - Sets(a, low));
    assert free - Sets(a, low) - Sets(b, low + Groups(a)) == free - Sets(s, low);
  }

  /** Where a term can begin, and its captures are undefined. */
  ghost predicate Starts(t: Setting, m: seq<Way>, low: nat, g: nat) {
    forall w :: w in m ==> w.at <= |t.text| && Fresh(w.caps, low, g)
  }

  lemma StillFresh(t: Setting, a: Source, b: Source, low: nat, c: nat, e: seq<nat>)
    requires Fits(t, Sequence(a, b), low) && c <= |t.text| && Fresh(e, low, Groups(a) + Groups(b))
    ensures Starts(t, Means(a, low, t.text, c, e), low + Groups(a), Groups(b))
  {
    hide WholeChars, Means;
    var m, from := Means(a, low, t.text, c, e), low + Groups(a);
    forall w | w in m ensures w.at <= |t.text| && Fresh(w.caps, from, Groups(b)) {
      var j :| 0 <= j < |m| && m[j] == w;
      MeansSound(a, low, t.text, c, e, 0);
      assert Sound(m[j], t.text, c, e, 0, Changes(a, low, 0));
      forall i | 2 * from <= i < 2 * (from + Groups(b)) && i < |w.caps| ensures w.caps[i] == UNSET {
        OthersKept(a, low, t.text, c, e, j, i);
      }
    }
  }

  /** A match of s leaves the captures behind its own as they are. */
  lemma OthersKept(s: Source, low: nat, text: seq<byte>, c: nat, e: seq<nat>, j: nat, i: nat)
    requires Valid(s) && WholeChars(text) && j < |Means(s, low, text, c, e)| && 2 * (low + Groups(s)) <= i
    ensures var w := Means(s, low, text, c, e)[j]; |w.caps| == |e| && (i < |e| ==> w.caps[i] == e[i])
  {
    hide WholeChars, Means;
    MeansSound(s, low, text, c, e, i);
    assert Sound(Means(s, low, text, c, e)[j], text, c, e, i, Changes(s, low, i));
    if Changes(s, low, i) { ChangesOwn(s, low, i); }
  }

  lemma {:induction false} SequelMeans(t: Setting, s: Source, low: nat, depth: nat, l: seq<Way>, m: seq<Way>, free: set<nat>)
    requires Fits(t, s, low) && SameWays(t, l, m, free) && Starts(t, m, low, Groups(s))
    ensures SameWays(t, Then(Plan(s, low, t.count, depth, t.mark), t.text, l), Sequel(s, low, t.text, m), free - Sets(s, low))
    decreases s, 6, 0, 0, |l|
  {
    hide Plan, Shows, Matches, Means, Fits, Fresh;
    if l != [] {
      var p := Plan(s, low, t.count, depth, t.mark);
      SameTail(t, l, m, free);
      PlanMeans(t, s, low, depth, l[0].at, l[0].caps, m[0].caps, free);
      SequelMeans(t, s, low, depth, l[1..], m[1..], free);
      SameJoin(t, Matches(p, t.text, l[0].at, l[0].caps), Means(s, low, t.text, m[0].at, m[0].caps),
               Then(p, t.text, l[1..]), Sequel(s, low, t.text, m[1..]), free - Sets(s, low));
    }
  }

  lemma AlternativeMeans(t: Setting, s: Source, low: nat, depth: nat, c: nat, k: seq<nat>, e: seq<nat>, free: set<nat>)
    requires s.Alternative? && Fits(t, s, low) && c <= |t.text| && Shows(t, k, e, free) && Fresh(e, low, Groups(s))
    ensures SameWays(t, Matches(Plan(s.left, low, t.count, depth, t.mark), t.text, c, k)
                        + Matches(Plan(s.right, low + Groups(s.left), t.count, depth, t.mark), t.text, c, k),
                     Means(s, low, t.text, c, e), free - {})
    decreases s, 4, 0, 0, 0
  {
    hide Plan, Shows, SameWays, WholeChars, Matches;
    var a, b, from := s.left, s.right, low + Groups(s.left);
    var l, m := Matches(Plan(a, low, t.count, depth, t.mark), t.text, c, k), Means(a, low, t.text, c, e);
    var l', m' := Matches(Plan(b, from, t.count, depth, t.mark), t.text, c, k), Means(b, from, t.text, c, e);
    PlanMeans(t, a, low, depth, c, k, e, free);
    PlanMeans(t, b, from, depth, c, k, e, free);
    assert free - {} == free;
    NoneFree(t, k, e, free);
    Weaken(t, l, m, free - Sets(a, low), free);
    Weaken(t, l', m', free - Sets(b, from), free);
    SameJoin(t, l, m, l', m', free);
  }

  lemma CaptureMeans(t: Setting, s: Source, low: nat, depth: nat, c: nat, k: seq<nat>, e: seq<nat>, free: set<nat>)
    requires s.Capture? && Fits(t, s, low) && c <= |t.text| && Shows(t, k, e, free) && Fresh(e, low, Groups(s))
    ensures SameWays(t, Matches(Group(low, Plan(s.body, low + 1, t.count, depth, t.mark)), t.text, c, k), Means(s, low, t.text, c, e),
                     free - Sets(s, low))
    decreases s, 4, 0, 0, 0
  {
    hide Plan, Shows, SameWays, WholeChars;
    var b := s.body;
    var k', e' := Put(k, 2 * low, c), Put(e, 2 * low, c);
    ShowsPut(t, k, e, free, 2 * low, c);
    PlanMeans(t, b, low + 1, depth, c, k', e', free - {2 * low});
    SamePutAll(t, Matches(Plan(b, low + 1, t.count, depth, t.mark), t.text, c, k'), Means(b, low + 1, t.text, c, e'),
               free - {2 * low} - Sets(b, low + 1), 2 * low + 1);
    assert free - {2 * low} - Sets(b, low + 1) - {2 * low + 1} == free - Sets(s, low);
  }

  lemma AheadMeans(t: Setting, s: Source, low: nat, depth: nat, c: nat, k: seq<nat>, e: seq<nat>, free: set<nat>)
    requires s.Ahead? && Fits(t, s, low) && c <= |t.text| && Shows(t, k, e, free) && Fresh(e, low, Groups(s))
    ensures SameWays(t, Matches(Look(s.negative, Plan(s.body, low, t.count, depth, t.mark)), t.text, c, k), Means(s, low, t.text, c, e),
                     free - {})
    decreases s, 4, 0, 0, 0
  {
    hide Plan, Shows, WholeChars;
    var b := s.body;
    var l, m := Matches(Plan(b, low, t.count, depth, t.mark), t.text, c, k), Means(b, low, t.text, c, e);
    PlanMeans(t, b, low, depth, c, k, e, free);
    assert free - {} == free;
    NoneFree(t, k, e, free);
    Weaken(t, l, m, free - Sets(b, low), free);
  }

  // ---------- quantifiers ----------

  /** Between rounds: a body that is not reset has left undefined what it does not set. */
  predicate Keeps(s: Source, low: nat, e: seq<nat>)
    requires s.Quantified?
  {
    Branches(s.body) || forall i :: 2 * low <= i < 2 * (low + Groups(s)) && i < |e| && i !in Sets(s.body, low) ==> e[i] == UNSET
  }

  /** The loop body of the plan. */
  function BodyOf(t: Setting, s: Source, low: nat, depth: nat): Pattern
    requires s.Quantified?
  {
    var d := depth + OwnRegisters(s.min, s.max, !SurelyConsumes(s.body));
    LoopBodyOf(Plan(s.body, low, t.count, d, t.mark), low, Groups(s.body), Branches(s.body), t.mark)
  }

  /** What a round of the meaning goes through. */
  function RoundOf(t: Setting, s: Source, low: nat, c: nat, e: seq<nat>): seq<Way>
    requires s.Quantified?
  {
    Means(s.body, low, t.text, c, Reset(e, low, Groups(s.body)))
  }

  lemma BodyMeans(t: Setting, s: Source, low: nat, depth: nat, c: nat, k: seq<nat>, e: seq<nat>, free: set<nat>)
    requires s.Quantified? && s.max > 0 && Fits(t, s, low) && c <= |t.text| && Shows(t, k, e, free) && Keeps(s, low, e)
    ensures SameWays(t, Matches(BodyOf(t, s, low, depth), t.text, c, k), RoundOf(t, s, low, c, e), free)
    decreases s, 1, 0, 0, 0
  {
    hide Plan, SameWays, WholeChars, Matches, Means, Reset, Blank;
    var b, g := s.body, Groups(s.body);
    var e1 := Reset(e, low, g);
    var d := depth + OwnRegisters(s.min, s.max, !SurelyConsumes(b));
    var p := Plan(b, low, t.count, d, t.mark);
    FreshReset(e, low, g);
    NoneFree(t, k, e, free);
    if Branches(b) && g > 0 {
      ShowsReset(t, k, e, free, low, g);
      var k1 := Blank(k, low, low + g - 1, t.mark);
      ForgetMatches(p, low, g, t.text, c, k, t.mark);
      PlanMeans(t, b, low, d, c, k1, e1, free);
      Weaken(t, Matches(p, t.text, c, k1), Means(b, low, t.text, c, e1), free - Sets(b, low), free);
    } else {
      var unread := t.(read := t.read && Branches(b));
      ShowsUnreset(t, s, low, k, e, free);
      if !Branches(b) { UnbranchedReads(b); }
      PlanMeans(unread, b, low, d, c, k, e1, free + Sets(b, low));
      SameUnread(t, unread, Matches(p, t.text, c, k), Means(b, low, t.text, c, e1), free + Sets(b, low) - Sets(b, low), free);
    }
  }

  /** What does not branch reads no capture. */
  lemma {:induction false} UnbranchedReads(s: Source)
    requires !Branches(s)
    ensures !Reads(s)
  {
    match s
    case Sequence(a, b) => UnbranchedReads(a); UnbranchedReads(b);
    case Capture(b) => UnbranchedReads(b);
    case _ =>
  }

  lemma {:induction false} NoneSet(s: Source, low: nat)
    requires Groups(s) == 0
    ensures Sets(s, low) == {}
  {
    match s
    case Sequence(a, b) => NoneSet(a, low); NoneSet(b, low + Groups(a));
    case _ =>
  }

  lemma SameUnread(t: Setting, unread: Setting, l: seq<Way>, m: seq<Way>, free: set<nat>, more: set<nat>)
    requires SameWays(unread, l, m, free) && free <= more && (t.read ==> more == {}) && unread == t.(read := unread.read)
    ensures SameWays(t, l, m, more)
  {}

  /** Without a reset, what the body is going to set is stale. */
  lemma ShowsUnreset(t: Setting, s: Source, low: nat, k: seq<nat>, e: seq<nat>, free: set<nat>)
    requires s.Quantified? && Shows(t, k, e, free) && Keeps(s, low, e) && (!Branches(s.body) || Groups(s.body) == 0)
    ensures Shows(t.(read := t.read && Branches(s.body)), k, Reset(e, low, Groups(s.body)), free + Sets(s.body, low))
  {
    if Groups(s.body) == 0 { NoneSet(s.body, low); }
    var e1 := Reset(e, low, Groups(s.body));
    forall i | 0 <= i < 2 * t.count && i !in free + Sets(s.body, low)
      ensures k[i] == e1[i] || (t.lax && e1[i] == UNSET && k[i] == t.mark)
    {
      assert i !in free;
    }
  }

  /** What a round leaves is fit for another; a body that surely consumes has moved on. */
  ghost predicate Rounded(t: Setting, s: Source, low: nat, c: nat, m: seq<Way>)
    requires s.Quantified?
  {
    forall w :: w in m ==> c <= w.at <= |t.text| && Keeps(s, low, w.caps) && (SurelyConsumes(s.body) ==> w.at > c)
  }

  lemma RoundLeaves(t: Setting, s: Source, low: nat, c: nat, e: seq<nat>)
    requires s.Quantified? && Fits(t, s, low) && c <= |t.text|
    ensures Rounded(t, s, low, c, RoundOf(t, s, low, c, e))
  {
    hide WholeChars, Means, Reset;
    var b, m, e1 := s.body, RoundOf(t, s, low, c, e), Reset(e, low, Groups(s.body));
    FreshReset(e, low, Groups(b));
    if SurelyConsumes(b) { MeansMoves(b, low, t.text, c, e1); }
    forall w | w in m ensures c <= w.at <= |t.text| && Keeps(s, low, w.caps) && (SurelyConsumes(b) ==> w.at > c) {
      var j :| 0 <= j < |m| && m[j] == w;
      MeansSound(b, low, t.text, c, e1, 0);
      assert Sound(m[j], t.text, c, e1, 0, Changes(b, low, 0));
      if !Branches(b) {
        forall i | 2 * low <= i < 2 * (low + Groups(s)) && i < |w.caps| && i !in Sets(b, low) ensures w.caps[i] == UNSET {
          MeansSound(b, low, t.text, c, e1, i);
          SetsOwn(b, low, i);
          assert Sound(m[j], t.text, c, e1, i, Changes(b, low, i));
        }
      }
    }
  }

  /** The loop of the plan, without a reset before it. */
  function LoopFor(t: Setting, s: Source, low: nat, depth: nat): Pattern
    requires s.Quantified?
  {
    LoopOf(BodyOf(t, s, low, depth), s.min, s.max, s.greedy, !SurelyConsumes(s.body), 2 * t.count + depth)
  }

  lemma QuantifiedMeans(t: Setting, s: Source, low: nat, depth: nat, c: nat, k: seq<nat>, e: seq<nat>, free: set<nat>)
    requires s.Quantified? && Fits(t, s, low) && c <= |t.text| && Shows(t, k, e, free) && Fresh(e, low, Groups(s))
    ensures SameWays(t, Matches(Plan(s, low, t.count, depth, t.mark), t.text, c, k), Means(s, low, t.text, c, e), free - {})
    decreases s, 4, 0, 0, 0
  {
    hide SameWays, WholeChars, LoopOf, LoopBodyOf, Turns, Matches, Blank;
    var g, loop := Groups(s.body), LoopFor(t, s, low, depth);
    assert free - {} == free;
    PlanOf(s, low, t.count, depth, t.mark);
    if s.min == 0 && !Branches(s.body) && g > 0 {
      ShowsReset(t, k, e, free, low, g);
      FreshReset(e, low, g);
      ForgetMatches(loop, low, g, t.text, c, k, t.mark);
      LoopMeans(t, s, low, depth, c, Blank(k, low, low + g - 1, t.mark), e, free);
    } else {
      LoopMeans(t, s, low, depth, c, k, e, free);
    }
  }

  lemma LoopMeans(t: Setting, s: Source, low: nat, depth: nat, c: nat, k: seq<nat>, e: seq<nat>, free: set<nat>)
    requires s.Quantified? && Fits(t, s, low) && c <= |t.text| && Shows(t, k, e, free) && Keeps(s, low, e)
    ensures SameWays(t, Matches(LoopFor(t, s, low, depth), t.text, c, k), Turns(s, low, s.min, s.max, t.text, c, e), free)
    decreases s, 3, 1, 0, 0
  {
    hide SameWays, WholeChars, BodyOf, Turns, Matches, Shows, Keeps, Resets;
    var p := LoopFor(t, s, low, depth);
    if s.max == 0 {
      NoLoopMeans(t, s, low, c, k, e, free);
    } else if p.Optional? {
      OptionalMeans(t, s, p, low, depth, c, k, e, free);
    } else if p.Repeat? {
      RepeatMeans(t, s, p, low, depth, c, k, e, free);
    } else if p.Plus? {
      PlusMeans(t, s, p, low, depth, c, k, e, free);
    } else {
      CountedMeans(t, s, p, low, depth, c, k, e, free);
    }
  }

  lemma NoLoopMeans(t: Setting, s: Source, low: nat, c: nat, k: seq<nat>, e: seq<nat>, free: set<nat>)
    requires s.Quantified? && Shows(t, k, e, free)
    ensures SameWays(t, Matches(Empty, t.text, c, k), Turns(s, low, 0, 0, t.text, c, e), free)
  {
    hide Shows;
    var w := [Way(c, e)];
    assert [] + w == w && w + [] == w;
    SameOne(t, c, k, e, free);
  }

  /** A round of the plan, with or without a guard. */
  function Guard(b: Pattern, check: bool, slot: nat): Pattern { if check then Guarded(slot, b) else b }

  /** The plan's matches of a loop body that is guarded if need be, before the guard drops any. */
  lemma GuardMeans(t: Setting, s: Source, low: nat, depth: nat, c: nat, k: seq<nat>, e: seq<nat>, free: set<nat>) returns (l: seq<Way>)
    requires s.Quantified? && s.max > 0 && Fits(t, s, low) && c <= |t.text| && Shows(t, k, e, free) && Keeps(s, low, e)
    ensures SameWays(t, l, RoundOf(t, s, low, c, e), free) && Rounded(t, s, low, c, RoundOf(t, s, low, c, e))
    ensures var check := !SurelyConsumes(s.body);
            Matches(Guard(BodyOf(t, s, low, depth), check, 2 * t.count + depth), t.text, c, k)
            == if check then Moved(l, c) else l
    decreases s, 2, 0, 0, 0
  {
    hide SameWays, WholeChars, BodyOf, RoundOf, Shows, Keeps, Resets, Rounded;
    var slot, b := 2 * t.count + depth, BodyOf(t, s, low, depth);
    var k' := if SurelyConsumes(s.body) then k else Put(k, slot, c);
    ShowsPut(t, k, e, free, slot, c);
    l := Matches(b, t.text, c, k');
    BodyMeans(t, s, low, depth, c, k', e, free);
    RoundLeaves(t, s, low, c, e);
  }

  lemma OptionalMeans(t: Setting, s: Source, p: Pattern, low: nat, depth: nat, c: nat, k: seq<nat>, e: seq<nat>, free: set<nat>)
    requires s.Quantified? && Fits(t, s, low) && c <= |t.text| && Shows(t, k, e, free) && Keeps(s, low, e)
    requires s.min == 0 && s.max == 1
    requires p == Optional(Guard(BodyOf(t, s, low, depth), !SurelyConsumes(s.body), 2 * t.count + depth), s.greedy)
    ensures SameWays(t, Matches(p, t.text, c, k), Turns(s, low, 0, 1, t.text, c, e), free)
    decreases s, 3, 0, 0, 0
  {
    hide SameWays, WholeChars, BodyOf, Shows, Keeps, Resets, Rounded, NextTurns, Guard;
    var l := GuardMeans(t, s, low, depth, c, k, e, free);
    var m := RoundOf(t, s, low, c, e);
    OptionalNext(t, s, low, c, l, m, free);
    SameSelf(t, Moved(l, c), NextTurns(s, low, 0, 1, t.text, c, m), c, k, e, free);
  }

  lemma {:induction false} OptionalNext(t: Setting, s: Source, low: nat, c: nat, l: seq<Way>, m: seq<Way>, free: set<nat>)
    requires s.Quantified? && SameWays(t, l, m, free) && Rounded(t, s, low, c, m)
    ensures SameWays(t, Moved(l, c), NextTurns(s, low, 0, 1, t.text, c, m), free)
    ensures SurelyConsumes(s.body) ==> Moved(l, c) == l
    decreases |l|
  {
    hide Shows, NextTurns, Rounded, SameWays;
    if l == [] {
      SameNone(t, free);
      assert m == [] by { SameSize(t, l, m, free); }
      assert NextTurns(s, low, 0, 1, t.text, c, []) == [] by { NextTurnsNone(t, s, low, c); }
    } else {
      SameTail(t, l, m, free);
      var w, v := l[0], m[0];
      OptionalStep(t, s, low, c, m);
      OptionalNext(t, s, low, c, l[1..], m[1..], free);
      if w.at != c {
        SameOne(t, w.at, w.caps, v.caps, free);
        SameJoin(t, [w], [v], Moved(l[1..], c), NextTurns(s, low, 0, 1, t.text, c, m[1..]), free);
      } else {
        assert [] + NextTurns(s, low, 0, 1, t.text, c, m[1..]) == NextTurns(s, low, 0, 1, t.text, c, m[1..]);
      }
    }
  }

  lemma SameSize(t: Setting, l: seq<Way>, m: seq<Way>, free: set<nat>)
    requires SameWays(t, l, m, free)
    ensures |l| == |m|
  {}

  lemma NextTurnsNone(t: Setting, s: Source, low: nat, c: nat)
    requires s.Quantified?
    ensures NextTurns(s, low, 0, 1, t.text, c, []) == []
  {}

  lemma OptionalStep(t: Setting, s: Source, low: nat, c: nat, m: seq<Way>)
    requires s.Quantified? && Rounded(t, s, low, c, m) && m != []
    ensures Rounded(t, s, low, c, m[1..]) && (SurelyConsumes(s.body) ==> m[0].at != c)
    ensures NextTurns(s, low, 0, 1, t.text, c, m)
            == (if m[0].at == c then [] else [m[0]]) + NextTurns(s, low, 0, 1, t.text, c, m[1..])
  {
    hide Keeps, Turns, SurelyConsumes;
    assert m[0] in m;
    LastTurn(t, s, low, m[0].at, m[0].caps);
  }

  lemma LastTurn(t: Setting, s: Source, low: nat, c: nat, e: seq<nat>)
    requires s.Quantified?
    ensures Turns(s, low, 0, 0, t.text, c, e) == [Way(c, e)]
  {
    var one := [Way(c, e)];
    assert [] + one == one && one + [] == one;
  }

  // ---------- loops without a counter ----------

  lemma {:induction false} AgainMoved(p: Pattern, text: seq<byte>, c: nat, l: seq<Way>)
    requires p.Repeat?
    ensures Again(p, text, c, Moved(l, c)) == Again(p, text, c, l)
    decreases |l|
  {
    hide Matches;
    if l != [] {
      AgainMoved(p, text, c, l[1..]);
      if l[0].at != c { assert ([l[0]] + Moved(l[1..], c))[1..] == Moved(l[1..], c); }
    }
  }

  lemma RepeatMeans(t: Setting, s: Source, p: Pattern, low: nat, depth: nat, c: nat, k: seq<nat>, e: seq<nat>, free: set<nat>)
    requires s.Quantified? && Fits(t, s, low) && c <= |t.text| && Shows(t, k, e, free) && Keeps(s, low, e)
    requires s.max == JS_SHORTINT_MAX
    requires p == Repeat(Guard(BodyOf(t, s, low, depth), !SurelyConsumes(s.body), 2 * t.count + depth), s.greedy)
    ensures SameWays(t, Matches(p, t.text, c, k), Turns(s, low, 0, JS_SHORTINT_MAX, t.text, c, e), free)
    decreases s, 2, Left(t.text, c), 2, 0
  {
    hide SameWays, WholeChars, BodyOf, Shows, Keeps, Resets, Rounded, NextTurns, Guard, Again;
    var l := GuardMeans(t, s, low, depth, c, k, e, free);
    var m := RoundOf(t, s, low, c, e);
    AgainMoved(p, t.text, c, l);
    AgainMeans(t, s, p, low, depth, c, l, m, free);
    SameSelf(t, Again(p, t.text, c, l), NextTurns(s, low, 0, JS_SHORTINT_MAX, t.text, c, m), c, k, e, free);
  }

  lemma {:induction false} AgainMeans(t: Setting, s: Source, p: Pattern, low: nat, depth: nat, c: nat, l: seq<Way>, m: seq<Way>, free: set<nat>)
    requires s.Quantified? && Fits(t, s, low) && SameWays(t, l, m, free) && Rounded(t, s, low, c, m)
    requires s.max == JS_SHORTINT_MAX
    requires p == Repeat(Guard(BodyOf(t, s, low, depth), !SurelyConsumes(s.body), 2 * t.count + depth), s.greedy)
    ensures SameWays(t, Again(p, t.text, c, l), NextTurns(s, low, 0, JS_SHORTINT_MAX, t.text, c, m), free)
    decreases s, 2, Left(t.text, c), 1, |l|
  {
    hide Shows, Keeps, Matches, Turns, BodyOf, Fits, Guard;
    if l != [] {
      SameTail(t, l, m, free);
      var w, v := l[0], m[0];
      assert v in m;
      AgainMeans(t, s, p, low, depth, c, l[1..], m[1..], free);
      var x := if c < w.at <= |t.text| then Matches(p, t.text, w.at, w.caps) else [];
      var y := if c < v.at <= |t.text| then Turns(s, low, 0, JS_SHORTINT_MAX, t.text, v.at, v.caps) else [];
      if c < w.at <= |t.text| { RepeatMeans(t, s, p, low, depth, w.at, w.caps, v.caps, free); }
      SameJoin(t, x, y, Again(p, t.text, c, l[1..]), NextTurns(s, low, 0, JS_SHORTINT_MAX, t.text, c, m[1..]), free);
    }
  }

  lemma PlusMeans(t: Setting, s: Source, p: Pattern, low: nat, depth: nat, c: nat, k: seq<nat>, e: seq<nat>, free: set<nat>)
    requires s.Quantified? && Fits(t, s, low) && c <= |t.text| && Shows(t, k, e, free) && Keeps(s, low, e)
    requires s.min == 1 && s.max == JS_SHORTINT_MAX && SurelyConsumes(s.body) && p == Plus(BodyOf(t, s, low, depth), s.greedy)
    ensures SameWays(t, Matches(p, t.text, c, k), Turns(s, low, 1, JS_SHORTINT_MAX, t.text, c, e), free)
    decreases s, 3, 0, 0, 0
  {
    hide SameWays, WholeChars, BodyOf, Shows, Keeps, Resets, Rounded, NextTurns, More;
    PlusRound(t, s, p, low, depth, 1, c, k, e, free);
  }

  lemma PlusRound(t: Setting, s: Source, p: Pattern, low: nat, depth: nat, lo: nat, c: nat, k: seq<nat>, e: seq<nat>, free: set<nat>)
    requires s.Quantified? && Fits(t, s, low) && c <= |t.text| && Shows(t, k, e, free) && Keeps(s, low, e) && lo <= 1
    requires s.min == 1 && s.max == JS_SHORTINT_MAX && SurelyConsumes(s.body) && p == Plus(BodyOf(t, s, low, depth), s.greedy)
    ensures SameWays(t, More(p, t.text, c, Matches(p.body, t.text, c, k)),
                     NextTurns(s, low, lo, JS_SHORTINT_MAX, t.text, c, RoundOf(t, s, low, c, e)), free)
    decreases s, 2, Left(t.text, c), 2, 0
  {
    hide SameWays, WholeChars, BodyOf, Shows, Keeps, Resets, Rounded, NextTurns, More, RoundOf, Matches;
    BodyMeans(t, s, low, depth, c, k, e, free);
    RoundLeaves(t, s, low, c, e);
    MoreMeans(t, s, p, low, depth, lo, c, Matches(p.body, t.text, c, k), RoundOf(t, s, low, c, e), free);
  }

  lemma {:induction false} MoreMeans(t: Setting, s: Source, p: Pattern, low: nat, depth: nat, lo: nat, c: nat, l: seq<Way>, m: seq<Way>, free: set<nat>)
    requires s.Quantified? && Fits(t, s, low) && SameWays(t, l, m, free) && Rounded(t, s, low, c, m) && lo <= 1
    requires s.min == 1 && s.max == JS_SHORTINT_MAX && SurelyConsumes(s.body) && p == Plus(BodyOf(t, s, low, depth), s.greedy)
    ensures SameWays(t, More(p, t.text, c, l), NextTurns(s, low, lo, JS_SHORTINT_MAX, t.text, c, m), free)
    decreases s, 2, Left(t.text, c), 1, |l|
  {
    hide Shows, Keeps, BodyOf, Fits, RoundOf, Means;
    if l != [] {
      SameTail(t, l, m, free);
      var w, v := l[0], m[0];
      assert v in m;
      MoreMeans(t, s, p, low, depth, lo, c, l[1..], m[1..], free);
      PlusRound(t, s, p, low, depth, 0, w.at, w.caps, v.caps, free);
      var x, y := Matches(p, t.text, w.at, w.caps), NextTurns(s, low, 0, JS_SHORTINT_MAX, t.text, v.at, RoundOf(t, s, low, v.at, v.caps));
      SameSelf(t, x, y, w.at, w.caps, v.caps, free);
      var once := if p.greedy then x + [w] else [w] + x;
      var turn := Turns(s, low, 0, JS_SHORTINT_MAX, t.text, v.at, v.caps);
      assert turn == if s.greedy then y + [v] else [v] + y by { TurnsOn(t, s, low, v.at, v.caps); }
      SameJoin(t, once, turn, More(p, t.text, c, l[1..]), NextTurns(s, low, lo, JS_SHORTINT_MAX, t.text, c, m[1..]), free);
    }
  }

  lemma TurnsOn(t: Setting, s: Source, low: nat, c: nat, e: seq<nat>)
    requires s.Quantified?
    ensures var y := NextTurns(s, low, 0, JS_SHORTINT_MAX, t.text, c, RoundOf(t, s, low, c, e));
            Turns(s, low, 0, JS_SHORTINT_MAX, t.text, c, e) == if s.greedy then y + [Way(c, e)] else [Way(c, e)] + y
  {
    hide NextTurns, Means;
  }

  // ---------- counted loops ----------

  /** Rounds the meaning still asks for when k are left in the counter. */
  function StillLow(s: Source, k: nat): nat
    requires s.Quantified? && s.min <= s.max
  {
    if k > s.max - s.min then k - (s.max - s.min) else 0
  }

  function StillHigh(s: Source, k: nat): nat
    requires s.Quantified?
  {
    if s.max == JS_SHORTINT_MAX then JS_SHORTINT_MAX else k
  }

  /** The counter does not run out before the subject does. */
  predicate Enough(t: Setting, s: Source, k: nat, c: nat)
    requires s.Quantified? && s.min <= s.max
  {
    k <= s.max && (s.max == JS_SHORTINT_MAX ==> k > StillLow(s, k) + Left(t.text, c))
  }

  predicate IsCounted(t: Setting, s: Source, p: Pattern, low: nat, depth: nat) {
    && s.Quantified? && s.min <= s.max <= JS_SHORTINT_MAX && s.max > 0
    && var check, slot := !SurelyConsumes(s.body), 2 * t.count + depth;
       p == Counted(BodyOf(t, s, low, depth), s.min, s.max, s.greedy, check && s.min != s.max, slot, slot + 1)
  }

  lemma CountedMeans(t: Setting, s: Source, p: Pattern, low: nat, depth: nat, c: nat, k: seq<nat>, e: seq<nat>, free: set<nat>)
    requires IsCounted(t, s, p, low, depth) && Fits(t, s, low) && c <= |t.text| && Shows(t, k, e, free) && Keeps(s, low, e)
    requires s.min == 0 || (s.min == 1 && SurelyConsumes(s.body)) ==> s.max < JS_SHORTINT_MAX
    ensures SameWays(t, Matches(p, t.text, c, k), Turns(s, low, s.min, s.max, t.text, c, e), free)
    decreases s, 3, 0, 0, 0
  {
    hide SameWays, WholeChars, BodyOf, Shows, Keeps, Resets, Rounds, NextTurns;
    var k' := Put(k, p.slot, p.max);
    ShowsPut(t, k, e, free, p.slot, p.max);
    RoundMeans(t, s, p, low, depth, p.max, c, k', e, free);
    var x := Rounds(p, p.max, t.text, c, Matches(p.body, t.text, c, RoundCaps(p, c, k')));
    var y := NextTurns(s, low, s.min, s.max, t.text, c, RoundOf(t, s, low, c, e));
    SameSelf(t, x, y, c, k, e, free);
  }

  lemma RoundMeans(t: Setting, s: Source, p: Pattern, low: nat, depth: nat, r: nat, c: nat, k: seq<nat>, e: seq<nat>, free: set<nat>)
    requires IsCounted(t, s, p, low, depth) && Fits(t, s, low) && c <= |t.text| && Shows(t, k, e, free) && Keeps(s, low, e)
    requires r > 0 && Enough(t, s, r, c)
    ensures SameWays(t, Rounds(p, r, t.text, c, Matches(p.body, t.text, c, RoundCaps(p, c, k))),
                     NextTurns(s, low, StillLow(s, r), StillHigh(s, r), t.text, c, RoundOf(t, s, low, c, e)), free)
    decreases s, 2, r, 2, 0
  {
    hide SameWays, WholeChars, BodyOf, Shows, Keeps, Resets, Rounds, NextTurns, RoundOf, Matches, Rounded, Enough;
    ShowsPut(t, k, e, free, p.mark, c);
    BodyMeans(t, s, low, depth, c, RoundCaps(p, c, k), e, free);
    RoundLeaves(t, s, low, c, e);
    RoundsMean(t, s, p, low, depth, r, c, Matches(p.body, t.text, c, RoundCaps(p, c, k)), RoundOf(t, s, low, c, e), free);
  }

  lemma {:induction false} RoundsMean(t: Setting, s: Source, p: Pattern, low: nat, depth: nat, r: nat, c: nat, l: seq<Way>, m: seq<Way>, free: set<nat>)
    requires IsCounted(t, s, p, low, depth) && Fits(t, s, low) && SameWays(t, l, m, free) && Rounded(t, s, low, c, m)
    requires r > 0 && Enough(t, s, r, c)
    ensures SameWays(t, Rounds(p, r, t.text, c, l), NextTurns(s, low, StillLow(s, r), StillHigh(s, r), t.text, c, m), free)
    decreases s, 2, r, 0, |l|
  {
    hide Shows, Keeps, BodyOf, Fits, Times, Turns, Means;
    if l != [] {
      SameTail(t, l, m, free);
      var w, v, lo, hi := l[0], m[0], StillLow(s, r), StillHigh(s, r);
      assert v in m;
      RoundsMean(t, s, p, low, depth, r, c, l[1..], m[1..], free);
      var x := if r <= Limit(p) && w.at == c then [] else Times(p, r - 1, t.text, w.at, Put(w.caps, p.slot, r - 1));
      var y := if lo > 0 then Turns(s, low, lo - 1, Fewer(hi), t.text, v.at, v.caps)
               else if c < v.at <= |t.text| then Turns(s, low, 0, Fewer(hi), t.text, v.at, v.caps) else [];
      if lo > 0 || w.at != c {
        ShowsPut(t, w.caps, v.caps, free, p.slot, r - 1);
        TimesMean(t, s, p, low, depth, r - 1, w.at, Put(w.caps, p.slot, r - 1), v.caps, free);
      }
      SameJoin(t, x, y, Rounds(p, r, t.text, c, l[1..]), NextTurns(s, low, lo, hi, t.text, c, m[1..]), free);
    }
  }

  lemma TimesMean(t: Setting, s: Source, p: Pattern, low: nat, depth: nat, r: nat, c: nat, k: seq<nat>, e: seq<nat>, free: set<nat>)
    requires IsCounted(t, s, p, low, depth) && Fits(t, s, low) && c <= |t.text| && Shows(t, k, e, free) && Keeps(s, low, e)
    requires Enough(t, s, r, c)
    ensures SameWays(t, Times(p, r, t.text, c, k), Turns(s, low, StillLow(s, r), StillHigh(s, r), t.text, c, e), free)
    decreases s, 2, r, 3, 0
  {
    hide SameWays, WholeChars, BodyOf, Shows, Keeps, Resets, Rounds, NextTurns, Fits, Matches, Means;
    var x := if r == 0 then [] else Rounds(p, r, t.text, c, Matches(p.body, t.text, c, RoundCaps(p, c, k)));
    var y := if r == 0 then []
             else NextTurns(s, low, StillLow(s, r), StillHigh(s, r), t.text, c, RoundOf(t, s, low, c, e));
    if r > 0 { RoundMeans(t, s, p, low, depth, r, c, k, e, free); } else { SameNone(t, free); }
    SameSelf(t, x, y, c, k, e, free);
  }

  lemma SameNone(t: Setting, free: set<nat>)
    ensures SameWays(t, [], [], free)
  {}
}
