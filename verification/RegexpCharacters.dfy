/** What a pattern means of a text of characters: section 15.10.2 of ECMA-262 with positions counted in characters, and that
    this is what `RegexpSource.Means` says of the bytes that encode the text. */
module RegexpCharacters {
  import opened Bytes
  import opened Options
  import opened RegexpCode
  import opened RegexpPattern
  import opened RegexpProgram
  import opened RegexpRegisters
  import opened RegexpSource
  import opened RegexpEmit
  import opened RegexpAnswer
  import opened RegexpText

  // ---------- meaning ----------

  /** A pattern whose literal characters are encoded code points. */
  ghost predicate Lettered(s: Source) {
    match s
    case Leaf(p) => IsLeaf(p) && (p.Chars? ==> exists c :: p.bytes == Utf8(c))
    case Sequence(a, b) => Lettered(a) && Lettered(b)
    case Alternative(a, b) => Lettered(a) && Lettered(b)
    case Capture(b) => Lettered(b)
    case Ahead(_, b) => Lettered(b)
    case Quantified(b, _, _, _) => Lettered(b)
  }

  /** Where a leaf found before character k goes on; a back reference to an undefined or empty capture is found anywhere. */
  function LeafMeans(p: Pattern, cs: seq<CodePoint>, k: nat, caps: seq<nat>): Option<nat>
    requires IsLeaf(p) && k <= |cs|
  {
    match p
    case Empty => Some(k)
    case Chars(bytes) => Next(k < |cs| && Utf8(cs[k]) == bytes, k + 1)
    case Symbol(sym) => SymbolMeans(sym, cs, k)
    case Class(t) => Next(k < |cs| && InClass(t, cs[k]), k + 1)
    case BackRef(g, fold) =>
      if 2 * g + 1 >= |caps| then None
      else
        var i, j := caps[2 * g], caps[2 * g + 1];
        if i >= j || j > |cs| then Some(k) else Next(RegexpText.Again(cs, i, j, k, fold), k + (j - i))
  }

  function Left(cs: seq<CodePoint>, k: nat): nat { if k <= |cs| then |cs| - k else 0 }

  /** All matches of s from character k, the preferred first. */
  function Meaning(s: Source, low: nat, cs: seq<CodePoint>, k: nat, caps: seq<nat>): seq<Way>
    decreases s, MeansRank(s), 0, 1, 0
  {
    match s
    case Leaf(p) => if IsLeaf(p) && k <= |cs| then Perhaps(LeafMeans(p, cs, k, caps), caps) else []
    case Sequence(a, b) => Onward(b, low + Groups(a), cs, Meaning(a, low, cs, k, caps))
    case Alternative(a, b) => Meaning(a, low, cs, k, caps) + Meaning(b, low + Groups(a), cs, k, caps)
    case Capture(b) => PutAll(Meaning(b, low + 1, cs, k, Put(caps, 2 * low, k)), 2 * low + 1)
    case Ahead(negative, b) =>
      var l := Meaning(b, low, cs, k, caps);
      if negative then One(l == [], k, caps) else if l == [] then [] else [Way(k, l[0].caps)]
    case Quantified(_, min, max, _) => Rounds(s, low, min, max, cs, k, caps)
  }

  function Onward(s: Source, low: nat, cs: seq<CodePoint>, l: seq<Way>): seq<Way>
    decreases s, MeansRank(s) + 1, 0, 0, |l|
  {
    if l == [] then [] else Meaning(s, low, cs, l[0].at, l[0].caps) + Onward(s, low, cs, l[1..])
  }

  /** RepeatMatcher of section 15.10.2.5. */
  function Rounds(s: Source, low: nat, lo: nat, hi: nat, cs: seq<CodePoint>, k: nat, caps: seq<nat>): seq<Way>
    requires s.Quantified?
    decreases s, lo, Left(cs, k), 1, 0
  {
    var l := if hi == 0 then []
             else NextRounds(s, low, lo, hi, cs, k, Meaning(s.body, low, cs, k, Reset(caps, low, Groups(s.body))));
    if lo > 0 then l else if s.greedy then l + [Way(k, caps)] else [Way(k, caps)] + l
  }

  function NextRounds(s: Source, low: nat, lo: nat, hi: nat, cs: seq<CodePoint>, k: nat, l: seq<Way>): seq<Way>
    requires s.Quantified?
    decreases s, lo, Left(cs, k), 0, |l|
  {
    if l == [] then []
    else
      (if lo > 0 then Rounds(s, low, lo - 1, Fewer(hi), cs, l[0].at, l[0].caps)
       else if k < l[0].at <= |cs| then Rounds(s, low, 0, Fewer(hi), cs, l[0].at, l[0].caps)
       else [])
      + NextRounds(s, low, lo, hi, cs, k, l[1..])
  }

  // ---------- characters and bytes ----------

  /** Positions in the text, or undefined. */
  predicate Indices(cs: seq<CodePoint>, caps: seq<nat>) { forall i :: 0 <= i < |caps| ==> caps[i] <= |cs| || caps[i] == UNSET }

  /** The byte positions of captures. */
  function InBytes(cs: seq<CodePoint>, caps: seq<nat>): seq<nat> {
    seq(|caps|, i requires 0 <= i < |caps| => if caps[i] <= |cs| then Offset(cs, caps[i]) else UNSET)
  }

  predicate IndexWays(cs: seq<CodePoint>, l: seq<Way>) { forall i :: 0 <= i < |l| ==> l[i].at <= |cs| && Indices(cs, l[i].caps) }

  function WaysInBytes(cs: seq<CodePoint>, l: seq<Way>): seq<Way>
    requires IndexWays(cs, l)
  {
    seq(|l|, i requires 0 <= i < |l| => Way(Offset(cs, l[i].at), InBytes(cs, l[i].caps)))
  }

  /** The text is short enough for a position to be no undefined capture. */
  predicate Short(cs: seq<CodePoint>) { |Encoded(cs)| < UNSET }

  lemma ShortOffsets(cs: seq<CodePoint>, k: nat)
    requires Short(cs) && k <= |cs|
    ensures Offset(cs, k) < UNSET && |cs| < UNSET
  {
    hide Encoded, Offset;
    OffsetsGrow(cs, k, |cs|);
    OffsetsGrow(cs, 0, |cs|);
  }

  lemma LeafReads(p: Pattern, cs: seq<CodePoint>, k: nat, caps: seq<nat>)
    requires IsLeaf(p) && (p.Chars? ==> exists c :: p.bytes == Utf8(c)) && k <= |cs| && Indices(cs, caps) && Short(cs)
    ensures var at := LeafMeans(p, cs, k, caps);
            && (at.Some? ==> at.value <= |cs|)
            && Matches(p, Encoded(cs), Offset(cs, k), InBytes(cs, caps)) == Perhaps(OffsetOf(cs, at), InBytes(cs, caps))
  {
    hide Utf8, Encoded, Offset, InClass, SymbolEnd, SymbolMeans, SameText, RegexpText.Again;
    match p
    case Chars(bytes) =>
      var c :| bytes == Utf8(c);
      CharReads(c, cs, k, InBytes(cs, caps));
      if k < |cs| { Utf8Once(c, cs[k]); }
    case Symbol(sym) => SymbolReads(sym, cs, k);
    case Class(t) => ClassReads(t, cs, k, InBytes(cs, caps));
    case BackRef(g, fold) =>
      if 2 * g + 1 < |caps| {
        BackRefReads(cs, caps[2 * g], caps[2 * g + 1], k, fold, InBytes(cs, caps), g);
        AgainFits(cs, caps[2 * g], caps[2 * g + 1], k, fold);
      }
    case Empty =>
  }

  lemma AgainFits(cs: seq<CodePoint>, i: nat, j: nat, k: nat, fold: bool)
    ensures i <= j <= |cs| && RegexpText.Again(cs, i, j, k, fold) ==> k + (j - i) <= |cs|
  {}

  /** No two characters are encoded alike. */
  lemma Utf8Once(c: CodePoint, d: CodePoint)
    ensures Utf8(c) == Utf8(d) <==> c == d
  {
    hide Utf8, CharAt;
    if Utf8(c) == Utf8(d) {
      var s := Utf8(c);
      assert s[0..0 + |s|] == s;
      CharAtReads(s, 0, c);
      CharAtReads(s, 0, d);
    }
  }

  lemma BackRefReads(cs: seq<CodePoint>, i: nat, j: nat, k: nat, fold: bool, bytes: seq<nat>, g: nat)
    requires (i <= |cs| || i == UNSET) && (j <= |cs| || j == UNSET) && k <= |cs| && Short(cs) && 2 * g + 1 < |bytes|
    requires bytes[2 * g] == if i <= |cs| then Offset(cs, i) else UNSET
    requires bytes[2 * g + 1] == if j <= |cs| then Offset(cs, j) else UNSET
    ensures Repeated(Encoded(cs), bytes, g, Offset(cs, k), fold)
            == if i >= j || j > |cs| then Some(Offset(cs, k))
               else if RegexpText.Again(cs, i, j, k, fold) then Some(Offset(cs, k + (j - i))) else None
  {
    hide Encoded, Offset, CharAt, Canonical, RegexpText.Again;
    ShortOffsets(cs, 0);
    if i <= |cs| { ShortOffsets(cs, i); }
    if j <= |cs| { ShortOffsets(cs, j); }
    if i <= |cs| && j <= |cs| {
      OffsetSame(cs, i, j);
      OffsetSame(cs, j, i);
      if i < j { SameTextReads(cs, i, j, k, fold); }
    }
  }

  lemma PutReads(cs: seq<CodePoint>, caps: seq<nat>, i: nat, k: nat)
    requires Indices(cs, caps) && k <= |cs|
    ensures Indices(cs, Put(caps, i, k)) && InBytes(cs, Put(caps, i, k)) == Put(InBytes(cs, caps), i, Offset(cs, k))
  {
    hide Offset;
  }

  lemma ResetReads(cs: seq<CodePoint>, caps: seq<nat>, low: nat, g: nat)
    requires Indices(cs, caps) && |cs| < UNSET
    ensures Indices(cs, Reset(caps, low, g)) && InBytes(cs, Reset(caps, low, g)) == Reset(InBytes(cs, caps), low, g)
  {
    hide Offset;
  }

  lemma WaysJoin(cs: seq<CodePoint>, l: seq<Way>, m: seq<Way>)
    requires IndexWays(cs, l) && IndexWays(cs, m)
    ensures IndexWays(cs, l + m) && WaysInBytes(cs, l + m) == WaysInBytes(cs, l) + WaysInBytes(cs, m)
  {
    hide Offset, Indices, InBytes;
  }

  lemma OneWay(cs: seq<CodePoint>, k: nat, caps: seq<nat>)
    requires k <= |cs| && Indices(cs, caps)
    ensures IndexWays(cs, [Way(k, caps)]) && WaysInBytes(cs, [Way(k, caps)]) == [Way(Offset(cs, k), InBytes(cs, caps))]
  {
    hide Offset, Indices, InBytes;
  }

  lemma FirstWay(cs: seq<CodePoint>, l: seq<Way>)
    requires IndexWays(cs, l)
    ensures |WaysInBytes(cs, l)| == |l|
    ensures l != [] ==> && l[0].at <= |cs| && Indices(cs, l[0].caps) && IndexWays(cs, l[1..])
                        && WaysInBytes(cs, l)[0] == Way(Offset(cs, l[0].at), InBytes(cs, l[0].caps))
                        && WaysInBytes(cs, l)[1..] == WaysInBytes(cs, l[1..])
  {
    hide Offset, Indices, InBytes;
  }

  lemma {:induction false} PutAllReads(cs: seq<CodePoint>, l: seq<Way>, i: nat)
    requires IndexWays(cs, l)
    ensures IndexWays(cs, PutAll(l, i)) && WaysInBytes(cs, PutAll(l, i)) == PutAll(WaysInBytes(cs, l), i)
    decreases |l|
  {
    hide Offset, Indices, InBytes, WaysInBytes, IndexWays, Put;
    FirstWay(cs, l);
    if l == [] {
      NoWays(cs);
    } else {
      var w := l[0];
      PutReads(cs, w.caps, i, w.at);
      OneWay(cs, w.at, Put(w.caps, i, w.at));
      PutAllReads(cs, l[1..], i);
      WaysJoin(cs, [Way(w.at, Put(w.caps, i, w.at))], PutAll(l[1..], i));
    }
  }

  lemma NoWays(cs: seq<CodePoint>)
    ensures IndexWays(cs, []) && WaysInBytes(cs, []) == []
  {}

  // ---------- patterns ----------

  /** The matches in the bytes are those in the characters. */
  lemma {:induction false} MeaningReads(s: Source, low: nat, cs: seq<CodePoint>, k: nat, caps: seq<nat>)
    requires Lettered(s) && Short(cs) && k <= |cs| && Indices(cs, caps)
    ensures var l := Meaning(s, low, cs, k, caps);
            IndexWays(cs, l) && Means(s, low, Encoded(cs), Offset(cs, k), InBytes(cs, caps)) == WaysInBytes(cs, l)
    decreases s, MeansRank(s), 0, 1, 0
  {
    hide Encoded, Offset, Indices, IndexWays, InBytes, WaysInBytes, Short, LeafMeans, Matches, Onward, Sequel, Rounds, Turns, PutAll, Put;
    NoWays(cs);
    match s
    case Leaf(p) =>
      LeafReads(p, cs, k, caps);
      var at := LeafMeans(p, cs, k, caps);
      if at.Some? { OneWay(cs, at.value, caps); }
    case Sequence(a, b) =>
      MeaningReads(a, low, cs, k, caps);
      OnwardReads(b, low + Groups(a), cs, Meaning(a, low, cs, k, caps));
    case Alternative(a, b) =>
      MeaningReads(a, low, cs, k, caps);
      MeaningReads(b, low + Groups(a), cs, k, caps);
      WaysJoin(cs, Meaning(a, low, cs, k, caps), Meaning(b, low + Groups(a), cs, k, caps));
    case Capture(b) =>
      PutReads(cs, caps, 2 * low, k);
      MeaningReads(b, low + 1, cs, k, Put(caps, 2 * low, k));
      PutAllReads(cs, Meaning(b, low + 1, cs, k, Put(caps, 2 * low, k)), 2 * low + 1);
    case Ahead(negative, b) =>
      MeaningReads(b, low, cs, k, caps);
      var l := Meaning(b, low, cs, k, caps);
      FirstWay(cs, l);
      OneWay(cs, k, caps);
      if l != [] { OneWay(cs, k, l[0].caps); }
    case Quantified(_, min, max, _) => RoundsRead(s, low, min, max, cs, k, caps);
  }

  lemma {:induction false} OnwardReads(s: Source, low: nat, cs: seq<CodePoint>, l: seq<Way>)
    requires Lettered(s) && Short(cs) && IndexWays(cs, l)
    ensures var m := Onward(s, low, cs, l);
            IndexWays(cs, m) && Sequel(s, low, Encoded(cs), WaysInBytes(cs, l)) == WaysInBytes(cs, m)
    decreases s, MeansRank(s) + 1, 0, 0, |l|
  {
    hide Encoded, Offset, Indices, IndexWays, InBytes, WaysInBytes, Short, Meaning, Means;
    NoWays(cs);
    FirstWay(cs, l);
    if l != [] {
      MeaningReads(s, low, cs, l[0].at, l[0].caps);
      OnwardReads(s, low, cs, l[1..]);
      WaysJoin(cs, Meaning(s, low, cs, l[0].at, l[0].caps), Onward(s, low, cs, l[1..]));
    }
  }

  lemma {:induction false} RoundsRead(s: Source, low: nat, lo: nat, hi: nat, cs: seq<CodePoint>, k: nat, caps: seq<nat>)
    requires s.Quantified? && Lettered(s) && Short(cs) && k <= |cs| && Indices(cs, caps)
    ensures var l := Rounds(s, low, lo, hi, cs, k, caps);
            IndexWays(cs, l) && Turns(s, low, lo, hi, Encoded(cs), Offset(cs, k), InBytes(cs, caps)) == WaysInBytes(cs, l)
    decreases s, lo, Left(cs, k), 1, 0
  {
    hide Encoded, Offset, Indices, IndexWays, InBytes, WaysInBytes, Short, Meaning, Means, NextRounds, NextTurns, Reset;
    NoWays(cs);
    OneWay(cs, k, caps);
    var fresh' := Reset(caps, low, Groups(s.body));
    var body := Meaning(s.body, low, cs, k, fresh');
    var l := if hi == 0 then [] else NextRounds(s, low, lo, hi, cs, k, body);
    if hi != 0 {
      assert |cs| < UNSET by { ShortOffsets(cs, k); }
      ResetReads(cs, caps, low, Groups(s.body));
      MeaningReads(s.body, low, cs, k, fresh');
      NextRoundsRead(s, low, lo, hi, cs, k, body);
    }
    WaysJoin(cs, l, [Way(k, caps)]);
    WaysJoin(cs, [Way(k, caps)], l);
  }

  lemma {:induction false} NextRoundsRead(s: Source, low: nat, lo: nat, hi: nat, cs: seq<CodePoint>, k: nat, l: seq<Way>)
    requires s.Quantified? && Lettered(s) && Short(cs) && k <= |cs| && IndexWays(cs, l)
    ensures var m := NextRounds(s, low, lo, hi, cs, k, l);
            IndexWays(cs, m) && NextTurns(s, low, lo, hi, Encoded(cs), Offset(cs, k), WaysInBytes(cs, l)) == WaysInBytes(cs, m)
    decreases s, lo, Left(cs, k), 0, |l|
  {
    hide Encoded, Offset, Indices, IndexWays, InBytes, WaysInBytes, Short, Rounds, Turns;
    NoWays(cs);
    FirstWay(cs, l);
    if l != [] {
      var w := l[0];
      OffsetSame(cs, k, w.at);
      OffsetsGrow(cs, w.at, |cs|);
      var first := if lo > 0 then Rounds(s, low, lo - 1, Fewer(hi), cs, w.at, w.caps)
                   else if k < w.at <= |cs| then Rounds(s, low, 0, Fewer(hi), cs, w.at, w.caps)
                   else [];
      if lo > 0 {
        RoundsRead(s, low, lo - 1, Fewer(hi), cs, w.at, w.caps);
      } else if k < w.at <= |cs| {
        RoundsRead(s, low, 0, Fewer(hi), cs, w.at, w.caps);
      }
      NextRoundsRead(s, low, lo, hi, cs, k, l[1..]);
      WaysJoin(cs, first, NextRounds(s, low, lo, hi, cs, k, l[1..]));
    }
  }

  // ---------- answers ----------

  /** The preferred match at the first character that has one. */
  function FirstCharacter(s: Source, cs: seq<CodePoint>, k: nat): Option<Way>
    decreases Left(cs, k)
  {
    var l := Meaning(Capture(s), 0, cs, k, Undefined(Captures(s)));
    if l != [] then Some(l[0])
    else if k < |cs| then FirstCharacter(s, cs, k + 1)
    else None
  }

  /** What RegExp.prototype.exec should find in a text from character k on, by section 15.10.6.2. */
  function CharacterAnswer(sticky: bool, s: Source, cs: seq<CodePoint>, k: nat): Option<Way> {
    if sticky then First(Meaning(Capture(s), 0, cs, k, Undefined(Captures(s)))) else FirstCharacter(s, cs, k)
  }

  /** The same match in the bytes. */
  ghost predicate SameAnswer(cs: seq<CodePoint>, a: Option<Way>, b: Option<Way>) {
    if a.None? then b.None?
    else a.value.at <= |cs| && Indices(cs, a.value.caps) && b == Some(Way(Offset(cs, a.value.at), InBytes(cs, a.value.caps)))
  }

  lemma UndefinedReads(cs: seq<CodePoint>, n: nat)
    requires |cs| < UNSET
    ensures Indices(cs, Undefined(n)) && InBytes(cs, Undefined(n)) == Undefined(n)
  {
    hide Offset;
  }

  lemma AtCharacter(s: Source, cs: seq<CodePoint>, k: nat)
    requires Lettered(s) && Short(cs) && k <= |cs|
    ensures var l, m := Meaning(Capture(s), 0, cs, k, Undefined(Captures(s))),
                        Means(Capture(s), 0, Encoded(cs), Offset(cs, k), Undefined(Captures(s)));
            SameAnswer(cs, First(l), First(m)) && (l == [] <==> m == [])
  {
    hide Encoded, Offset, Meaning, Means, Undefined, IndexWays, WaysInBytes;
    ShortOffsets(cs, k);
    UndefinedReads(cs, Captures(s));
    MeaningReads(Capture(s), 0, cs, k, Undefined(Captures(s)));
    FirstWay(cs, Meaning(Capture(s), 0, cs, k, Undefined(Captures(s))));
  }

  lemma {:induction false} FirstCharacterReads(s: Source, cs: seq<CodePoint>, k: nat)
    requires Lettered(s) && Short(cs) && k <= |cs|
    ensures SameAnswer(cs, FirstCharacter(s, cs, k), SourceLeftmost(s, Encoded(cs), Offset(cs, k)))
    decreases |cs| - k
  {
    hide Encoded, Offset, Meaning, Means, Undefined, CharAt, SameAnswer;
    AtCharacter(s, cs, k);
    if k < |cs| {
      CharAtOffset(cs, k);
      FirstCharacterReads(s, cs, k + 1);
    } else {
      OffsetEnd(cs);
      NoAnswer(cs);
    }
  }

  lemma NoAnswer(cs: seq<CodePoint>)
    ensures SameAnswer(cs, None, None)
  {}

  /** What the match in the bytes of an encoded text should be is the match in its characters. */
  lemma AnswerReads(sticky: bool, s: Source, cs: seq<CodePoint>, k: nat)
    requires Lettered(s) && |Encoded(cs)| <= JS_STRING_LEN_MAX && k <= |cs|
    ensures WholeChars(Encoded(cs))
    ensures SameAnswer(cs, CharacterAnswer(sticky, s, cs, k), SourceAnswer(sticky, s, Encoded(cs), Offset(cs, k)))
  {
    hide Encoded, Offset, Meaning, Means, Undefined, CharAt, SameAnswer, FirstCharacter, SourceLeftmost, WholeChars;
    EncodedWhole(cs);
    if sticky { AtCharacter(s, cs, k); } else { FirstCharacterReads(s, cs, k); }
  }
}
