/** What the matches of a written pattern are like: they stay within the subject and touch only the pattern's own captures. */
module RegexpSoundness {
  import opened Bytes
  import opened RegexpCode
  import opened RegexpPattern
  import opened RegexpScan
  import opened RegexpSource

  /** A match of s may change entry i of the captures. */
  predicate Changes(s: Source, low: nat, i: nat) {
    match s
    case Leaf(_) => false
    case Sequence(a, b) => Changes(a, low, i) || Changes(b, low + Groups(a), i)
    case Alternative(a, b) => Changes(a, low, i) || Changes(b, low + Groups(a), i)
    case Capture(b) => i == 2 * low || i == 2 * low + 1 || Changes(b, low + 1, i)
    case Ahead(_, b) => Changes(b, low, i)
    case Quantified(b, _, max, _) => max > 0 && 2 * low <= i < 2 * (low + Groups(b))
  }

  lemma {:induction false} ChangesOwn(s: Source, low: nat, i: nat)
    requires Changes(s, low, i)
    ensures 2 * low <= i < 2 * (low + Groups(s))
  {
    match s
    case Sequence(a, b) => if Changes(a, low, i) { ChangesOwn(a, low, i); } else { ChangesOwn(b, low + Groups(a), i); }
    case Alternative(a, b) => if Changes(a, low, i) { ChangesOwn(a, low, i); } else { ChangesOwn(b, low + Groups(a), i); }
    case Capture(b) => if Changes(b, low + 1, i) { ChangesOwn(b, low + 1, i); }
    case Ahead(_, b) => ChangesOwn(b, low, i);
    case Quantified(_, _, _, _) =>
  }

  lemma {:induction false} MeansSound(s: Source, low: nat, text: seq<byte>, c: nat, caps: seq<nat>, i: nat)
    requires Valid(s) && WholeChars(text)
    ensures AllSound(Means(s, low, text, c, caps), text, c, caps, i, Changes(s, low, i))
    decreases s, MeansRank(s), 0, 3, 0
  {
    hide AllSound;
    var written := Changes(s, low, i);
    match s
    case Leaf(p) => SimpleSound(p, text, c, caps, i);
    case Sequence(_, _) => SequenceSound(s, low, text, c, caps, i);
    case Alternative(_, _) => AlternativeSound(s, low, text, c, caps, i);
    case Capture(_) => CaptureSound(s, low, text, c, caps, i);
    case Ahead(negative, b) =>
      MeansSound(b, low, text, c, caps, i);
      LookSound(Means(b, low, text, c, caps), Means(s, low, text, c, caps), negative, text, c, caps, i, written);
    case Quantified(_, min, max, _) =>
      TurnsSound(s, low, min, max, text, c, caps, i, written);
  }

  lemma SequenceSound(s: Source, low: nat, text: seq<byte>, c: nat, caps: seq<nat>, i: nat)
    requires s.Sequence? && Valid(s) && WholeChars(text)
    ensures AllSound(Means(s, low, text, c, caps), text, c, caps, i, Changes(s, low, i))
    decreases s, 0, 0, 2, 0
  {
    hide AllSound, WholeChars;
    var a, b, written := s.first, s.second, Changes(s, low, i);
    var l := Means(a, low, text, c, caps);
    MeansSound(a, low, text, c, caps, i);
    MoreWritten(l, text, c, caps, i, Changes(a, low, i), written);
    SequelSound(b, low + Groups(a), text, l, c, caps, i, written);
  }

  lemma AlternativeSound(s: Source, low: nat, text: seq<byte>, c: nat, caps: seq<nat>, i: nat)
    requires s.Alternative? && Valid(s) && WholeChars(text)
    ensures AllSound(Means(s, low, text, c, caps), text, c, caps, i, Changes(s, low, i))
    decreases s, 0, 0, 2, 0
  {
    hide AllSound, WholeChars;
    var a, b, written := s.left, s.right, Changes(s, low, i);
    var l, m := Means(a, low, text, c, caps), Means(b, low + Groups(a), text, c, caps);
    MeansSound(a, low, text, c, caps, i);
    MeansSound(b, low + Groups(a), text, c, caps, i);
    MoreWritten(l, text, c, caps, i, Changes(a, low, i), written);
    MoreWritten(m, text, c, caps, i, Changes(b, low + Groups(a), i), written);
    SoundJoin(l, m, text, c, caps, i, written);
  }

  lemma CaptureSound(s: Source, low: nat, text: seq<byte>, c: nat, caps: seq<nat>, i: nat)
    requires s.Capture? && Valid(s) && WholeChars(text)
    ensures AllSound(Means(s, low, text, c, caps), text, c, caps, i, Changes(s, low, i))
    decreases s, 0, 0, 2, 0
  {
    hide AllSound, WholeChars;
    var b, written := s.body, Changes(s, low, i);
    var l := Means(b, low + 1, text, c, Put(caps, 2 * low, c));
    MeansSound(b, low + 1, text, c, Put(caps, 2 * low, c), i);
    PutSound(l, 2 * low, c, text, c, caps, i, Changes(b, low + 1, i));
    MoreWritten(l, text, c, caps, i, Changes(b, low + 1, i) || i == 2 * low, written);
    PutAllSound(l, 2 * low + 1, text, c, caps, i, written);
  }

  lemma {:induction false} SequelSound(s: Source, low: nat, text: seq<byte>, l: seq<Way>, c: nat, caps: seq<nat>, i: nat, written: bool)
    requires Valid(s) && WholeChars(text) && AllSound(l, text, c, caps, i, written) && (Changes(s, low, i) ==> written)
    ensures AllSound(Sequel(s, low, text, l), text, c, caps, i, written)
    decreases s, MeansRank(s) + 1, 0, 0, |l|
  {
    hide Means;
    if l != [] {
      var m := Means(s, low, text, l[0].at, l[0].caps);
      assert Sound(l[0], text, c, caps, i, written);
      MeansSound(s, low, text, l[0].at, l[0].caps, i);
      SoundAfter(m, l[0], text, c, caps, i, written, Changes(s, low, i));
      SequelSound(s, low, text, l[1..], c, caps, i, written);
      SoundJoin(m, Sequel(s, low, text, l[1..]), text, c, caps, i, written);
    }
  }

  lemma NoneSound(text: seq<byte>, c: nat, caps: seq<nat>, i: nat, written: bool)
    ensures AllSound([], text, c, caps, i, written)
  {}

  lemma ResetSound(l: seq<Way>, low: nat, g: nat, text: seq<byte>, c: nat, caps: seq<nat>, i: nat, written: bool)
    requires AllSound(l, text, c, Reset(caps, low, g), i, written)
    ensures AllSound(l, text, c, caps, i, written || 2 * low <= i < 2 * (low + g))
  {
    forall k | 0 <= k < |l| ensures Sound(l[k], text, c, caps, i, written || 2 * low <= i < 2 * (low + g)) {
      assert Sound(l[k], text, c, Reset(caps, low, g), i, written);
    }
  }

  lemma {:induction false} TurnsSound(s: Source, low: nat, lo: nat, hi: nat, text: seq<byte>, c: nat, caps: seq<nat>, i: nat, written: bool)
    requires s.Quantified? && Valid(s) && WholeChars(text)
    requires hi > 0 && 2 * low <= i < 2 * (low + Groups(s)) ==> written
    ensures AllSound(Turns(s, low, lo, hi, text, c, caps), text, c, caps, i, written)
    decreases s, lo, Left(text, c), 2, 0
  {
    hide AllSound, Means, Reset, NextTurns;
    var b, g := s.body, Groups(s.body);
    var l := if hi == 0 then [] else NextTurns(s, low, lo, hi, text, c, Means(b, low, text, c, Reset(caps, low, g)));
    NoneSound(text, c, caps, i, written);
    if hi > 0 {
      var m := Means(b, low, text, c, Reset(caps, low, g));
      MeansSound(b, low, text, c, Reset(caps, low, g), i);
      ResetSound(m, low, g, text, c, caps, i, Changes(b, low, i));
      if Changes(b, low, i) { ChangesOwn(b, low, i); }
      MoreWritten(m, text, c, caps, i, Changes(b, low, i) || 2 * low <= i < 2 * (low + g), written);
      NextTurnsSound(s, low, lo, hi, text, c, m, c, caps, i, written);
    }
    WithSelf(l, text, c, caps, i, written);
  }

  lemma {:induction false} NextTurnsSound(s: Source, low: nat, lo: nat, hi: nat, text: seq<byte>, c: nat, l: seq<Way>,
                                          from: nat, caps: seq<nat>, i: nat, written: bool)
    requires s.Quantified? && Valid(s) && WholeChars(text) && AllSound(l, text, from, caps, i, written)
    requires hi > 0 && 2 * low <= i < 2 * (low + Groups(s)) ==> written
    ensures AllSound(NextTurns(s, low, lo, hi, text, c, l), text, from, caps, i, written)
    decreases s, lo, Left(text, c), 0, |l|
  {
    hide Turns;
    if l != [] {
      var w := l[0];
      assert Sound(w, text, from, caps, i, written);
      var m := if lo > 0 then Turns(s, low, lo - 1, Fewer(hi), text, w.at, w.caps)
               else if c < w.at <= |text| then Turns(s, low, 0, Fewer(hi), text, w.at, w.caps) else [];
      if lo > 0 {
        TurnsSound(s, low, lo - 1, Fewer(hi), text, w.at, w.caps, i, written);
      } else if c < w.at <= |text| {
        TurnsSound(s, low, 0, Fewer(hi), text, w.at, w.caps, i, written);
      }
      SoundAfter(m, w, text, from, caps, i, written, written);
      NextTurnsSound(s, low, lo, hi, text, c, l[1..], from, caps, i, written);
      SoundJoin(m, NextTurns(s, low, lo, hi, text, c, l[1..]), text, from, caps, i, written);
    }
  }

  // ---------- terms that surely consume ----------

  lemma {:induction false} SequelPast(s: Source, low: nat, text: seq<byte>, l: seq<Way>, c: nat)
    requires Valid(s) && WholeChars(text)
    requires forall k | 0 <= k < |l| :: l[k].at >= c
    requires AllPast(l, c) || SurelyConsumes(s)
    ensures AllPast(Sequel(s, low, text, l), c)
    decreases s, 1, |l|
  {
    hide Means, CharAt, WholeChars;
    if l != [] {
      var m := Means(s, low, text, l[0].at, l[0].caps);
      MeansSound(s, low, text, l[0].at, l[0].caps, 0);
      if SurelyConsumes(s) { MeansMoves(s, low, text, l[0].at, l[0].caps); }
      forall k | 0 <= k < |m| ensures m[k].at > c {
        assert Sound(m[k], text, l[0].at, l[0].caps, 0, Changes(s, low, 0));
      }
      SequelPast(s, low, text, l[1..], c);
    }
  }

  lemma {:induction false} NextTurnsPast(s: Source, low: nat, lo: nat, hi: nat, text: seq<byte>, c: nat, l: seq<Way>)
    requires s.Quantified? && Valid(s) && WholeChars(text) && lo > 0 && AllPast(l, c)
    ensures AllPast(NextTurns(s, low, lo, hi, text, c, l), c)
    decreases |l|
  {
    hide Turns, CharAt, WholeChars;
    if l != [] {
      var w := l[0];
      var m := Turns(s, low, lo - 1, Fewer(hi), text, w.at, w.caps);
      TurnsSound(s, low, lo - 1, Fewer(hi), text, w.at, w.caps, 0, true);
      forall k | 0 <= k < |m| ensures m[k].at > c {
        assert Sound(m[k], text, w.at, w.caps, 0, true);
      }
      NextTurnsPast(s, low, lo, hi, text, c, l[1..]);
    }
  }

  /** A term the scan sees consuming never matches without moving on. */
  lemma {:induction false} MeansMoves(s: Source, low: nat, text: seq<byte>, c: nat, caps: seq<nat>)
    requires Valid(s) && WholeChars(text) && SurelyConsumes(s)
    ensures AllPast(Means(s, low, text, c, caps), c)
    decreases s, 0, 0
  {
    hide CharAt, WholeChars, NextTurns, Sequel;
    match s
    case Leaf(p) => LeafMoves(p, text, c, caps);
    case Sequence(a, b) =>
      var l := Means(a, low, text, c, caps);
      MeansSound(a, low, text, c, caps, 0);
      forall k | 0 <= k < |l| ensures l[k].at >= c {
        assert Sound(l[k], text, c, caps, 0, Changes(a, low, 0));
      }
      if SurelyConsumes(a) { MeansMoves(a, low, text, c, caps); }
      SequelPast(b, low + Groups(a), text, l, c);
    case Capture(b) =>
      MeansMoves(b, low + 1, text, c, Put(caps, 2 * low, c));
      PutAllPast(Means(b, low + 1, text, c, Put(caps, 2 * low, c)), 2 * low + 1, c);
    case Quantified(b, min, max, _) =>
      var m := Means(b, low, text, c, Reset(caps, low, Groups(b)));
      MeansMoves(b, low, text, c, Reset(caps, low, Groups(b)));
      NextTurnsPast(s, low, min, max, text, c, m);
  }

  lemma LeafMoves(p: Pattern, text: seq<byte>, c: nat, caps: seq<nat>)
    requires IsLeaf(p) && Encodable(p, 0) && Consumes(p)
    ensures AllPast(Matches(p, text, c, caps), c)
  {
    hide CharAt, IsLineTerminator, RangeMatches;
  }
}
