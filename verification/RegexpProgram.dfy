/** Whole programs as js_parse_regexp lays them out, and what lre_exec finds with them. */
module RegexpProgram {
  import opened Bytes
  import opened Options
  import opened RegexpCode
  import opened RegexpPattern
  import opened RegexpMeaning
  import opened RegexpStack
  import opened RegexpVM

  const HEADER: nat := 4

  /** The prefix that retries one character later: split, any, back to the split. */
  function SearchPrefix(): seq<byte> { Jump(14, 6) + [6] + Jump(13, -11) }

  /** Header, search prefix unless sticky, and the pattern saved as capture 0. */
  function Layout(header: seq<byte>, sticky: bool, p: Pattern, count: nat): seq<byte>
    requires Encodable(Group(0, p), count) && CodeSize(Group(0, p)) < MAX_CODE
  {
    header + (if sticky then [] else SearchPrefix()) + Compile(Group(0, p), count) + [16]
  }

  function BodyStart(sticky: bool): nat { if sticky then HEADER else HEADER + 11 }

  ghost predicate IsProgram(g: Program, sticky: bool, p: Pattern, n: nat) {
    && Compilable(Group(0, p), g.count, n) && CodeSize(Group(0, p)) < MAX_CODE && WholeChars(g.text)
    && |g.code| >= HEADER && g.code == Layout(g.code[..HEADER], sticky, p, g.count)
  }

  /** The preferred match at the leftmost place where there is one. */
  function Leftmost(p: Pattern, text: seq<byte>, c: nat, caps: seq<nat>): Option<Way>
    decreases |text| - c
  {
    var l := Matches(Group(0, p), text, c, caps);
    if l != [] then Some(l[0])
    else if c < |text| then Leftmost(p, text, c + CharAt(text, c).1, caps)
    else None
  }

  function First(l: seq<Way>): Option<Way> { if l == [] then None else Some(l[0]) }

  /** What a match from c on should find: the preferred match at c if sticky, else at the leftmost place that has one. */
  function Answer(sticky: bool, p: Pattern, text: seq<byte>, c: nat, caps: seq<nat>): Option<Way> {
    if sticky then First(Matches(Group(0, p), text, c, caps)) else Leftmost(p, text, c, caps)
  }

  function Expected(w: Option<Way>): Status { if w.Some? then Matched(w.value.caps) else NoMatch }

  // ---------- running the program ----------

  lemma ProgramWhole(g: Program, sticky: bool, p: Pattern, n: nat)
    requires IsProgram(g, sticky, p, n)
    ensures HasCode(g.code, 0, g.code) && |SearchPrefix()| == 11
    ensures g.code == g.code[..HEADER] + (if sticky then [] else SearchPrefix()) + Compile(Group(0, p), g.count) + [16]
  {
    hide WholeChars, Compile, Jump;
    assert g.code[0..|g.code|] == g.code;
  }

  lemma ProgramParts(g: Program, sticky: bool, p: Pattern, n: nat)
    requires IsProgram(g, sticky, p, n)
    ensures Placed(Group(0, p), g, BodyStart(sticky), n)
    ensures var end := BodyStart(sticky) + CodeSize(Group(0, p)); Fetch(g.code, end) == (RegexpCode.Match, end + 1)
    ensures !sticky ==> && Fetch(g.code, 4) == (Split(false, 6), 9) && Fetch(g.code, 9) == (RegexpCode.Instr.Symbol(AnyChar), 10)
                        && Fetch(g.code, 10) == (Goto(-11), 15)
  {
    hide Fetch, Jump, WholeChars, Compile, HasCode, SearchPrefix;
    ProgramWhole(g, sticky, p, n);
    var head, body := g.code[..HEADER], Compile(Group(0, p), g.count);
    var prefix: seq<byte> := if sticky then [] else SearchPrefix();
    HasParts(g.code, 0, head + prefix + body, [16]);
    HasParts(g.code, 0, head + prefix, body);
    HasParts(g.code, 0, head, prefix);
    FetchShort(g.code, BodyStart(sticky) + |body|, [16]);
    if !sticky { PrefixParts(g.code); }
  }

  lemma PrefixParts(code: seq<byte>)
    requires HasCode(code, 4, SearchPrefix())
    ensures Fetch(code, 4) == (Split(false, 6), 9) && Fetch(code, 9) == (RegexpCode.Instr.Symbol(AnyChar), 10)
    ensures Fetch(code, 10) == (Goto(-11), 15)
  {
    hide Fetch, Jump, HasCode;
    HasParts(code, 4, Jump(14, 6) + [6], Jump(13, -11));
    HasParts(code, 4, Jump(14, 6), [6]);
    FetchJump(code, 4, 14, 6);
    FetchShort(code, 9, [6]);
    FetchJump(code, 10, 13, -11);
  }

  /** From the body's code at c: the first match is final; with none, what lies below is resumed. */
  lemma BodyRuns(g: Program, sticky: bool, p: Pattern, n: nat, c: nat, caps: seq<nat>, base: seq<Frame>)
    requires IsProgram(g, sticky, p, n) && c <= |g.text| && |caps| == n
    ensures var l := Matches(Group(0, p), g.text, c, caps);
            Reach(g, Running(Snapshot(BodyStart(sticky), c, caps, base)),
                  if l != [] then Matched(l[0].caps) else Backtrack(base))
  {
    hide Fetch, Compile, WholeChars, Placed, Layout, Reach, Backtrack, Matches;
    ProgramParts(g, sticky, p, n);
    var start, l := BodyStart(sticky), Matches(Group(0, p), g.text, c, caps);
    var st, exit := Running(Snapshot(start, c, caps, base)), start + CodeSize(Group(0, p));
    Correct(Group(0, p), g, start, c, caps, base, n);
    if l != [] {
      var x := FirstYield(g, st, exit, l, base);
      var s := Snapshot(exit, l[0].at, l[0].caps, x + base);
      ReachStep(g, s, Matched(l[0].caps));
      ReachTwice(g, st, Running(s), Matched(l[0].caps));
    }
  }

  lemma StickyFinds(g: Program, p: Pattern, n: nat, c: nat, caps: seq<nat>)
    requires IsProgram(g, true, p, n) && c <= |g.text| && |caps| == n
    ensures Reach(g, Running(Snapshot(HEADER, c, caps, [])), Expected(Answer(true, p, g.text, c, caps)))
  {
    hide IsProgram, Reach, Matches;
    BodyRuns(g, true, p, n, c, caps, []);
  }

  /** The search prefix makes the first match found the leftmost one. */
  lemma {:induction false} SearchFinds(g: Program, p: Pattern, n: nat, c: nat, caps: seq<nat>)
    requires IsProgram(g, false, p, n) && c <= |g.text| && |caps| == n
    ensures Reach(g, Running(Snapshot(HEADER, c, caps, [])), Expected(Leftmost(p, g.text, c, caps)))
    decreases |g.text| - c
  {
    hide Fetch, Compile, Placed, Layout, Reach, Matches;
    ProgramParts(g, false, p, n);
    var l := Matches(Group(0, p), g.text, c, caps);
    var s, below := Snapshot(HEADER, c, caps, []), [Frame(9, SPLIT, c, caps)];
    var t := Running(Snapshot(15, c, caps, below));
    assert below + [] == below && below[1..] == [];
    ReachStep(g, s, t);
    BodyRuns(g, false, p, n, c, caps, below);
    if l != [] {
      ReachTwice(g, Running(s), t, Matched(l[0].caps));
    } else {
      var u := Snapshot(9, c, caps, []);
      ReachTwice(g, Running(s), t, Running(u));
      if c < |g.text| {
        var d := c + CharAt(g.text, c).1;
        ReachStep(g, u, Running(Snapshot(10, d, caps, [])));
        ReachStep(g, Snapshot(10, d, caps, []), Running(Snapshot(HEADER, d, caps, [])));
        SearchFinds(g, p, n, d, caps);
        ReachTwice(g, Running(s), Running(u), Running(Snapshot(10, d, caps, [])));
        ReachTwice(g, Running(s), Running(Snapshot(10, d, caps, [])), Running(Snapshot(HEADER, d, caps, [])));
        ReachTwice(g, Running(s), Running(Snapshot(HEADER, d, caps, [])), Expected(Leftmost(p, g.text, c, caps)));
      } else {
        ReachStep(g, u, NoMatch);
        ReachTwice(g, Running(s), Running(u), NoMatch);
      }
    }
  }

  // ---------- what the leftmost match is ----------

  /** d is reached from c by whole characters. */
  predicate Boundary(text: seq<byte>, c: nat, d: nat)
    decreases |text| - c
  {
    c == d || (c < |text| && Boundary(text, c + CharAt(text, c).1, d))
  }

  /** Capture 0 of the match found: it begins where no earlier boundary has a match, and ends where the match does. */
  lemma {:induction false} LeftmostStarts(p: Pattern, text: seq<byte>, c: nat, caps: seq<nat>)
    requires WholeChars(text) && |caps| > 1 && !WritesTo(p, 0)
    ensures var w := Leftmost(p, text, c, caps);
            if w.None? then forall d :: Boundary(text, c, d) ==> Matches(Group(0, p), text, d, caps) == []
            else
              && |w.value.caps| == |caps| && w.value.caps[1] == w.value.at
              && var d := w.value.caps[0];
                 && Boundary(text, c, d) && Matches(Group(0, p), text, d, caps) != []
                 && w.value == Matches(Group(0, p), text, d, caps)[0]
                 && forall e :: Boundary(text, c, e) && Matches(Group(0, p), text, e, caps) != [] ==> d <= e
    decreases |text| - c
  {
    hide Matches, WholeChars, CharAt;
    var l := Matches(Group(0, p), text, c, caps);
    if l != [] {
      GroupEnds(p, text, c, caps);
      forall e | Boundary(text, c, e) ensures c <= e { BoundaryAfter(text, c, e); }
    } else if c < |text| {
      LeftmostStarts(p, text, c + CharAt(text, c).1, caps);
    }
  }

  lemma {:induction false} BoundaryAfter(text: seq<byte>, c: nat, d: nat)
    requires Boundary(text, c, d)
    ensures c <= d
    decreases |text| - c
  {
    if c != d { BoundaryAfter(text, c + CharAt(text, c).1, d); }
  }

  lemma GroupEnds(p: Pattern, text: seq<byte>, c: nat, caps: seq<nat>)
    requires WholeChars(text) && |caps| > 1 && !WritesTo(p, 0) && Matches(Group(0, p), text, c, caps) != []
    ensures var w := Matches(Group(0, p), text, c, caps)[0];
            |w.caps| == |caps| && w.caps[0] == c && w.caps[1] == w.at
  {
    hide WholeChars;
    var l := Matches(p, text, c, Put(caps, 0, c));
    MatchesSound(p, text, c, Put(caps, 0, c), 0);
    assert Matches(Group(0, p), text, c, caps) == PutAll(l, 1);
    assert Sound(l[0], text, c, Put(caps, 0, c), 0, false);
  }

  // ---------- the real machine ----------

  lemma ReachDecides(g: Program, s: Status, t: Status, n: nat)
    requires Reach(g, s, t) && !t.Running?
    ensures var r := Run(g.code, g.text, g.count, s, n); r.Running? || r == t
  {
    hide Step, Run;
    var m: nat :| Run(g.code, g.text, g.count, s, m) == t;
    var r := Run(g.code, g.text, g.count, s, n);
    if m <= n {
      RunStays(g.code, g.text, g.count, s, m, n);
    } else if !r.Running? {
      RunStays(g.code, g.text, g.count, s, n, m);
    }
  }

  lemma ProgramFinds(g: Program, sticky: bool, p: Pattern, n: nat, c: nat, caps: seq<nat>)
    requires IsProgram(g, sticky, p, n) && c <= |g.text| && |caps| == n
    ensures Reach(g, Running(Snapshot(HEADER, c, caps, [])), Expected(Answer(sticky, p, g.text, c, caps)))
  {
    hide IsProgram, Reach, Matches, Leftmost;
    if sticky { StickyFinds(g, p, n, c, caps); } else { SearchFinds(g, p, n, c, caps); }
  }

  /** The machine stops. */
  ghost predicate Halts(g: Program, s: Snapshot) {
    exists n: nat :: !Run(g.code, g.text, g.count, Running(s), n).Running?
  }

  lemma ReachHalts(g: Program, s: Snapshot, t: Status)
    requires Reach(g, Running(s), t) && !t.Running?
    ensures Halts(g, s)
  {
    hide Run;
    var n: nat :| Run(g.code, g.text, g.count, Running(s), n) == t;
  }

  /** It has stopped after n instructions and not before. */
  ghost predicate StopsAfter(g: Program, s: Snapshot, n: nat) {
    && !Run(g.code, g.text, g.count, Running(s), n).Running?
    && forall m: nat :: m < n ==> Run(g.code, g.text, g.count, Running(s), m).Running?
  }

  /** How many instructions it executes. */
  ghost function StepsNeeded(g: Program, s: Snapshot): (n: nat)
    requires Halts(g, s)
    ensures StopsAfter(g, s, n)
  {
    var bound: nat :| !Run(g.code, g.text, g.count, Running(s), bound).Running?;
    StopsFirst(g, s, bound);
    var n: nat :| StopsAfter(g, s, n); n
  }

  lemma {:induction false} StopsFirst(g: Program, s: Snapshot, bound: nat)
    requires !Run(g.code, g.text, g.count, Running(s), bound).Running?
    ensures exists n: nat :: StopsAfter(g, s, n)
  {
    hide Run;
    if m: nat :| m < bound && !Run(g.code, g.text, g.count, Running(s), m).Running? {
      StopsFirst(g, s, m);
    } else {
      assert StopsAfter(g, s, bound);
    }
  }

  lemma StillRunning(g: Program, s: Snapshot, n: nat)
    requires Halts(g, s) && Run(g.code, g.text, g.count, Running(s), n).Running?
    ensures n < StepsNeeded(g, s)
  {
    hide Run;
    var m := StepsNeeded(g, s);
    if m <= n { RunStays(g.code, g.text, g.count, Running(s), m, n); }
  }

  /**
   lre_exec on a whole program: success leaves the captures of the match there should be, failure means that
   there is none, and with as many steps as it needs and a stack of ROOM words for each it is one of them.
   */
  method Find(m: Machine, ghost sticky: bool, ghost p: Pattern, steps: nat) returns (r: Outcome)
    requires var g := Program(m.code, m.text, m.count);
             IsProgram(g, sticky, p, m.capture.Length) && m.cptr <= |m.text|
    requires m.Stands(Snapshot(HEADER, m.cptr, m.capture[..], []))
    modifies m`pc, m`cptr, m`sp, m`bp, m.stack, m.capture
    ensures var w := Answer(sticky, p, m.text, old(m.cptr), old(m.capture[..]));
            && (r == Success ==> w.Some? && m.capture[..] == w.value.caps)
            && (r == Failure ==> w.None?)
    ensures var g, s := Program(m.code, m.text, m.count), Snapshot(HEADER, old(m.cptr), old(m.capture[..]), []);
            && Halts(g, s) && (r == Continue ==> steps < StepsNeeded(g, s))
            && (r == Exception ==> old(m.sp) < ROOM * StepsNeeded(g, s))
  {
    hide IsProgram, Answer, Reach, Stacked, Run, Step;
    ghost var g, s := Program(m.code, m.text, m.count), Snapshot(HEADER, m.cptr, m.capture[..], []);
    ProgramFinds(g, sticky, p, m.capture.Length, m.cptr, m.capture[..]);
    ghost var t := Expected(Answer(sticky, p, m.text, m.cptr, m.capture[..]));
    ReachHalts(g, s, t);
    ReachDecides(g, Running(s), t, steps);
    if Run(g.code, g.text, g.count, Running(s), steps).Running? { StillRunning(g, s, steps); }
    ghost var room := m.sp;
    r := m.Exec(steps, s);
    if r == Exception {
      ghost var i: nat :| Run(g.code, g.text, g.count, Running(s), i).Running? && room < ROOM * (i + 1);
      StillRunning(g, s, i);
    }
  }
}
