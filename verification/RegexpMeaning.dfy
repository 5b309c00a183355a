/** The code of a pattern makes the machine find the pattern's matches, one after another as it backtracks. */
module RegexpMeaning {
  import opened Bytes
  import opened RegexpCode
  import opened RegexpPattern

  // ---------- code in place ----------

  predicate HasCode(code: seq<byte>, at: nat, bytes: seq<byte>) {
    at + |bytes| <= |code| && code[at..at + |bytes|] == bytes
  }

  lemma HasParts(code: seq<byte>, at: nat, a: seq<byte>, b: seq<byte>)
    requires HasCode(code, at, a + b)
    ensures HasCode(code, at, a) && HasCode(code, at + |a|, b)
  {
    var all := code[at..at + |a| + |b|];
    assert all[..|a|] == a && all[|a|..] == b;
    assert code[at..at + |a|] == all[..|a|] && code[at + |a|..at + |a| + |b|] == all[|a|..];
  }

  lemma WordBytesRead(v: nat)
    requires v < WORD
    ensures U32(WordBytes(v), 0) == v
  {
    var q := v / 256;
    assert v == q * 256 + v % 256 && q == q / 256 * 256 + q % 256;
    assert v / 65536 == q / 256 && v / 16777216 == q / 65536 == q / 256 / 256;
    assert q / 256 == q / 256 / 256 * 256 + q / 256 % 256;
  }

  /** A jump decodes to its distance. */
  lemma JumpRead(code: seq<byte>, at: nat, op: byte, offset: int)
    requires IsOffset(offset) && HasCode(code, at, Jump(op, offset))
    ensures at + 5 <= |code| && code[at] == op && S32(code, at + 1) == offset
  {
    hide WordBytes;
    var v := if offset < 0 then offset + WORD else offset;
    var w := WordBytes(v);
    WordBytesRead(v);
    var j := code[at..at + 5];
    assert j[0] == code[at] && j[1..] == w;
    assert code[at + 1] == j[1] && code[at + 2] == j[2] && code[at + 3] == j[3] && code[at + 4] == j[4];
    assert w[0] == j[1] && w[1] == j[2] && w[2] == j[3] && w[3] == j[4];
  }

  lemma FetchJump(code: seq<byte>, at: nat, op: byte, offset: int)
    requires IsOffset(offset) && HasCode(code, at, Jump(op, offset)) && op in {13, 14, 15, 34, 35}
    ensures Fetch(code, at) == (if op == 13 then Goto(offset)
                                else if op <= 15 then Split(op == 15, offset)
                                else Lookahead(op == 35, offset), at + 5)
  {
    hide Jump, S32;
    JumpRead(code, at, op, offset);
  }

  /** One- and two-byte instructions. */
  lemma FetchShort(code: seq<byte>, at: nat, bytes: seq<byte>)
    requires HasCode(code, at, bytes) && |bytes| > 0
    ensures |bytes| == 1 ==> match bytes[0]
                             case 5 | 6 | 7 | 8 | 9 | 10 | 11 | 12 | 28 | 29 =>
                               Fetch(code, at) == (Instr.Symbol(SymOf(bytes[0])), at + 1)
                             case 16 => Fetch(code, at) == (RegexpCode.Match, at + 1)
                             case 17 => Fetch(code, at) == (LookaheadMatch, at + 1)
                             case 18 => Fetch(code, at) == (NegativeLookaheadMatch, at + 1)
                             case _ => true
  {
    assert code[at] == code[at..at + |bytes|][0];
  }

  lemma FetchOperand(code: seq<byte>, at: nat, op: byte, x: byte)
    requires HasCode(code, at, [op, x])
    ensures op == 19 || op == 20 ==> Fetch(code, at) == (Save(2 * x as int + op as int - 19), at + 2)
    ensures op == 30 || op == 31 ==> Fetch(code, at) == (BackReference(x, op == 31), at + 2)
    ensures op == 36 ==> Fetch(code, at) == (SetCharPos(x), at + 2)
    ensures op == 37 ==> Fetch(code, at) == (CheckAdvance(x), at + 2)
  {
    assert code[at] == code[at..at + 2][0] && code[at + 1] == code[at..at + 2][1];
  }

  lemma FetchReset(code: seq<byte>, at: nat, low: byte, high: byte)
    requires HasCode(code, at, [21, low, high])
    ensures Fetch(code, at) == (SaveReset(low, high), at + 3)
  {
    var w := code[at..at + 3];
    assert code[at] == w[0] && code[at + 1] == w[1] && code[at + 2] == w[2];
  }

  lemma FetchChars(code: seq<byte>, at: nat, bytes: seq<byte>)
    requires 1 <= |bytes| <= 4 && HasCode(code, at, [|bytes|] + bytes)
    ensures Fetch(code, at) == (Literal(bytes), at + 1 + |bytes|)
  {
    var w := code[at..at + 1 + |bytes|];
    assert code[at] == w[0] == |bytes| && code[at + 1..at + 1 + |bytes|] == w[1..] == bytes;
  }

  lemma {:induction false} TableRead(b: seq<byte>, at: nat, t: seq<nat>, k: nat)
    requires forall j :: 0 <= j < |t| ==> t[j] < WORD
    requires HasCode(b, at, TableBytes(t)) && k < |t|
    ensures U32(b, at + 4 * k) == t[k]
    decreases |t|
  {
    hide WordBytes;
    HasParts(b, at, WordBytes(t[0]), TableBytes(t[1..]));
    if k == 0 {
      var w := WordBytes(t[0]);
      WordBytesRead(t[0]);
      var c := b[at..at + 4];
      assert b[at] == c[0] && b[at + 1] == c[1] && b[at + 2] == c[2] && b[at + 3] == c[3];
    } else {
      TableRead(b, at + 4, t[1..], k - 1);
    }
  }

  lemma FetchClass(code: seq<byte>, at: nat, t: seq<nat>)
    requires IsTable(t)
    requires HasCode(code, at, ClassBytes(t))
    ensures Fetch(code, at) == if IsSmall(t) then (SmallRange(Shortened(t)), at + 2 + |t|) else (Range(t), at + 3 + 4 * |t|)
  {
    if IsSmall(t) { FetchSmall(code, at, t); } else { FetchTable(code, at, t); }
  }

  lemma FetchSmall(code: seq<byte>, at: nat, t: seq<nat>)
    requires IsTable(t) && IsSmall(t)
    requires HasCode(code, at, ClassBytes(t))
    ensures Fetch(code, at) == (SmallRange(Shortened(t)), at + 2 + |t|)
  {
    hide Shortened;
    var n, b := |t| / 2, SmallBytes(Shortened(t));
    HasParts(code, at, [32, n], b);
    var h := code[at..at + 2];
    assert code[at] == h[0] && code[at + 1] == h[1];
    assert code[at + 2..at + 2 + 2 * n] == b;
    assert b == Shortened(t);
  }

  lemma FetchTable(code: seq<byte>, at: nat, t: seq<nat>)
    requires IsTable(t) && !IsSmall(t)
    requires HasCode(code, at, ClassBytes(t))
    ensures Fetch(code, at) == (Range(t), at + 3 + 4 * |t|)
  {
    hide TableBytes, U32;
    var n := |t| / 2;
    HasParts(code, at, [33, n % 256, n / 256], TableBytes(t));
    var h := code[at..at + 3];
    assert code[at] == h[0] && code[at + 1] == h[1] && code[at + 2] == h[2];
    assert U16(code, at + 1) == n;
    forall k | 0 <= k < |t| ensures Table(code, at + 3, n)[k] == t[k] {
      TableRead(code, at + 3, t, k);
    }
    assert Table(code, at + 3, n) == t;
  }

  lemma OffsetRead(code: seq<byte>, at: nat, offset: int)
    requires IsOffset(offset) && HasCode(code, at, OffsetBytes(offset))
    ensures at + 4 <= |code| && S32(code, at) == offset
  {
    hide WordBytes;
    var w := OffsetBytes(offset);
    WordBytesRead(if offset < 0 then offset + WORD else offset);
    WordRead(code, at, w);
  }

  lemma WordRead(code: seq<byte>, at: nat, w: seq<byte>)
    requires |w| == 4 && HasCode(code, at, w)
    ensures at + 4 <= |code| && U32(code, at) == U32(w, 0)
  {
    var c := code[at..at + 4];
    assert code[at] == c[0] && code[at + 1] == c[1] && code[at + 2] == c[2] && code[at + 3] == c[3];
  }

  lemma FetchCounter(code: seq<byte>, at: nat, reg: byte, value: nat)
    requires value < WORD && HasCode(code, at, CounterBytes(reg, value))
    ensures Fetch(code, at) == (SetRegister(reg, value), at + 6)
  {
    hide WordBytes, U32;
    var w := WordBytes(value);
    HasParts(code, at, [27, reg], w);
    var h := code[at..at + 2];
    assert code[at] == h[0] && code[at + 1] == h[1];
    WordBytesRead(value);
    WordRead(code, at + 2, w);
  }

  /** The instruction at the end of a counted loop. */
  function LoopInstr(p: Pattern, reg: nat, back: int): (Instr, nat)
    requires p.Counted?
  {
    if p.min == p.max then (Loop(reg, back), 6) else (LoopSplit(reg, Limit(p), back, !p.greedy, p.check), 10)
  }

  lemma FetchLoop(code: seq<byte>, at: nat, p: Pattern, reg: byte, back: int)
    requires p.Counted? && Limit(p) < WORD && IsOffset(back) && HasCode(code, at, LoopBytes(p, reg, back))
    ensures var i := LoopInstr(p, reg, back); Fetch(code, at) == (i.0, at + i.1)
  {
    hide WordBytes, U32, S32, Limit, OffsetBytes;
    var head: seq<byte> :=
      [if p.min == p.max then 22 else (if p.check then 26 else 24) - (if p.greedy then 1 else 0), reg];
    if p.min == p.max {
      HasParts(code, at, head, OffsetBytes(back));
      OffsetRead(code, at + 2, back);
    } else {
      var w := WordBytes(Limit(p));
      HasParts(code, at, head + w, OffsetBytes(back));
      HasParts(code, at, head, w);
      OffsetRead(code, at + 6, back);
      WordBytesRead(Limit(p));
      WordRead(code, at + 2, w);
    }
    var h := code[at..at + 2];
    assert code[at] == h[0] && code[at + 1] == h[1];
  }

  // ---------- runs ----------

  ghost predicate Reach(g: Program, s: Status, t: Status) {
    exists n: nat :: Run(g.code, g.text, g.count, s, n) == t
  }

  lemma ReachIn(g: Program, s: Status, t: Status, n: nat)
    requires Run(g.code, g.text, g.count, s, n) == t
    ensures Reach(g, s, t)
  {}

  lemma ReachSelf(g: Program, s: Status)
    ensures Reach(g, s, s)
  {
    ReachIn(g, s, s, 0);
  }

  lemma ReachStep(g: Program, s: Snapshot, t: Status)
    requires Step(g.code, g.text, g.count, s) == t
    ensures Reach(g, Running(s), t)
  {
    hide Step;
    assert Run(g.code, g.text, g.count, Running(s), 1) == Run(g.code, g.text, g.count, t, 0);
    ReachIn(g, Running(s), t, 1);
  }

  lemma {:induction false} RunTwice(g: Program, s: Status, m: nat, n: nat)
    ensures Run(g.code, g.text, g.count, s, m + n)
            == Run(g.code, g.text, g.count, Run(g.code, g.text, g.count, s, m), n)
    decreases m
  {
    hide Step;
    if m > 0 && s.Running? {
      RunTwice(g, Step(g.code, g.text, g.count, s.at), m - 1, n);
    }
  }

  lemma ReachTwice(g: Program, s: Status, t: Status, u: Status)
    requires Reach(g, s, t) && Reach(g, t, u)
    ensures Reach(g, s, u)
  {
    hide Run;
    var m: nat :| Run(g.code, g.text, g.count, s, m) == t;
    var n: nat :| Run(g.code, g.text, g.count, t, n) == u;
    RunTwice(g, s, m, n);
    ReachIn(g, s, u, m + n);
  }

  // ---------- yielding matches ----------

  ghost predicate AllSplits(x: seq<Frame>) { forall k | 0 <= k < |x| :: x[k].kind == SPLIT }

  /**
   From status st the machine arrives at exit once for each match of l in order, each time with frames of
   its own on top of those in base; backtracking from there leads to the next, and after the last to
   whatever base leads to.
   */
  ghost predicate Yields(g: Program, st: Status, exit: nat, l: seq<Way>, base: seq<Frame>)
    decreases |l|
  {
    if l == [] then Reach(g, st, Backtrack(base))
    else exists x: seq<Frame> ::
      && AllSplits(x) && Reach(g, st, Running(Snapshot(exit, l[0].at, l[0].caps, x + base)))
      && Yields(g, Backtrack(x + base), exit, l[1..], base)
  }

  lemma YieldsWith(g: Program, st: Status, exit: nat, l: seq<Way>, base: seq<Frame>, x: seq<Frame>)
    requires l != [] && AllSplits(x) && Reach(g, st, Running(Snapshot(exit, l[0].at, l[0].caps, x + base)))
    requires Yields(g, Backtrack(x + base), exit, l[1..], base)
    ensures Yields(g, st, exit, l, base)
  {}

  lemma FirstYield(g: Program, st: Status, exit: nat, l: seq<Way>, base: seq<Frame>) returns (x: seq<Frame>)
    requires l != [] && Yields(g, st, exit, l, base)
    ensures AllSplits(x) && Reach(g, st, Running(Snapshot(exit, l[0].at, l[0].caps, x + base)))
    ensures Yields(g, Backtrack(x + base), exit, l[1..], base)
  {
    x :| && AllSplits(x) && Reach(g, st, Running(Snapshot(exit, l[0].at, l[0].caps, x + base)))
         && Yields(g, Backtrack(x + base), exit, l[1..], base);
  }

  lemma YieldsAfter(g: Program, st: Status, st': Status, exit: nat, l: seq<Way>, base: seq<Frame>)
    requires Reach(g, st, st') && Yields(g, st', exit, l, base)
    ensures Yields(g, st, exit, l, base)
  {
    hide Reach;
    if l == [] {
      ReachTwice(g, st, st', Backtrack(base));
    } else {
      var x := FirstYield(g, st', exit, l, base);
      ReachTwice(g, st, st', Running(Snapshot(exit, l[0].at, l[0].caps, x + base)));
      YieldsWith(g, st, exit, l, base, x);
    }
  }

  lemma YieldsOne(g: Program, st: Status, exit: nat, w: Way, base: seq<Frame>)
    requires Reach(g, st, Running(Snapshot(exit, w.at, w.caps, base)))
    ensures Yields(g, st, exit, [w], base)
  {
    hide Reach;
    assert [] + base == base;
    ReachSelf(g, Backtrack(base));
    assert [w][1..] == [];
    YieldsWith(g, st, exit, [w], base, []);
  }

  lemma JoinSplits(x: seq<Frame>, y: seq<Frame>)
    requires AllSplits(x) && AllSplits(y)
    ensures AllSplits(x + y)
  {}

  /** Matches over one base, then those that backtracking into it leads to. */
  lemma {:induction false} YieldsMore(g: Program, st: Status, exit: nat, l: seq<Way>, m: seq<Way>, x: seq<Frame>, base: seq<Frame>)
    requires Yields(g, st, exit, l, x + base) && AllSplits(x) && Yields(g, Backtrack(x + base), exit, m, base)
    ensures Yields(g, st, exit, l + m, base)
    decreases |l|
  {
    hide Reach, AllSplits, Backtrack;
    if l == [] {
      assert l + m == m;
      YieldsAfter(g, st, Backtrack(x + base), exit, m, base);
    } else {
      var y := FirstYield(g, st, exit, l, x + base);
      assert y + (x + base) == (y + x) + base;
      YieldsMore(g, Backtrack(y + (x + base)), exit, l[1..], m, x, base);
      JoinSplits(y, x);
      assert (l + m)[0] == l[0] && (l + m)[1..] == l[1..] + m;
      YieldsWith(g, st, exit, l + m, base, y + x);
    }
  }

  // ---------- instructions after a match ----------

  /** All matches with n captures, between c and the end of the subject. */
  predicate Ways(l: seq<Way>, text: seq<byte>, c: nat, n: nat) {
    forall k | 0 <= k < |l| :: c <= l[k].at <= |text| && |l[k].caps| == n
  }

  lemma MatchesWays(p: Pattern, text: seq<byte>, c: nat, caps: seq<nat>)
    requires WholeChars(text) && c <= |text|
    ensures Ways(Matches(p, text, c, caps), text, c, |caps|)
  {
    hide Matches, WholeChars;
    var l := Matches(p, text, c, caps);
    MatchesSound(p, text, c, caps, 0);
    forall k | 0 <= k < |l| ensures c <= l[k].at <= |text| && |l[k].caps| == |caps| {
      assert Sound(l[k], text, c, caps, 0, WritesTo(p, 0));
    }
  }

  /** A save after each match. */
  lemma {:induction false} SaveYields(g: Program, st: Status, mid: nat, l: seq<Way>, base: seq<Frame>, i: nat, n: nat)
    requires Yields(g, st, mid, l, base) && Fetch(g.code, mid) == (Save(i), mid + 2) && i < n
    requires forall k | 0 <= k < |l| :: |l[k].caps| == n
    ensures Yields(g, st, mid + 2, PutAll(l, i), base)
    decreases |l|
  {
    hide Reach, Fetch, AllSplits;
    if l != [] {
      var x := FirstYield(g, st, mid, l, base);
      var s := Snapshot(mid, l[0].at, l[0].caps, x + base);
      var t := Running(Snapshot(mid + 2, l[0].at, Put(l[0].caps, i, l[0].at), x + base));
      ReachStep(g, s, t);
      ReachTwice(g, st, Running(s), t);
      SaveYields(g, Backtrack(x + base), mid, l[1..], base, i, n);
      assert PutAll(l, i)[1..] == PutAll(l[1..], i);
      YieldsWith(g, st, mid + 2, PutAll(l, i), base, x);
    }
  }

  /** A check that the machine has moved on since the register was set. */
  lemma {:induction false} CheckYields(g: Program, st: Status, mid: nat, l: seq<Way>, base: seq<Frame>, reg: nat, c: nat)
    requires Yields(g, st, mid, l, base) && Fetch(g.code, mid) == (CheckAdvance(reg), mid + 2)
    requires forall k | 0 <= k < |l| :: 2 * g.count + reg < |l[k].caps| && l[k].caps[2 * g.count + reg] == c
    ensures Yields(g, st, mid + 2, Moved(l, c), base)
    decreases |l|
  {
    hide Reach, Fetch, AllSplits;
    if l != [] {
      var x := FirstYield(g, st, mid, l, base);
      var s := Snapshot(mid, l[0].at, l[0].caps, x + base);
      CheckYields(g, Backtrack(x + base), mid, l[1..], base, reg, c);
      if l[0].at == c {
        ReachStep(g, s, Backtrack(x + base));
        ReachTwice(g, st, Running(s), Backtrack(x + base));
        YieldsAfter(g, st, Backtrack(x + base), mid + 2, Moved(l, c), base);
      } else {
        var t := Running(s.(pc := mid + 2));
        ReachStep(g, s, t);
        ReachTwice(g, st, Running(s), t);
        assert Moved(l, c)[1..] == Moved(l[1..], c);
        YieldsWith(g, st, mid + 2, Moved(l, c), base, x);
      }
    }
  }

  lemma {:induction false} LatestPast(x: seq<Frame>, f: Frame, base: seq<Frame>)
    requires AllSplits(x) && f.kind != SPLIT
    ensures var all := x + ([f] + base);
            Latest(all, f.kind) == |x| && all[|x|] == f && all[|x| + 1..] == base
  {
    var all := x + ([f] + base);
    assert all[|x|] == f && all[|x| + 1..] == base;
    if x != [] {
      assert x[0].kind == SPLIT;
      assert all[1..] == x[1..] + ([f] + base);
      LatestPast(x[1..], f, base);
    } else {
      assert all[0] == f;
    }
  }

  /** The end of a lookahead: its first match is kept, or counts against it. */
  lemma LookYields(g: Program, st: Status, mid: nat, l: seq<Way>, negative: bool, exit: nat, c: nat, caps: seq<nat>, base: seq<Frame>)
    requires var f := Frame(exit, if negative then NEGATIVE_LOOKAHEAD else LOOKAHEAD, c, caps);
             Yields(g, st, mid, l, [f] + base)
    requires Fetch(g.code, mid) == (if negative then NegativeLookaheadMatch else LookaheadMatch, mid + 1)
    ensures Yields(g, st, exit, if negative then One(l == [], c, caps)
                                else if l == [] then [] else [Way(c, l[0].caps)], base)
  {
    hide Reach, Fetch, AllSplits;
    var f := Frame(exit, if negative then NEGATIVE_LOOKAHEAD else LOOKAHEAD, c, caps);
    assert ([f] + base)[1..] == base;
    if l == [] {
      if negative {
        YieldsOne(g, st, exit, Way(c, caps), base);
      } else {
        assert Backtrack([f] + base) == Backtrack(base);
      }
    } else {
      var x := FirstYield(g, st, mid, l, [f] + base);
      LatestPast(x, f, base);
      var s := Snapshot(mid, l[0].at, l[0].caps, x + ([f] + base));
      var t := if negative then Backtrack(base) else Running(Snapshot(exit, c, l[0].caps, base));
      ReachStep(g, s, t);
      ReachTwice(g, st, Running(s), t);
      if !negative { YieldsOne(g, st, exit, Way(c, l[0].caps), base); }
    }
  }

  // ---------- the pattern's code ----------

  ghost predicate Placed(p: Pattern, g: Program, at: nat, n: nat) {
    && Compilable(p, g.count, n) && CodeSize(p) < MAX_CODE && HasCode(g.code, at, Compile(p, g.count))
    && WholeChars(g.text)
  }

  /** A greedy split: the body first, then the way around it. */
  lemma GreedyYields(g: Program, at: nat, c: nat, caps: seq<nat>, base: seq<Frame>, offset: nat, exit: nat, l: seq<Way>)
    requires Fetch(g.code, at) == (Split(true, offset), at + 5) && exit == at + 5 + offset
    requires var f := [Frame(exit, SPLIT, c, caps)];
             Yields(g, Running(Snapshot(at + 5, c, caps, f + base)), exit, l, f + base)
    ensures Yields(g, Running(Snapshot(at, c, caps, base)), exit, l + [Way(c, caps)], base)
  {
    hide Reach, Fetch, Yields;
    var s, f := Snapshot(at, c, caps, base), [Frame(exit, SPLIT, c, caps)];
    var t := Running(Snapshot(at + 5, c, caps, f + base));
    ReachStep(g, s, t);
    assert (f + base)[1..] == base;
    ReachSelf(g, Backtrack(f + base));
    YieldsOne(g, Backtrack(f + base), exit, Way(c, caps), base);
    YieldsMore(g, t, exit, l, [Way(c, caps)], f, base);
    YieldsAfter(g, Running(s), t, exit, l + [Way(c, caps)], base);
  }

  /** A lazy split: the way around the body first. */
  lemma LazyYields(g: Program, at: nat, c: nat, caps: seq<nat>, base: seq<Frame>, offset: nat, exit: nat, l: seq<Way>)
    requires Fetch(g.code, at) == (Split(false, offset), at + 5) && exit == at + 5 + offset
    requires Yields(g, Running(Snapshot(at + 5, c, caps, base)), exit, l, base)
    ensures Yields(g, Running(Snapshot(at, c, caps, base)), exit, [Way(c, caps)] + l, base)
  {
    hide Reach, Fetch, Yields;
    var s, f := Snapshot(at, c, caps, base), [Frame(at + 5, SPLIT, c, caps)];
    ReachStep(g, s, Running(Snapshot(exit, c, caps, f + base)));
    assert (f + base)[1..] == base;
    assert Backtrack(f + base) == Running(Snapshot(at + 5, c, caps, base));
    assert ([Way(c, caps)] + l)[1..] == l;
    YieldsWith(g, Running(s), exit, [Way(c, caps)] + l, base, f);
  }

  // ---------- the parts of a pattern's code ----------

  lemma PlacedConcat(p: Pattern, g: Program, at: nat, n: nat)
    requires Placed(p, g, at, n) && p.Concat?
    ensures Placed(p.first, g, at, n) && Placed(p.second, g, at + CodeSize(p.first), n)
  {
    hide WholeChars;
    HasParts(g.code, at, Compile(p.first, g.count), Compile(p.second, g.count));
  }

  lemma PlacedEither(p: Pattern, g: Program, at: nat, n: nat)
    requires Placed(p, g, at, n) && p.Either?
    ensures var a, b := CodeSize(p.left), CodeSize(p.right);
            && Fetch(g.code, at) == (Split(true, a + 5), at + 5) && Placed(p.left, g, at + 5, n)
            && Fetch(g.code, at + 5 + a) == (Goto(b), at + 10 + a) && Placed(p.right, g, at + 10 + a, n)
  {
    hide WholeChars, Fetch, Jump;
    var a, b := CodeSize(p.left), CodeSize(p.right);
    var x, y := Compile(p.left, g.count), Compile(p.right, g.count);
    HasParts(g.code, at, Jump(15, a + 5) + x + Jump(13, b), y);
    HasParts(g.code, at, Jump(15, a + 5) + x, Jump(13, b));
    HasParts(g.code, at, Jump(15, a + 5), x);
    FetchJump(g.code, at, 15, a + 5);
    FetchJump(g.code, at + 5 + a, 13, b);
  }

  lemma PlacedGroup(p: Pattern, g: Program, at: nat, n: nat)
    requires Placed(p, g, at, n) && p.Group?
    ensures Fetch(g.code, at) == (Save(2 * p.index), at + 2) && Placed(p.body, g, at + 2, n)
    ensures var mid := at + 2 + CodeSize(p.body); Fetch(g.code, mid) == (Save(2 * p.index + 1), mid + 2)
  {
    hide WholeChars, Fetch;
    var x := Compile(p.body, g.count);
    HasParts(g.code, at, [19, p.index] + x, [20, p.index]);
    HasParts(g.code, at, [19, p.index], x);
    FetchOperand(g.code, at, 19, p.index);
    FetchOperand(g.code, at + 2 + CodeSize(p.body), 20, p.index);
  }

  lemma PlacedGuarded(p: Pattern, g: Program, at: nat, n: nat)
    requires Placed(p, g, at, n) && p.Guarded?
    ensures var reg, mid := p.slot - 2 * g.count, at + 2 + CodeSize(p.body);
            && reg >= 0 && Fetch(g.code, at) == (SetCharPos(reg), at + 2) && Placed(p.body, g, at + 2, n)
            && Fetch(g.code, mid) == (CheckAdvance(reg), mid + 2)
  {
    hide WholeChars, Fetch;
    var x, reg := Compile(p.body, g.count), p.slot - 2 * g.count;
    HasParts(g.code, at, [36, reg] + x, [37, reg]);
    HasParts(g.code, at, [36, reg], x);
    FetchOperand(g.code, at, 36, reg);
    FetchOperand(g.code, at + 2 + CodeSize(p.body), 37, reg);
  }

  lemma PlacedLook(p: Pattern, g: Program, at: nat, n: nat)
    requires Placed(p, g, at, n) && p.Look?
    ensures var b := CodeSize(p.body);
            && Fetch(g.code, at) == (Lookahead(p.negative, b + 1), at + 5) && Placed(p.body, g, at + 5, n)
            && Fetch(g.code, at + 5 + b) == (if p.negative then NegativeLookaheadMatch else LookaheadMatch, at + 6 + b)
  {
    hide WholeChars, Fetch, Jump;
    var b, x := CodeSize(p.body), Compile(p.body, g.count);
    var op, end := if p.negative then 35 else 34, [if p.negative then 18 else 17];
    HasParts(g.code, at, Jump(op, b + 1) + x, end);
    HasParts(g.code, at, Jump(op, b + 1), x);
    FetchJump(g.code, at, op, b + 1);
    FetchShort(g.code, at + 5 + b, end);
  }

  lemma PlacedOptional(p: Pattern, g: Program, at: nat, n: nat)
    requires Placed(p, g, at, n) && p.Optional?
    ensures Fetch(g.code, at) == (Split(p.greedy, CodeSize(p.body)), at + 5) && Placed(p.body, g, at + 5, n)
  {
    hide WholeChars, Fetch, Jump;
    var b, x := CodeSize(p.body), Compile(p.body, g.count);
    HasParts(g.code, at, Jump(SplitOp(p.greedy), b), x);
    FetchJump(g.code, at, SplitOp(p.greedy), b);
  }

  lemma PlacedRepeat(p: Pattern, g: Program, at: nat, n: nat)
    requires Placed(p, g, at, n) && p.Repeat?
    ensures var b := CodeSize(p.body);
            && Fetch(g.code, at) == (Split(p.greedy, b + 5), at + 5) && Placed(p.body, g, at + 5, n)
            && Fetch(g.code, at + 5 + b) == (Goto(-(b + 10)), at + 10 + b)
  {
    hide WholeChars, Fetch, Jump;
    var b: int := CodeSize(p.body);
    var x := Compile(p.body, g.count);
    HasParts(g.code, at, Jump(SplitOp(p.greedy), b + 5) + x, Jump(13, -(b + 10)));
    HasParts(g.code, at, Jump(SplitOp(p.greedy), b + 5), x);
    FetchJump(g.code, at, SplitOp(p.greedy), b + 5);
    FetchJump(g.code, at + 5 + b, 13, -(b + 10));
  }

  lemma PlacedPlus(p: Pattern, g: Program, at: nat, n: nat)
    requires Placed(p, g, at, n) && p.Plus?
    ensures var b := CodeSize(p.body);
            && Placed(p.body, g, at, n) && Fetch(g.code, at + b) == (Split(!p.greedy, -(b + 5)), at + b + 5)
  {
    hide WholeChars, Fetch, Jump;
    var b: int := CodeSize(p.body);
    HasParts(g.code, at, Compile(p.body, g.count), Jump(SplitOp(!p.greedy), -(b + 5)));
    FetchJump(g.code, at + b, SplitOp(!p.greedy), -(b + 5));
  }

  /** Where a counted loop jumps back to. */
  function LoopStart(p: Pattern, at: nat): nat
    requires p.Counted?
  {
    at + (if p.min == 0 then 5 else 0) + 6
  }

  function RoundStart(p: Pattern, at: nat): nat
    requires p.Counted?
  {
    LoopStart(p, at) + if p.check then 2 else 0
  }

  function LoopEnd(p: Pattern, at: nat): nat
    requires p.Counted?
  {
    RoundStart(p, at) + CodeSize(p.body)
  }

  /** The loop in place, without what comes before it. */
  ghost predicate LoopPlaced(p: Pattern, g: Program, at: nat, n: nat) {
    && p.Counted? && Compilable(p, g.count, n) && WholeChars(g.text) && Placed(p.body, g, RoundStart(p, at), n)
    && (p.check ==> Fetch(g.code, LoopStart(p, at)) == (SetCharPos(MarkOf(p, g.count)), LoopStart(p, at) + 2))
    && var end, exit := LoopEnd(p, at), at + CodeSize(p);
       Fetch(g.code, end) == (LoopInstr(p, p.slot - 2 * g.count, LoopStart(p, at) - exit).0, exit)
  }

  lemma PlacedCounted(p: Pattern, g: Program, at: nat, n: nat)
    requires Placed(p, g, at, n) && p.Counted?
    ensures var start := LoopStart(p, at) - 6;
            && LoopPlaced(p, g, at, n) && Fetch(g.code, start) == (SetRegister(p.slot - 2 * g.count, p.max), start + 6)
            && (p.min == 0 ==> Fetch(g.code, at) == (Split(p.greedy, CodeSize(p) - 5), at + 5))
  {
    hide WholeChars, Fetch, Jump, CounterBytes, LoopBody;
    var reg, code := p.slot - 2 * g.count, Compile(p.body, g.count);
    var body := LoopBody(p, code, reg, MarkOf(p, g.count));
    var loop := CounterBytes(reg, p.max) + body;
    var start := LoopStart(p, at) - 6;
    if p.min == 0 {
      HasParts(g.code, at, Jump(SplitOp(p.greedy), |loop|), loop);
      FetchJump(g.code, at, SplitOp(p.greedy), |loop|);
    }
    HasParts(g.code, start, CounterBytes(reg, p.max), body);
    FetchCounter(g.code, start, reg, p.max);
    PlacedLoop(p, g, at, n);
  }

  lemma PlacedLoop(p: Pattern, g: Program, at: nat, n: nat)
    requires p.Counted? && Compilable(p, g.count, n) && CodeSize(p) < MAX_CODE && WholeChars(g.text)
    requires HasCode(g.code, LoopStart(p, at), LoopBody(p, Compile(p.body, g.count), p.slot - 2 * g.count, MarkOf(p, g.count)))
    ensures LoopPlaced(p, g, at, n)
  {
    hide WholeChars, Fetch, LoopBytes, Compile, HasCode, LoopBody, LoopInstr;
    LoopParts(p, g.code, LoopStart(p, at), Compile(p.body, g.count), p.slot - 2 * g.count, MarkOf(p, g.count));
  }

  lemma LoopParts(p: Pattern, all: seq<byte>, start: nat, code: seq<byte>, reg: byte, mark: byte)
    requires p.Counted? && Limit(p) < WORD && |code| < MAX_CODE && HasCode(all, start, LoopBody(p, code, reg, mark))
    ensures p.check ==> Fetch(all, start) == (SetCharPos(mark), start + 2)
    ensures var body := start + if p.check then 2 else 0; var end := body + |code|;
            var exit := end + if p.min == p.max then 6 else 10;
            HasCode(all, body, code) && Fetch(all, end) == (LoopInstr(p, reg, start - exit).0, exit)
  {
    hide Fetch, LoopBytes, HasCode;
    var head: seq<byte> := if p.check then [36, mark] else [];
    var back: int := -(|head| + |code| + if p.min == p.max then 6 else 10);
    HasParts(all, start, head + code, LoopBytes(p, reg, back));
    HasParts(all, start, head, code);
    if p.check { FetchOperand(all, start, 36, mark); }
    FetchLoop(all, start + |head| + |code|, p, reg, back);
  }

  // ---------- the theorem ----------

  /** Instructions that only look at the subject. */
  lemma SimpleCorrect(p: Pattern, g: Program, at: nat, c: nat, caps: seq<nat>, base: seq<Frame>, n: nat)
    requires Placed(p, g, at, n)
    requires p.Empty? || p.Chars? || p.Symbol? || p.Class? || p.BackRef?
    requires |caps| == n
    ensures Yields(g, Running(Snapshot(at, c, caps, base)), at + CodeSize(p), Matches(p, g.text, c, caps), base)
  {
    hide Reach, Fetch, CharAt, SymbolEnd, Repeated, WholeChars, Yields, RangeMatches, SmallMatches, Shortened, IsSmall, ClassBytes;
    var s, exit, l := Snapshot(at, c, caps, base), at + CodeSize(p), Matches(p, g.text, c, caps);
    var code := Compile(p, g.count);
    if p.Empty? {
      ReachSelf(g, Running(s));
      YieldsOne(g, Running(s), exit, Way(c, caps), base);
    } else {
      if p.Chars? {
        FetchChars(g.code, at, p.bytes);
      } else if p.Class? {
        FetchClass(g.code, at, p.intervals);
      } else if p.BackRef? {
        FetchOperand(g.code, at, if p.fold then 31 else 30, p.group);
      } else {
        FetchShort(g.code, at, code);
      }
      if l == [] {
        ReachStep(g, s, Backtrack(base));
        YieldsNone(g, Running(s), exit, base);
      } else {
        assert l == [Way(l[0].at, caps)];
        ReachStep(g, s, Running(Snapshot(exit, l[0].at, caps, base)));
        YieldsOne(g, Running(s), exit, l[0], base);
      }
    }
  }

  lemma YieldsNone(g: Program, st: Status, exit: nat, base: seq<Frame>)
    requires Reach(g, st, Backtrack(base))
    ensures Yields(g, st, exit, [], base)
  {}

  /** The engine resets captures to 0, one after another. */
  lemma {:induction false} ResetBlanks(caps: seq<nat>, low: nat, high: nat)
    requires low <= high ==> 2 * high + 1 < |caps|
    ensures ResetCaptures(caps, low, high) == Blank(caps, low, high, 0)
    decreases high + 1 - low
  {
    if low <= high {
      var next := caps[2 * low := 0][2 * low + 1 := 0];
      ResetBlanks(next, low + 1, high);
      assert Blank(next, low + 1, high, 0) == Blank(caps, low, high, 0);
    } else {
      assert Blank(caps, low, high, 0) == caps;
    }
  }

  lemma ForgetCorrect(p: Pattern, g: Program, at: nat, c: nat, caps: seq<nat>, base: seq<Frame>, n: nat)
    requires Placed(p, g, at, n) && p.Forget? && |caps| == n
    ensures Yields(g, Running(Snapshot(at, c, caps, base)), at + CodeSize(p), Matches(p, g.text, c, caps), base)
  {
    hide Reach, Fetch, WholeChars, Yields, ResetCaptures, Blank;
    var s := Snapshot(at, c, caps, base);
    var w := Way(c, Blank(caps, p.low, p.high, 0));
    ResetBlanks(caps, p.low, p.high);
    FetchReset(g.code, at, p.low, p.high);
    ReachStep(g, s, Running(Snapshot(at + 3, c, w.caps, base)));
    YieldsOne(g, Running(s), at + 3, w, base);
  }

  lemma {:induction false} Correct(p: Pattern, g: Program, at: nat, c: nat, caps: seq<nat>, base: seq<Frame>, n: nat)
    requires Placed(p, g, at, n) && c <= |g.text| && |caps| == n
    ensures Yields(g, Running(Snapshot(at, c, caps, base)), at + CodeSize(p), Matches(p, g.text, c, caps), base)
    decreases p, Measure(p, g.text, c), 1, 0
  {
    hide Reach, Fetch, WholeChars, Yields, Placed, HasCode, Compilable;
    var s, exit := Snapshot(at, c, caps, base), at + CodeSize(p);
    match p
    case Concat(a, b) =>
      PlacedConcat(p, g, at, n);
      Correct(a, g, at, c, caps, base, n);
      PlacedWhole(p, g, at, n);
      MatchesWays(a, g.text, c, caps);
      ThenYields(b, g, Running(s), at + CodeSize(a), Matches(a, g.text, c, caps), base, n, c);
    case Either(a, b) => EitherCorrect(p, g, at, c, caps, base, n);
    case Group(i, b) => GroupCorrect(p, g, at, c, caps, base, n);
    case Look(negative, b) => LookCorrect(p, g, at, c, caps, base, n);
    case Optional(b, greedy) => OptionalCorrect(p, g, at, c, caps, base, n);
    case Repeat(b, greedy) => RepeatCorrect(p, g, at, c, caps, base, n);
    case Plus(b, greedy) => PlusCorrect(p, g, at, c, caps, base, n);
    case Counted(_, _, _, _, _, _, _) => CountedCorrect(p, g, at, c, caps, base, n);
    case Guarded(slot, b) => GuardedCorrect(p, g, at, c, caps, base, n);
    case Forget(_, _, _) => ForgetCorrect(p, g, at, c, caps, base, n);
    case _ => SimpleCorrect(p, g, at, c, caps, base, n);
  }

  lemma OptionalCorrect(p: Pattern, g: Program, at: nat, c: nat, caps: seq<nat>, base: seq<Frame>, n: nat)
    requires Placed(p, g, at, n) && p.Optional? && c <= |g.text| && |caps| == n
    ensures Yields(g, Running(Snapshot(at, c, caps, base)), at + CodeSize(p), Matches(p, g.text, c, caps), base)
    decreases p, Left(g.text, c), 0, 0
  {
    hide Reach, Fetch, WholeChars, Yields, Placed, HasCode, Compilable;
    PlacedOptional(p, g, at, n);
    var exit, l := at + CodeSize(p), Matches(p.body, g.text, c, caps);
    if p.greedy {
      Correct(p.body, g, at + 5, c, caps, [Frame(exit, SPLIT, c, caps)] + base, n);
      GreedyYields(g, at, c, caps, base, CodeSize(p.body), exit, l);
    } else {
      Correct(p.body, g, at + 5, c, caps, base, n);
      LazyYields(g, at, c, caps, base, CodeSize(p.body), exit, l);
    }
  }

  lemma RepeatCorrect(p: Pattern, g: Program, at: nat, c: nat, caps: seq<nat>, base: seq<Frame>, n: nat)
    requires Placed(p, g, at, n) && p.Repeat? && c <= |g.text| && |caps| == n
    ensures Yields(g, Running(Snapshot(at, c, caps, base)), at + CodeSize(p), Matches(p, g.text, c, caps), base)
    decreases p, Left(g.text, c), 0, |g.text| + |Matches(p.body, g.text, c, caps)| + 1
  {
    hide Reach, Fetch, WholeChars, Yields, Placed, HasCode, Compilable;
    PlacedRepeat(p, g, at, n);
    PlacedWhole(p, g, at, n);
    var exit, l := at + CodeSize(p), Matches(p.body, g.text, c, caps);
    BodyWays(p.body, g, at + 5, c, caps, n, p);
    var below := if p.greedy then [Frame(exit, SPLIT, c, caps)] + base else base;
    Correct(p.body, g, at + 5, c, caps, below, n);
    AgainYields(p, g, Running(Snapshot(at + 5, c, caps, below)), at, l, below, n, c);
    if p.greedy {
      GreedyYields(g, at, c, caps, base, CodeSize(p.body) + 5, exit, Again(p, g.text, c, l));
    } else {
      LazyYields(g, at, c, caps, base, CodeSize(p.body) + 5, exit, Again(p, g.text, c, l));
    }
  }

  lemma PlusCorrect(p: Pattern, g: Program, at: nat, c: nat, caps: seq<nat>, base: seq<Frame>, n: nat)
    requires Placed(p, g, at, n) && p.Plus? && c <= |g.text| && |caps| == n
    ensures Yields(g, Running(Snapshot(at, c, caps, base)), at + CodeSize(p), Matches(p, g.text, c, caps), base)
    decreases p, Left(g.text, c), 0, |g.text| + |Matches(p.body, g.text, c, caps)| + 1
  {
    hide Reach, Fetch, WholeChars, Yields, Placed, HasCode, Compilable;
    PlacedPlus(p, g, at, n);
    PlacedWhole(p, g, at, n);
    BodyWays(p.body, g, at, c, caps, n, p);
    Correct(p.body, g, at, c, caps, base, n);
    MoreYields(p, g, Running(Snapshot(at, c, caps, base)), at, Matches(p.body, g.text, c, caps), base, n, c);
  }

  lemma PlacedWhole(p: Pattern, g: Program, at: nat, n: nat)
    requires Placed(p, g, at, n)
    ensures WholeChars(g.text) && Compilable(p, g.count, n)
  {}

  lemma BodyWays(b: Pattern, g: Program, at: nat, c: nat, caps: seq<nat>, n: nat, p: Pattern)
    requires Placed(b, g, at, n) && c <= |g.text| && |caps| == n && (p.Repeat? || p.Plus?) && p.body == b
    requires Compilable(p, g.count, n)
    ensures Ways(Matches(b, g.text, c, caps), g.text, c, n) && AllPast(Matches(b, g.text, c, caps), c)
  {
    hide Matches, WholeChars;
    MatchesWays(b, g.text, c, caps);
    AdvancesMoves(b, g.text, c, caps, g.count, n);
  }

  lemma EitherCorrect(p: Pattern, g: Program, at: nat, c: nat, caps: seq<nat>, base: seq<Frame>, n: nat)
    requires Placed(p, g, at, n) && p.Either? && c <= |g.text| && |caps| == n
    ensures Yields(g, Running(Snapshot(at, c, caps, base)), at + CodeSize(p), Matches(p, g.text, c, caps), base)
    decreases p, Left(g.text, c), 0, 0
  {
    hide Reach, Fetch, WholeChars, Yields, Placed, HasCode, Compilable;
    PlacedEither(p, g, at, n);
    var a, b := p.left, p.right;
    var exit, second := at + CodeSize(p), at + 10 + CodeSize(a);
    var s, f := Snapshot(at, c, caps, base), [Frame(second, SPLIT, c, caps)];
    var t := Running(Snapshot(at + 5, c, caps, f + base));
    assert (f + base)[1..] == base;
    ReachStep(g, s, t);
    Correct(a, g, at + 5, c, caps, f + base, n);
    GotoYields(g, t, at + 5 + CodeSize(a), Matches(a, g.text, c, caps), f + base, exit);
    Correct(b, g, second, c, caps, base, n);
    assert Backtrack(f + base) == Running(Snapshot(second, c, caps, base));
    YieldsMore(g, t, exit, Matches(a, g.text, c, caps), Matches(b, g.text, c, caps), f, base);
    YieldsAfter(g, Running(s), t, exit, Matches(p, g.text, c, caps), base);
  }

  /** A jump after each match. */
  lemma {:induction false} GotoYields(g: Program, st: Status, mid: nat, l: seq<Way>, base: seq<Frame>, exit: nat)
    requires Yields(g, st, mid, l, base) && exit >= mid + 5
    requires Fetch(g.code, mid) == (Goto(exit - mid - 5), mid + 5)
    ensures Yields(g, st, exit, l, base)
    decreases |l|
  {
    hide Reach, Fetch, AllSplits;
    if l != [] {
      var x := FirstYield(g, st, mid, l, base);
      var s := Snapshot(mid, l[0].at, l[0].caps, x + base);
      ReachStep(g, s, Running(s.(pc := exit)));
      ReachTwice(g, st, Running(s), Running(s.(pc := exit)));
      GotoYields(g, Backtrack(x + base), mid, l[1..], base, exit);
      YieldsWith(g, st, exit, l, base, x);
    }
  }

  lemma GroupCorrect(p: Pattern, g: Program, at: nat, c: nat, caps: seq<nat>, base: seq<Frame>, n: nat)
    requires Placed(p, g, at, n) && p.Group? && c <= |g.text| && |caps| == n
    ensures Yields(g, Running(Snapshot(at, c, caps, base)), at + CodeSize(p), Matches(p, g.text, c, caps), base)
    decreases p, Left(g.text, c), 0, 0
  {
    hide Reach, Fetch, WholeChars, Yields, Placed, HasCode;
    PlacedGroup(p, g, at, n);
    PlacedWhole(p, g, at, n);
    var s, caps' := Snapshot(at, c, caps, base), Put(caps, 2 * p.index, c);
    var t := Running(Snapshot(at + 2, c, caps', base));
    var l := Matches(p.body, g.text, c, caps');
    ReachStep(g, s, t);
    Correct(p.body, g, at + 2, c, caps', base, n);
    MatchesWays(p.body, g.text, c, caps');
    SaveYields(g, t, at + 2 + CodeSize(p.body), l, base, 2 * p.index + 1, n);
    YieldsAfter(g, Running(s), t, at + CodeSize(p), PutAll(l, 2 * p.index + 1), base);
  }

  lemma LookCorrect(p: Pattern, g: Program, at: nat, c: nat, caps: seq<nat>, base: seq<Frame>, n: nat)
    requires Placed(p, g, at, n) && p.Look? && c <= |g.text| && |caps| == n
    ensures Yields(g, Running(Snapshot(at, c, caps, base)), at + CodeSize(p), Matches(p, g.text, c, caps), base)
    decreases p, Left(g.text, c), 0, 0
  {
    hide Reach, Fetch, WholeChars, Yields, Placed, HasCode, Compilable;
    PlacedLook(p, g, at, n);
    var exit, s := at + CodeSize(p), Snapshot(at, c, caps, base);
    var f := Frame(exit, if p.negative then NEGATIVE_LOOKAHEAD else LOOKAHEAD, c, caps);
    var t := Running(Snapshot(at + 5, c, caps, [f] + base));
    ReachStep(g, s, t);
    Correct(p.body, g, at + 5, c, caps, [f] + base, n);
    LookYields(g, t, at + 5 + CodeSize(p.body), Matches(p.body, g.text, c, caps), p.negative, exit, c, caps, base);
    YieldsAfter(g, Running(s), t, exit, Matches(p, g.text, c, caps), base);
  }

  lemma GuardedCorrect(p: Pattern, g: Program, at: nat, c: nat, caps: seq<nat>, base: seq<Frame>, n: nat)
    requires Placed(p, g, at, n) && p.Guarded? && c <= |g.text| && |caps| == n
    ensures Yields(g, Running(Snapshot(at, c, caps, base)), at + CodeSize(p), Matches(p, g.text, c, caps), base)
    decreases p, Left(g.text, c), 0, 0
  {
    hide Reach, Fetch, WholeChars, Yields, Placed, HasCode;
    PlacedGuarded(p, g, at, n);
    PlacedWhole(p, g, at, n);
    var s, caps', reg := Snapshot(at, c, caps, base), Put(caps, p.slot, c), p.slot - 2 * g.count;
    var t := Running(Snapshot(at + 2, c, caps', base));
    var l := Matches(p.body, g.text, c, caps');
    ReachStep(g, s, t);
    Correct(p.body, g, at + 2, c, caps', base, n);
    MatchesSound(p.body, g.text, c, caps', p.slot);
    forall k | 0 <= k < |l| ensures p.slot < |l[k].caps| && l[k].caps[p.slot] == c {
      assert Sound(l[k], g.text, c, caps', p.slot, WritesTo(p.body, p.slot));
    }
    CheckYields(g, t, at + 2 + CodeSize(p.body), l, base, reg, c);
    YieldsAfter(g, Running(s), t, at + CodeSize(p), Moved(l, c), base);
  }

  /** The code of p after each match of what comes before it. */
  lemma {:induction false} ThenYields(p: Pattern, g: Program, st: Status, mid: nat, l: seq<Way>, base: seq<Frame>, n: nat, c: nat)
    requires Placed(p, g, mid, n) && Yields(g, st, mid, l, base) && Ways(l, g.text, c, n)
    ensures Yields(g, st, mid + CodeSize(p), Then(p, g.text, l), base)
    decreases p, ThenMeasure(p, g.text), 0, |l|
  {
    hide Reach, Fetch, WholeChars, Placed, HasCode, AllSplits, Matches, Backtrack;
    var exit := mid + CodeSize(p);
    if l != [] {
      var x := FirstYield(g, st, mid, l, base);
      var t := Running(Snapshot(mid, l[0].at, l[0].caps, x + base));
      var m := Matches(p, g.text, l[0].at, l[0].caps);
      Correct(p, g, mid, l[0].at, l[0].caps, x + base, n);
      YieldsAfter(g, st, t, exit, m, x + base);
      ThenYields(p, g, Backtrack(x + base), mid, l[1..], base, n, c);
      YieldsMore(g, st, exit, m, Then(p, g.text, l[1..]), x, base);
    }
  }

  /** Back to the split of a loop after each match of its body. */
  lemma {:induction false} AgainYields(p: Pattern, g: Program, st: Status, at: nat, l: seq<Way>, base: seq<Frame>, n: nat, c: nat)
    requires Placed(p, g, at, n) && p.Repeat? && c <= |g.text| && Ways(l, g.text, c, n) && AllPast(l, c)
    requires Yields(g, st, at + 5 + CodeSize(p.body), l, base)
    ensures Yields(g, st, at + CodeSize(p), Again(p, g.text, c, l), base)
    decreases p, Left(g.text, c), 0, |l|
  {
    hide Reach, Fetch, WholeChars, Placed, HasCode, AllSplits, Matches, Backtrack;
    var mid, exit := at + 5 + CodeSize(p.body), at + CodeSize(p);
    if l != [] {
      var x := FirstYield(g, st, mid, l, base);
      var s := Snapshot(mid, l[0].at, l[0].caps, x + base);
      var t := Running(s.(pc := at));
      var m := Matches(p, g.text, l[0].at, l[0].caps);
      PlacedRepeat(p, g, at, n);
      ReachStep(g, s, t);
      ReachTwice(g, st, Running(s), t);
      Correct(p, g, at, l[0].at, l[0].caps, x + base, n);
      YieldsAfter(g, st, t, exit, m, x + base);
      AgainYields(p, g, Backtrack(x + base), at, l[1..], base, n, c);
      YieldsMore(g, st, exit, m, Again(p, g.text, c, l[1..]), x, base);
    }
  }

  /** After a split at the end of a loop body: back to its start and on, in the order preferred. */
  lemma SplitYields(g: Program, back: nat, exit: nat, w: Way, base: seq<Frame>, greedy: bool, m: seq<Way>)
    requires var f := if greedy then [Frame(exit, SPLIT, w.at, w.caps)] + base else base;
             Yields(g, Running(Snapshot(back, w.at, w.caps, f)), exit, m, f)
    ensures var f := [Frame(if greedy then exit else back, SPLIT, w.at, w.caps)] + base;
            Yields(g, Running(Snapshot(if greedy then back else exit, w.at, w.caps, f)), exit,
                   if greedy then m + [w] else [w] + m, base)
  {
    hide Reach, Fetch, Yields;
    var f := [Frame(if greedy then exit else back, SPLIT, w.at, w.caps)];
    var t := Running(Snapshot(if greedy then back else exit, w.at, w.caps, f + base));
    assert (f + base)[1..] == base;
    if greedy {
      ReachSelf(g, Backtrack(f + base));
      YieldsOne(g, Backtrack(f + base), exit, w, base);
      YieldsMore(g, t, exit, m, [w], f, base);
    } else {
      assert ([w] + m)[1..] == m && ([w] + m)[0] == w;
      ReachSelf(g, t);
      YieldsWith(g, t, exit, [w] + m, base, f);
    }
  }

  lemma LoopEndYields(g: Program, mid: nat, back: nat, w: Way, base: seq<Frame>, greedy: bool, m: seq<Way>)
    requires back <= mid && Fetch(g.code, mid) == (Split(!greedy, back - mid - 5), mid + 5)
    requires var f := if greedy then [Frame(mid + 5, SPLIT, w.at, w.caps)] + base else base;
             Yields(g, Running(Snapshot(back, w.at, w.caps, f)), mid + 5, m, f)
    ensures Yields(g, Running(Snapshot(mid, w.at, w.caps, base)), mid + 5, if greedy then m + [w] else [w] + m, base)
  {
    hide Reach, Fetch, Yields;
    var s, exit := Snapshot(mid, w.at, w.caps, base), mid + 5;
    var f := [Frame(if greedy then exit else back, SPLIT, w.at, w.caps)];
    var t := Running(Snapshot(if greedy then back else exit, w.at, w.caps, f + base));
    ReachStep(g, s, t);
    SplitYields(g, back, exit, w, base, greedy, m);
    YieldsAfter(g, Running(s), t, exit, if greedy then m + [w] else [w] + m, base);
  }

  lemma {:induction false} MoreYields(p: Pattern, g: Program, st: Status, at: nat, l: seq<Way>, base: seq<Frame>, n: nat, c: nat)
    requires Placed(p, g, at, n) && p.Plus? && c <= |g.text| && Ways(l, g.text, c, n) && AllPast(l, c)
    requires Yields(g, st, at + CodeSize(p.body), l, base)
    ensures Yields(g, st, at + CodeSize(p), More(p, g.text, c, l), base)
    decreases p, Left(g.text, c), 0, |l|
  {
    hide Reach, Fetch, WholeChars, Placed, HasCode, AllSplits, Matches, Backtrack;
    var mid, exit := at + CodeSize(p.body), at + CodeSize(p);
    if l != [] {
      var x := FirstYield(g, st, mid, l, base);
      var here := x + base;
      var t := Running(Snapshot(mid, l[0].at, l[0].caps, here));
      var m := Matches(p, g.text, l[0].at, l[0].caps);
      PlacedPlus(p, g, at, n);
      var below := if p.greedy then [Frame(exit, SPLIT, l[0].at, l[0].caps)] + here else here;
      Correct(p, g, at, l[0].at, l[0].caps, below, n);
      LoopEndYields(g, mid, at, l[0], here, p.greedy, m);
      var once := if p.greedy then m + [l[0]] else [l[0]] + m;
      YieldsAfter(g, st, t, exit, once, here);
      MoreYields(p, g, Backtrack(here), at, l[1..], base, n, c);
      YieldsMore(g, st, exit, once, More(p, g.text, c, l[1..]), x, base);
    }
  }

  // ---------- counted loops ----------

  /** One round and what follows it, with k rounds to go and the counter saying so. */
  lemma RoundCorrect(p: Pattern, k: nat, g: Program, at: nat, c: nat, caps: seq<nat>, base: seq<Frame>, n: nat)
    requires LoopPlaced(p, g, at, n) && c <= |g.text| && |caps| == n && 0 < k && p.slot < n && caps[p.slot] == k
    ensures Yields(g, Running(Snapshot(LoopStart(p, at), c, caps, base)), at + CodeSize(p),
                   Rounds(p, k, g.text, c, Matches(p.body, g.text, c, RoundCaps(p, c, caps))), base)
    decreases p, k, 2, 0
  {
    hide Reach, Fetch, WholeChars, Yields, Placed, HasCode, Matches, Rounds, LoopInstr, CodeSize;
    var s, caps' := Snapshot(LoopStart(p, at), c, caps, base), RoundCaps(p, c, caps);
    var t := Running(Snapshot(RoundStart(p, at), c, caps', base));
    var l := Matches(p.body, g.text, c, caps');
    if p.check { ReachStep(g, s, t); } else { ReachSelf(g, t); }
    Correct(p.body, g, RoundStart(p, at), c, caps', base, n);
    RoundWays(p, k, g, at, c, caps', n);
    RoundsYields(p, k, g, t, at, l, base, n, c);
    YieldsAfter(g, Running(s), t, at + CodeSize(p), Rounds(p, k, g.text, c, l), base);
  }

  /** A match of a loop body leaves the loop's registers alone. */
  predicate InRound(p: Pattern, k: nat, text: seq<byte>, c: nat, w: Way, n: nat)
    requires p.Counted?
  {
    && c <= w.at <= |text| && |w.caps| == n && p.slot < n && (p.check ==> p.mark < n)
    && w.caps[p.slot] == k && (p.check ==> w.caps[p.mark] == c)
    && (!p.check && p.min != p.max ==> w.at != c)
  }

  lemma RoundWays(p: Pattern, k: nat, g: Program, at: nat, c: nat, caps: seq<nat>, n: nat)
    requires LoopPlaced(p, g, at, n) && c <= |g.text| && |caps| == n
    requires p.slot < n && caps[p.slot] == k && (p.check ==> p.mark < n && caps[p.mark] == c)
    ensures forall w :: w in Matches(p.body, g.text, c, caps) ==> InRound(p, k, g.text, c, w, n)
  {
    hide Fetch, WholeChars, Placed, HasCode, Matches;
    var l := Matches(p.body, g.text, c, caps);
    MatchesSound(p.body, g.text, c, caps, p.slot);
    MatchesSound(p.body, g.text, c, caps, p.mark);
    if !p.check && p.min != p.max { AdvancesMoves(p.body, g.text, c, caps, g.count, n); }
    forall i | 0 <= i < |l| ensures InRound(p, k, g.text, c, l[i], n) {
      assert Sound(l[i], g.text, c, caps, p.slot, WritesTo(p.body, p.slot));
      assert Sound(l[i], g.text, c, caps, p.mark, WritesTo(p.body, p.mark));
    }
  }

  lemma {:induction false} RoundsYields(p: Pattern, k: nat, g: Program, st: Status, at: nat, l: seq<Way>, base: seq<Frame>, n: nat, c: nat)
    requires p.Counted? && LoopPlaced(p, g, at, n) && 0 < k && forall w :: w in l ==> InRound(p, k, g.text, c, w, n)
    requires Yields(g, st, LoopEnd(p, at), l, base)
    ensures Yields(g, st, at + CodeSize(p), Rounds(p, k, g.text, c, l), base)
    decreases p, k, 0, |l|
  {
    hide Reach, Fetch, LoopPlaced, AllSplits, Times, Backtrack, InRound;
    var mid, exit := LoopEnd(p, at), at + CodeSize(p);
    if l != [] {
      var x := FirstYield(g, st, mid, l, base);
      var here, w := x + base, l[0];
      var once := if k <= Limit(p) && w.at == c then [] else Times(p, k - 1, g.text, w.at, Put(w.caps, p.slot, k - 1));
      RoundEnds(p, k - 1, g, at, w, here, n, c);
      YieldsAfter(g, st, Running(Snapshot(mid, w.at, w.caps, here)), exit, once, here);
      RoundsYields(p, k, g, Backtrack(here), at, l[1..], base, n, c);
      YieldsMore(g, st, exit, once, Rounds(p, k, g.text, c, l[1..]), x, base);
    }
  }

  /** The instruction at the end of the loop, when k rounds will be left. */
  lemma RoundEnds(p: Pattern, k: nat, g: Program, at: nat, w: Way, base: seq<Frame>, n: nat, c: nat)
    requires LoopPlaced(p, g, at, n) && InRound(p, k + 1, g.text, c, w, n)
    ensures Yields(g, Running(Snapshot(LoopEnd(p, at), w.at, w.caps, base)), at + CodeSize(p),
                   if k < Limit(p) && w.at == c then [] else Times(p, k, g.text, w.at, Put(w.caps, p.slot, k)), base)
    decreases p, k, 3, 0
  {
    hide Reach, Fetch, Yields, Rounds, Matches, Placed, WholeChars, CodeSize;
    var s, exit, back := Snapshot(LoopEnd(p, at), w.at, w.caps, base), at + CodeSize(p), LoopStart(p, at);
    var v := Way(w.at, Put(w.caps, p.slot, k));
    var again := if k == 0 then [] else Rounds(p, k, g.text, v.at, Matches(p.body, g.text, v.at, RoundCaps(p, v.at, v.caps)));
    if k > Limit(p) {
      RoundCorrect(p, k, g, at, v.at, v.caps, base, n);
      RoundStep(p, k, g, at, w, base, n, c, Running(Snapshot(back, v.at, v.caps, base)));
      YieldsAfter(g, Running(s), Running(Snapshot(back, v.at, v.caps, base)), exit, again, base);
    } else if k < Limit(p) && w.at == c {
      RoundStep(p, k, g, at, w, base, n, c, Backtrack(base));
      YieldsNone(g, Running(s), exit, base);
    } else if k == 0 {
      RoundStep(p, k, g, at, w, base, n, c, Running(Snapshot(exit, v.at, v.caps, base)));
      YieldsOne(g, Running(s), exit, v, base);
      assert [] + [v] == [v] + [] == [v];
    } else {
      var below := if p.greedy then [Frame(exit, SPLIT, v.at, v.caps)] + base else base;
      var f := [Frame(if p.greedy then exit else back, SPLIT, v.at, v.caps)] + base;
      var t := Running(Snapshot(if p.greedy then back else exit, v.at, v.caps, f));
      RoundCorrect(p, k, g, at, v.at, v.caps, below, n);
      SplitYields(g, back, exit, v, base, p.greedy, again);
      RoundStep(p, k, g, at, w, base, n, c, t);
      YieldsAfter(g, Running(s), t, exit, if p.greedy then again + [v] else [v] + again, base);
    }
  }

  lemma RoundStep(p: Pattern, k: nat, g: Program, at: nat, w: Way, base: seq<Frame>, n: nat, c: nat, t: Status)
    requires LoopPlaced(p, g, at, n) && InRound(p, k + 1, g.text, c, w, n)
    requires var v := Way(w.at, Put(w.caps, p.slot, k)); var back, exit := LoopStart(p, at), at + CodeSize(p);
             t == (if k > Limit(p) then Running(Snapshot(back, v.at, v.caps, base))
                   else if k < Limit(p) && w.at == c then Backtrack(base)
                   else if k == 0 then Running(Snapshot(exit, v.at, v.caps, base))
                   else Running(Snapshot(if p.greedy then back else exit, v.at, v.caps,
                                         [Frame(if p.greedy then exit else back, SPLIT, v.at, v.caps)] + base)))
    ensures Reach(g, Running(Snapshot(LoopEnd(p, at), w.at, w.caps, base)), t)
  {
    hide Reach, Fetch, Placed, WholeChars, Backtrack;
    ReachStep(g, Snapshot(LoopEnd(p, at), w.at, w.caps, base), t);
  }

  lemma CountedCorrect(p: Pattern, g: Program, at: nat, c: nat, caps: seq<nat>, base: seq<Frame>, n: nat)
    requires Placed(p, g, at, n) && p.Counted? && c <= |g.text| && |caps| == n
    ensures Yields(g, Running(Snapshot(at, c, caps, base)), at + CodeSize(p), Matches(p, g.text, c, caps), base)
    decreases p, p.max + 1, 0, 0
  {
    hide Reach, Fetch, WholeChars, Yields, Placed, HasCode, Rounds, CodeSize;
    PlacedCounted(p, g, at, n);
    PlacedWhole(p, g, at, n);
    var exit, start, caps' := at + CodeSize(p), LoopStart(p, at) - 6, Put(caps, p.slot, p.max);
    var below := if p.min == 0 && p.greedy then [Frame(exit, SPLIT, c, caps)] + base else base;
    var l := Rounds(p, p.max, g.text, c, Matches(p.body, g.text, c, RoundCaps(p, c, caps')));
    var s, t := Snapshot(start, c, caps, below), Running(Snapshot(start + 6, c, caps', below));
    ReachStep(g, s, t);
    RoundCorrect(p, p.max, g, at, c, caps', below, n);
    YieldsAfter(g, Running(s), t, exit, l, below);
    if p.min == 0 && p.greedy {
      GreedyYields(g, at, c, caps, base, CodeSize(p) - 5, exit, l);
    } else if p.min == 0 {
      LazyYields(g, at, c, caps, base, CodeSize(p) - 5, exit, l);
    }
  }
}
