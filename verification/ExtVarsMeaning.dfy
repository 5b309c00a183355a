/** What the rewrite of outer variables keeps: which variables the code reads and writes, and the depths of its stack. */
module ExtVarsMeaning {
  import opened Bytes
  import opened Opcodes
  import opened ExtVars
  import opened StackVerifier

  // ---------- variables read and written ----------

  /** An instruction as the variables see it. */
  datatype Access = Reads(name: nat) | Writes(name: nat) | Other(bytes: seq<byte>)

  /** The names of a function: its arguments and locals, and two words for each outer variable. */
  datatype Names = Names(vars: seq<nat>, args: nat, ext: seq<nat>)

  predicate ReadsOuter(op: nat) { op == OP_GET_VAR_REF || op == OP_GET_VAR_REF_NOCHECK }

  predicate WritesOuter(op: nat) { op == OP_PUT_VAR_REF || op == OP_PUT_VAR_REF_NOCHECK }

  lemma AccessSize(op: nat)
    requires ReadsOuter(op) || WritesOuter(op) || op == OP_GET_LOC || op == OP_PUT_LOC
    ensures OpSize(op) == 3
  {}

  function AccessAt(s: seq<byte>, m: Names): Access
    requires s != [] && WellFormed(s)
  {
    var op, other := s[0], Other(s[..OpSize(s[0])]);
    if ReadsOuter(op) || WritesOuter(op) || op == OP_GET_LOC || op == OP_PUT_LOC then
      AccessSize(op);
      var i := U16(s, 1);
      if op == OP_GET_LOC then if m.args + i < |m.vars| then Reads(m.vars[m.args + i]) else other
      else if op == OP_PUT_LOC then if m.args + i < |m.vars| then Writes(m.vars[m.args + i]) else other
      else if 2 * i >= |m.ext| then other
      else if ReadsOuter(op) then Reads(m.ext[2 * i]) else Writes(m.ext[2 * i])
    else other
  }

  /** The instructions of s in order. */
  function Accesses(s: seq<byte>, m: Names): seq<Access>
    requires WellFormed(s)
  {
    if s == [] then [] else [AccessAt(s, m)] + Accesses(s[OpSize(s[0])..], m)
  }

  /** The rewritten code reads and writes the variables it did, in the same order, by the names that remain. */
  lemma {:induction false} SameAccesses(s: seq<byte>, vars: seq<nat>, args: nat, ext: seq<nat>, n: nat)
    requires WellFormed(s) && 2 * n <= |ext| && n <= 0x1_0000 && |vars| <= 0x1_0000
    ensures var f := Targets(ext, vars, args, n);
            && Fits(f) && WellFormed(Rewrite(s, f))
            && Accesses(Rewrite(s, f), Names(vars, args, Remaining(ext, vars, args, n)))
               == Accesses(s, Names(vars, args, ext[..2 * n]))
    decreases |s|
  {
    hide Targets, Remaining, OpSize, NewInstr, AccessAt;
    TargetsShape(ext, vars, args, n);
    var f := Targets(ext, vars, args, n);
    RewriteWellFormed(s, f);
    if s != [] {
      StartOf(s, f);
      NewOp(s, f);
      var r, rest := Rewrite(s, f), s[OpSize(s[0])..];
      SameAccesses(rest, vars, args, ext, n);
      assert r[..OpSize(s[0])] == NewInstr(s, f) && r[OpSize(s[0])..] == Rewrite(rest, f);
      SameAccess(s, r, vars, args, ext, n);
    }
  }

  lemma SameAccess(s: seq<byte>, r: seq<byte>, vars: seq<nat>, args: nat, ext: seq<nat>, n: nat)
    requires s != [] && WellFormed(s) && 2 * n <= |ext| && n <= 0x1_0000 && |vars| <= 0x1_0000
    requires Fits(Targets(ext, vars, args, n)) && WellFormed(r) && OpSize(s[0]) <= |r|
    requires r[..OpSize(s[0])] == NewInstr(s, Targets(ext, vars, args, n))
    ensures r != []
    ensures AccessAt(r, Names(vars, args, Remaining(ext, vars, args, n))) == AccessAt(s, Names(vars, args, ext[..2 * n]))
  {
    hide Targets, Remaining, WellFormed, OpSize, U16, NewInstr, AccessAt, Fits;
    var f, k := Targets(ext, vars, args, n), OpSize(s[0]);
    NewOp(s, f);
    WholeFirst(s);
    assert r[0] == r[..k][0];
    if IsRef(s[0]) {
      SameRef(s, r, vars, args, ext, n);
    } else {
      NotRef(s, f);
      assert r[0] == s[..k][0] == s[0];
      SameOther(s, r, Names(vars, args, ext[..2 * n]), Names(vars, args, Remaining(ext, vars, args, n)));
    }
  }

  lemma SameOther(s: seq<byte>, r: seq<byte>, m: Names, m': Names)
    requires s != [] && r != [] && WellFormed(s) && WellFormed(r) && r[0] == s[0] && !IsRef(s[0])
    requires OpSize(s[0]) <= |r| && OpSize(s[0]) <= |s| && r[..OpSize(s[0])] == s[..OpSize(s[0])]
    requires m'.vars == m.vars && m'.args == m.args
    ensures AccessAt(r, m') == AccessAt(s, m)
  {
    hide WellFormed, OpSize, U16;
    if s[0] == OP_GET_LOC || s[0] == OP_PUT_LOC {
      RefSize(s[0]);
      SamePrefix(s, s[..3]);
      SamePrefix(r, r[..3]);
    }
  }

  lemma SameRef(s: seq<byte>, r: seq<byte>, vars: seq<nat>, args: nat, ext: seq<nat>, n: nat)
    requires s != [] && WellFormed(s) && 2 * n <= |ext| && n <= 0x1_0000 && |vars| <= 0x1_0000 && IsRef(s[0])
    requires Fits(Targets(ext, vars, args, n)) && WellFormed(r) && OpSize(s[0]) <= |r|
    requires r[..OpSize(s[0])] == NewInstr(s, Targets(ext, vars, args, n))
    ensures r != []
    ensures AccessAt(r, Names(vars, args, Remaining(ext, vars, args, n))) == AccessAt(s, Names(vars, args, ext[..2 * n]))
  {
    hide Targets, Remaining, WellFormed, OpSize, U16, NewInstr;
    var f := Targets(ext, vars, args, n);
    RefSize(s[0]);
    RefSize(LocalOp(s[0]));
    WholeFirst(s);
    SamePrefix(s, s[..3]);
    SamePrefix(r, r[..3]);
    var i := U16(s, 1);
    RemainingFits(ext, vars, args, n);
    if i < n {
      TargetsKeepNames(ext, vars, args, n, i);
      assert ext[..2 * n][2 * i] == ext[2 * i];
      RefTarget(s, r, f, i);
    } else {
      Untouched(s, f, i);
    }
  }

  lemma RefTarget(s: seq<byte>, r: seq<byte>, f: seq<ExtVars.Target>, i: nat)
    requires s != [] && WellFormed(s) && Fits(f) && IsRef(s[0]) && OpSize(s[0]) <= |s| && |s| >= 3 && |r| >= 3
    requires r[..3] == NewInstr(s, f) && U16(s, 1) == i < |f|
    ensures r[0] == if f[i].Local? then LocalOp(s[0]) else s[0]
    ensures U16(r, 1) == f[i].index
  {
    hide WellFormed, OpSize, LocalOp;
    RefSize(s[0]);
    Replaced(s, f, i, f[i]);
    assert r[0] == r[..3][0] && r[1] == r[..3][1] && r[2] == r[..3][2];
  }

  lemma {:induction false} RemainingFits(ext: seq<nat>, vars: seq<nat>, args: nat, n: nat)
    requires 2 * n <= |ext|
    ensures |Remaining(ext, vars, args, n)| <= 2 * n
  {}

  // ---------- stack depths ----------

  /** An instruction of s starts at p, or s ends there. */
  predicate Starts(s: seq<byte>, p: nat)
    requires WellFormed(s)
  {
    p == 0 || (s != [] && OpSize(s[0]) <= p && Starts(s[OpSize(s[0])..], p - OpSize(s[0])))
  }

  /** At p the two are instructions with the same effect on the stack that go on at the same places. */
  predicate SameEffect(s: seq<byte>, r: seq<byte>, p: nat) {
    && IsInstruction(s, p) && IsInstruction(r, p) && OpSize(s[p]) == OpSize(r[p]) && OpPushes(s[p]) == OpPushes(r[p])
    && Pops(s, p) == Pops(r, p) && Jumps(s[p]) == Jumps(r[p]) && FallsThrough(s[p]) == FallsThrough(r[p])
    && (Jumps(s[p]) ==> s[p] == r[p] && StackVerifier.Target(s, p) == StackVerifier.Target(r, p))
  }

  /** A local is read as an outer variable is, and written as one is. */
  lemma LocalEffect(op: byte)
    requires IsRef(op)
    ensures var l := LocalOp(op);
            && OpSize(op) == OpSize(l) == 3 && OpPops(op) == OpPops(l) && OpPushes(op) == OpPushes(l)
            && !CountsArguments(op) && !CountsArguments(l) && !Jumps(op) && !Jumps(l)
            && FallsThrough(op) && FallsThrough(l) && 0 < l < OP_COUNT && op < OP_COUNT
  {}

  lemma RefReplaced(s: seq<byte>, f: seq<ExtVars.Target>, r0: byte)
    requires s != [] && WellFormed(s) && Fits(f) && IsRef(s[0]) && r0 == NewInstr(s, f)[0]
    ensures r0 == s[0] || r0 == LocalOp(s[0])
  {
    hide WellFormed, OpSize, U16;
    RefSize(s[0]);
    WholeFirst(s);
  }

  lemma SameEffectFirst(s: seq<byte>, f: seq<ExtVars.Target>, r: seq<byte>)
    requires s != [] && WellFormed(s) && Fits(f) && |r| == |s| && OpSize(s[0]) <= |s| && r[..OpSize(s[0])] == NewInstr(s, f)
    ensures SameEffect(s, r, 0)
  {
    hide U16, U32, WellFormed, OpSize, OpPops, OpPushes, NewInstr, IsRef, Jumps, FallsThrough, CountsArguments, LocalOp;
    NewOp(s, f);
    WholeFirst(s);
    var k := OpSize(s[0]);
    assert r[0] == r[..k][0];
    if IsRef(s[0]) {
      LocalEffect(s[0]);
      RefReplaced(s, f, r[0]);
    } else {
      NotRef(s, f);
      SameStart(s, r, k);
      if CountsArguments(s[0]) { CallSize(s[0]); SameWord(s, r); }
      if Jumps(s[0]) { JumpIs(s[0]); SameLong(s, r); }
    }
  }

  lemma JumpIs(op: nat)
    requires Jumps(op)
    ensures OpSize(op) == 5
  {
    JumpSize(op);
  }

  lemma SameStart(s: seq<byte>, r: seq<byte>, k: nat)
    requires k <= |s| && k <= |r| && r[..k] == s[..k]
    ensures forall i :: 0 <= i < k ==> r[i] == s[i]
  {
    forall i | 0 <= i < k ensures r[i] == s[i] { assert r[i] == r[..k][i] && s[i] == s[..k][i]; }
  }

  lemma SameWord(s: seq<byte>, r: seq<byte>)
    requires |s| >= 3 && |r| >= 3 && forall i :: 0 <= i < 3 ==> r[i] == s[i]
    ensures U16(s, 1) == U16(r, 1)
  {}

  lemma SameLong(s: seq<byte>, r: seq<byte>)
    requires |s| >= 5 && |r| >= 5 && forall i :: 0 <= i < 5 ==> r[i] == s[i]
    ensures U32(s, 1) == U32(r, 1)
  {}

  /** Where an instruction stands is only what its jump distance counts from. */
  lemma EffectMoved(s: seq<byte>, r: seq<byte>, s': seq<byte>, r': seq<byte>, p: nat, k: nat)
    requires |s| == |r| && k <= |s| && s' == s[k..] && r' == r[k..] && k <= p && SameEffect(s', r', p - k)
    ensures SameEffect(s, r, p)
  {
    var q := p - k;
    assert forall i :: 0 <= i < |s'| ==> s'[i] == s[k + i] && r'[i] == r[k + i];
    if CountsArguments(s[p]) {
      CallSize(s[p]);
    }
    if Jumps(s[p]) {
      JumpSize(s[p]);
      JumpFrom(s, s', p, k);
      JumpFrom(r, r', p, k);
      SameDistance(s', r', q);
    }
  }

  lemma JumpFrom(s: seq<byte>, s': seq<byte>, p: nat, k: nat)
    requires k <= p && p + 5 <= |s| && s' == s[k..]
    ensures U32(s, p + 1) == U32(s', p - k + 1)
  {}

  lemma SameDistance(s: seq<byte>, r: seq<byte>, q: nat)
    requires IsInstruction(s, q) && IsInstruction(r, q) && Jumps(s[q]) && s[q] == r[q]
    requires StackVerifier.Target(s, q) == StackVerifier.Target(r, q)
    ensures q + 5 <= |s| && q + 5 <= |r| && U32(s, q + 1) == U32(r, q + 1)
  {
    hide U32, OpSize;
    JumpSize(s[q]);
    SameResidue(q + 1, U32(s, q + 1), U32(r, q + 1));
  }

  lemma SameResidue(c: nat, a: nat, b: nat)
    requires a < 0x1_0000_0000 && b < 0x1_0000_0000 && (c + a) % 0x1_0000_0000 == (c + b) % 0x1_0000_0000
    ensures a == b
  {
    var i, j := (c + a) / 0x1_0000_0000, (c + b) / 0x1_0000_0000;
    assert a - b == 0x1_0000_0000 * (i - j);
  }

  lemma {:induction false} RewriteEffects(s: seq<byte>, f: seq<ExtVars.Target>, p: nat)
    requires WellFormed(s) && Fits(f) && Starts(s, p) && p < |s|
    ensures SameEffect(s, Rewrite(s, f), p)
    decreases |s|
  {
    hide SameEffect, OpSize, NewInstr;
    var r, k := Rewrite(s, f), OpSize(s[0]);
    StartOf(s, f);
    NewOp(s, f);
    assert r[..k] == NewInstr(s, f) && r[k..] == Rewrite(s[k..], f);
    if p == 0 {
      SameEffectFirst(s, f, r);
    } else {
      RewriteEffects(s[k..], f, p - k);
      EffectMoved(s, r, s[k..], r[k..], p, k);
    }
  }

  /** Jumps lead to instructions of s, or out of it. */
  ghost predicate Aligned(s: seq<byte>)
    requires WellFormed(s)
  {
    forall p: nat {:trigger Starts(s, p)} :: p < |s| && Starts(s, p) && IsInstruction(s, p) && Jumps(s[p]) ==>
      var q := StackVerifier.Target(s, p); Starts(s, q) || q >= |s|
  }

  /** The instructions of the two stand in the same places and have the same effects. */
  ghost predicate Alike(s: seq<byte>, r: seq<byte>)
    requires WellFormed(s)
  {
    |r| == |s| && forall p: nat :: Starts(s, p) && p < |s| ==> SameEffect(s, r, p)
  }

  lemma RewriteAlike(s: seq<byte>, f: seq<ExtVars.Target>)
    requires WellFormed(s) && Fits(f)
    ensures Alike(s, Rewrite(s, f))
  {
    hide SameEffect;
    forall p: nat | Starts(s, p) && p < |s| ensures SameEffect(s, Rewrite(s, f), p) { RewriteEffects(s, f, p); }
  }

  lemma {:induction false} NextStarts(s: seq<byte>, p: nat)
    requires WellFormed(s) && Starts(s, p) && p < |s|
    ensures IsInstruction(s, p) && Starts(s, p + OpSize(s[p]))
    decreases |s|
  {
    hide OpSize;
    WholeFirst(s);
    var k := OpSize(s[0]);
    if p != 0 {
      NextStarts(s[k..], p - k);
      assert s[k..][p - k] == s[p];
    } else {
      assert Starts(s[k..], 0);
    }
  }

  /** From an instruction the code goes on at one, or out of the code. */
  lemma EdgeStays(s: seq<byte>, p: nat, d: int, q: nat, e: int)
    requires WellFormed(s) && Aligned(s) && Starts(s, p) && Edge(s, p, d, q, e)
    ensures Starts(s, q) || q >= |s|
  {
    hide OpSize, Starts, After, StackVerifier.Target, Jumps;
    NextStarts(s, p);
  }

  lemma EdgeAlike(s: seq<byte>, r: seq<byte>, p: nat, d: int, q: nat, e: int)
    requires SameEffect(s, r, p)
    ensures Edge(s, p, d, q, e) <==> Edge(r, p, d, q, e)
    ensures After(s, p, d) == After(r, p, d)
  {
    hide OpSize, OpPushes, Pops, Jumps, FallsThrough, StackVerifier.Target;
  }

  /** A way through the one is a way through the other, and stays on instructions. */
  lemma {:induction false} PathAlike(s: seq<byte>, r: seq<byte>, w: seq<State>)
    requires WellFormed(s) && Aligned(s) && Alike(s, r) && |w| > 0
    ensures Path(s, w) <==> Path(r, w)
    ensures Path(s, w) ==> Starts(s, w[|w| - 1].pos) || w[|w| - 1].pos >= |s|
    decreases |w|
  {
    hide Edge, SameEffect, Aligned, After, IsInstruction;
    if |w| > 1 {
      var n := |w| - 1;
      var v, p, q := w[..n], w[n - 1], w[n];
      PathAlike(s, r, v);
      PathStep(s, w);
      PathStep(r, w);
      if Path(s, v) {
        if p.pos >= |s| {
          EdgeInside(s, p.pos, p.depth, q.pos, q.depth);
          EdgeInside(r, p.pos, p.depth, q.pos, q.depth);
        } else {
          EdgeAlike(s, r, p.pos, p.depth, q.pos, q.depth);
          if Edge(s, p.pos, p.depth, q.pos, q.depth) { EdgeStays(s, p.pos, p.depth, q.pos, q.depth); }
        }
      }
    }
  }

  lemma PathStep(s: seq<byte>, w: seq<State>)
    requires |w| > 1
    ensures var n := |w| - 1;
            Path(s, w) <==> Path(s, w[..n]) && Edge(s, w[n - 1].pos, w[n - 1].depth, w[n].pos, w[n].depth)
  {
    hide Edge;
    var v := w[..|w| - 1];
    if Path(s, v) && Edge(s, w[|w| - 2].pos, w[|w| - 2].depth, w[|w| - 1].pos, w[|w| - 1].depth) {
      forall k | 0 <= k < |w| - 1 ensures Edge(s, w[k].pos, w[k].depth, w[k + 1].pos, w[k + 1].depth) {
        if k < |v| - 1 { assert v[k] == w[k] && v[k + 1] == w[k + 1]; }
      }
    }
  }

  lemma EdgeInside(s: seq<byte>, p: nat, d: int, q: nat, e: int)
    ensures Edge(s, p, d, q, e) ==> p < |s|
  {}

  lemma ReachesAlike(s: seq<byte>, r: seq<byte>)
    requires WellFormed(s) && Aligned(s) && Alike(s, r)
    ensures forall p: nat, d :: Reaches(s, p, d) <==> Reaches(r, p, d)
    ensures forall p: nat, d :: Reaches(s, p, d) ==> Starts(s, p) || p >= |s|
  {
    hide Aligned, Alike, Starts, Edge;
    forall p: nat, d ensures Reaches(s, p, d) <==> Reaches(r, p, d) {
      if Reaches(s, p, d) {
        var w :| Path(s, w) && w[|w| - 1] == State(p, d);
        PathAlike(s, r, w);
      }
      if Reaches(r, p, d) {
        var w :| Path(r, w) && w[|w| - 1] == State(p, d);
        PathAlike(s, r, w);
      }
    }
    forall p: nat, d | Reaches(s, p, d) ensures Starts(s, p) || p >= |s| {
      var w :| Path(s, w) && w[|w| - 1] == State(p, d);
      PathAlike(s, r, w);
    }
  }

  lemma InstrAlike(s: seq<byte>, r: seq<byte>, p: nat)
    requires WellFormed(s) && Alike(s, r) && (Starts(s, p) || p >= |s|)
    ensures IsInstruction(s, p) <==> IsInstruction(r, p)
    ensures IsInstruction(s, p) ==> Pops(s, p) == Pops(r, p) && forall d :: After(s, p, d) == After(r, p, d)
  {
    hide Starts, OpSize, OpPushes, OpPops, Jumps, FallsThrough, StackVerifier.Target;
  }

  lemma HoldsAlike(s: seq<byte>, r: seq<byte>)
    requires WellFormed(s) && Alike(s, r)
    requires forall p: nat, d :: Reaches(s, p, d) <==> Reaches(r, p, d)
    requires forall p: nat, d :: Reaches(s, p, d) ==> Starts(s, p) || p >= |s|
    ensures forall size :: Holds(s, size) <==> Holds(r, size)
    ensures forall size :: Attained(s, size) <==> Attained(r, size)
    ensures Faulty(s) <==> Faulty(r)
  {
    hide Starts, Alike, Reaches, IsInstruction, Pops, After;
    forall p: nat, d | Reaches(s, p, d)
      ensures IsInstruction(s, p) <==> IsInstruction(r, p)
      ensures IsInstruction(s, p) ==> Pops(s, p) == Pops(r, p) && After(s, p, d) == After(r, p, d)
    {
      InstrAlike(s, r, p);
    }
  }

  /** An exact assignment for one is one for the other, once it is cut down to where instructions start. */
  lemma ExactFrom(s: seq<byte>, a: seq<byte>, b: seq<byte>)
    requires WellFormed(s) && Aligned(s) && Alike(s, a) && Alike(s, b) && Exact(a)
    ensures Exact(b)
  {
    hide Aligned, Alike, Consistent, Starts;
    var marks, bound :| Checked(a, marks, bound) && bound <= 253;
    var less := map p: nat | p in marks && Starts(s, p) :: marks[p];
    assert Starts(s, 0) by { ZeroStarts(s); }
    forall p | p in less ensures Consistent(b, less, bound, p) {
      assert Consistent(a, marks, bound, p);
      ConsistentFrom(s, a, b, marks, less, bound, p);
    }
    assert Checked(b, less, bound);
  }

  lemma ZeroStarts(s: seq<byte>)
    requires WellFormed(s)
    ensures Starts(s, 0)
  {}

  lemma ConsistentFrom(s: seq<byte>, a: seq<byte>, b: seq<byte>, marks: map<nat, nat>, less: map<nat, nat>, bound: nat, p: nat)
    requires WellFormed(s) && Aligned(s) && Alike(s, a) && Alike(s, b) && Checked(a, marks, bound)
    requires p in marks && Starts(s, p) && Consistent(a, marks, bound, p)
    requires less == map p: nat | p in marks && Starts(s, p) :: marks[p]
    ensures p in less && Consistent(b, less, bound, p)
  {
    hide Aligned, Starts, Edge, OpSize, OpPushes, OpPops, Jumps, FallsThrough, StackVerifier.Target, Pops;
    assert p < |s|;
    assert SameEffect(s, a, p) && SameEffect(s, b, p);
    forall q, e | Edge(b, p, less[p], q, e) ensures q in less && less[q] % 255 == e % 255 {
      EdgeAlike(s, a, p, marks[p], q, e);
      EdgeAlike(s, b, p, marks[p], q, e);
      EdgeStays(s, p, marks[p], q, e);
      assert Consistent(a, marks, bound, q);
    }
  }

  lemma SameItself(s: seq<byte>)
    requires WellFormed(s)
    ensures Alike(s, s)
  {
    hide Starts, OpSize, OpPushes, OpPops;
    forall p: nat | Starts(s, p) && p < |s| ensures SameEffect(s, s, p) { NextStarts(s, p); }
  }

  /** The rewrite keeps every depth on every way through the code, so the size of stack that holds them, and whether there is
      an exact assignment of depths. */
  lemma DepthsKept(s: seq<byte>, f: seq<ExtVars.Target>)
    requires WellFormed(s) && Fits(f) && Aligned(s)
    ensures var r := Rewrite(s, f);
            && (forall p: nat, d :: Reaches(s, p, d) <==> Reaches(r, p, d))
            && (forall size :: Holds(s, size) <==> Holds(r, size))
            && (forall size :: Attained(s, size) <==> Attained(r, size))
            && (Faulty(s) <==> Faulty(r)) && (Exact(s) <==> Exact(r))
  {
    hide *;
    var r := Rewrite(s, f);
    RewriteAlike(s, f);
    RewriteWellFormed(s, f);
    ReachesAlike(s, r);
    HoldsAlike(s, r);
    SameItself(s);
    if Exact(s) { ExactFrom(s, s, r); }
    if Exact(r) { ExactFrom(s, r, s); }
  }
}
