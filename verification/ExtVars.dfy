/**
 convert_ext_vars_to_local_vars: references to outer variables that turn out to be the function's own
 become local accesses, and the remaining ones are renumbered, sixteen at a time and in place.
 The result is one substitution.
 */
module ExtVars {
  import opened Bytes
  import opened Opcodes

  const CHUNK: nat := 16

  /** Where a reference goes: a local of the function, or a place among the outer variables that remain. */
  datatype Target = Local(index: nat) | Slot(index: nat)

  predicate IsRef(op: nat) {
    op == OP_GET_VAR_REF || op == OP_PUT_VAR_REF || op == OP_GET_VAR_REF_NOCHECK || op == OP_PUT_VAR_REF_NOCHECK
  }

  lemma RefSize(op: nat)
    requires IsRef(op) || op == OP_GET_LOC || op == OP_PUT_LOC
    ensures OpSize(op) == 3
  {}

  function LocalOp(op: nat): byte {
    if op == OP_GET_VAR_REF || op == OP_GET_VAR_REF_NOCHECK then OP_GET_LOC else OP_PUT_LOC
  }

  /** Whole instructions from the first byte to the last. */
  predicate WellFormed(s: seq<byte>) {
    s == [] || (0 < s[0] < OP_COUNT && OpSize(s[0]) <= |s| && WellFormed(s[OpSize(s[0])..]))
  }

  function WithOperand(op: byte, v: nat): (r: seq<byte>)
    requires v < 0x1_0000
    ensures |r| == 3 && r[0] == op && U16(r, 1) == v
  {
    [op, v % 256, v / 256]
  }

  predicate Fits(f: seq<Target>) { forall i :: 0 <= i < |f| ==> f[i].index < 0x1_0000 }

  /** The first instruction of s with its reference, if it has one that f knows, replaced. */
  function NewInstr(s: seq<byte>, f: seq<Target>): (r: seq<byte>)
    requires s != [] && WellFormed(s) && Fits(f)
    ensures |r| == OpSize(s[0])
  {
    var op := s[0];
    RefSize(if IsRef(op) then op else OP_GET_LOC);
    if IsRef(op) && U16(s, 1) < |f| then
      var t := f[U16(s, 1)];
      WithOperand(if t.Local? then LocalOp(op) else op, t.index)
    else s[..OpSize(op)]
  }

  /** The substitution: every instruction replaced, none moved. */
  function Rewrite(s: seq<byte>, f: seq<Target>): (r: seq<byte>)
    requires WellFormed(s) && Fits(f)
    ensures |r| == |s|
  {
    if s == [] then [] else NewInstr(s, f) + Rewrite(s[OpSize(s[0])..], f)
  }

  /** A replaced instruction has the size of the old one, so the code stays whole. */
  lemma {:induction false} RewriteWellFormed(s: seq<byte>, f: seq<Target>)
    requires WellFormed(s) && Fits(f)
    ensures WellFormed(Rewrite(s, f))
  {
    if s != [] {
      var n, rest := NewInstr(s, f), s[OpSize(s[0])..];
      RewriteWellFormed(rest, f);
      NewOp(s, f);
      assert (n + Rewrite(rest, f))[|n|..] == Rewrite(rest, f);
    }
  }

  lemma NewOp(s: seq<byte>, f: seq<Target>)
    requires s != [] && WellFormed(s) && Fits(f)
    ensures var n := NewInstr(s, f); n != [] && OpSize(n[0]) == OpSize(s[0]) && 0 < n[0] < OP_COUNT
  {
    RefSize(if IsRef(s[0]) then s[0] else OP_GET_LOC);
    RefSize(LocalOp(s[0]));
  }

  // ---------- composition ----------

  function Identity(n: nat): (f: seq<Target>)
    ensures |f| == n && forall i :: 0 <= i < n ==> f[i] == Slot(i)
  {
    seq(n, i requires 0 <= i < n => Slot(i))
  }

  /** Slots do not move up. */
  predicate Compacting(f: seq<Target>) {
    forall i :: 0 <= i < |f| && f[i].Slot? ==> f[i].index <= i
  }

  /** What one chunk rewrote, later chunks leave alone. */
  lemma {:induction false} RewriteTwice(s: seq<byte>, f: seq<Target>, g: seq<Target>)
    requires WellFormed(s) && Fits(f) && Fits(g) && Compacting(f) && |f| <= 0x1_0000
    ensures WellFormed(Rewrite(s, f)) && Fits(Identity(|f|) + g) && Fits(f + g)
    ensures Rewrite(Rewrite(s, f), Identity(|f|) + g) == Rewrite(s, f + g)
  {
    RewriteWellFormed(s, f);
    if s != [] {
      var n, rest := NewInstr(s, f), s[OpSize(s[0])..];
      RewriteTwice(rest, f, g);
      NewOp(s, f);
      var again := n + Rewrite(rest, f);
      assert again[|n|..] == Rewrite(rest, f);
      InstrTwice(s, again, f, g);
    }
  }

  lemma InstrTwice(s: seq<byte>, again: seq<byte>, f: seq<Target>, g: seq<Target>)
    requires s != [] && WellFormed(s) && Fits(f) && Fits(g) && Compacting(f) && |f| <= 0x1_0000
    requires WellFormed(again) && |again| >= OpSize(s[0]) && again[..OpSize(s[0])] == NewInstr(s, f)
    ensures Fits(Identity(|f|) + g) && Fits(f + g) && again != []
    ensures NewInstr(again, Identity(|f|) + g) == NewInstr(s, f + g)
  {
    hide WellFormed, OpSize, U16;
    NewOp(s, f);
    var n, k := NewInstr(s, f), OpSize(s[0]);
    assert again[0] == again[..k][0] == n[0];
    if IsRef(s[0]) {
      RefSize(s[0]);
      RefSize(LocalOp(s[0]));
      WholeFirst(s);
      SamePrefix(s, s[..3]);
      SamePrefix(again, n);
    }
  }

  lemma WholeFirst(s: seq<byte>)
    requires s != [] && WellFormed(s)
    ensures 1 <= OpSize(s[0]) <= |s| && 0 < s[0] < OP_COUNT
  {}

  lemma SamePrefix(s: seq<byte>, n: seq<byte>)
    requires |s| >= 3 && n == s[..3]
    ensures U16(s, 1) == U16(n, 1) && n == [s[0]] + [s[1], s[2]] && WithOperand(s[0], U16(s, 1)) == n
    ensures U16(s, 1) < 0x1_0000
  {
    OperandBytes(s[0], s[1], s[2], s[1], s[2]);
  }

  /** Two bytes and the number they make. */
  lemma OperandBytes(op: byte, a: byte, b: byte, c: byte, d: byte)
    ensures U16([op, a, b], 1) == a as int + b as int * 256
    ensures WithOperand(op, a as int + b as int * 256) == [op, a, b]
    ensures WithOperand(op, c as int + d as int * 256) == [op, c, d]
  {}

  lemma {:induction false} RewriteIdentity(s: seq<byte>, n: nat)
    requires WellFormed(s) && n <= 0x1_0000
    ensures Fits(Identity(n)) && Rewrite(s, Identity(n)) == s
  {
    hide OpSize, U16, NewInstr, WellFormed, Rewrite;
    if s == [] {
      RewriteEmpty(Identity(n));
    } else {
      StartOf(s, Identity(n));
      var rest := s[OpSize(s[0])..];
      RewriteIdentity(rest, n);
      assert s == s[..OpSize(s[0])] + rest;
      if IsRef(s[0]) {
        RefSize(s[0]);
        Untouched(s, Identity(n), U16(s, 1));
      } else {
        NotRef(s, Identity(n));
      }
    }
  }

  // ---------- the variables ----------

  /** find_var: the first local or argument of that name. */
  function FindVar(vars: seq<nat>, name: nat): (i: int)
    ensures -1 <= i < |vars| && (i >= 0 ==> vars[i] == name)
    ensures i == -1 <==> name !in vars
    ensures forall k :: 0 <= k < i ==> vars[k] != name
  {
    if name !in vars then -1
    else if vars[0] == name then 0
    else 1 + FindVar(vars[1..], name)
  }

  /** A reference to a variable that is a local of the function. */
  predicate IsLocal(vars: seq<nat>, args: nat, name: nat) { FindVar(vars, name) >= args }

  /** Names and declarations of the first i outer variables that remain, in order. */
  function Remaining(ext: seq<nat>, vars: seq<nat>, args: nat, i: nat): (r: seq<nat>)
    requires 2 * i <= |ext|
    ensures |r| % 2 == 0 && |r| <= 2 * i
  {
    if i == 0 then []
    else Remaining(ext, vars, args, i - 1)
         + if IsLocal(vars, args, ext[2 * i - 2]) then [] else [ext[2 * i - 2], ext[2 * i - 1]]
  }

  /** Where each of the first i outer variables goes. */
  function Targets(ext: seq<nat>, vars: seq<nat>, args: nat, i: nat): (f: seq<Target>)
    requires 2 * i <= |ext|
    ensures |f| == i
  {
    if i == 0 then []
    else Targets(ext, vars, args, i - 1)
         + [if IsLocal(vars, args, ext[2 * i - 2]) then Local(FindVar(vars, ext[2 * i - 2]) - args)
            else Slot(|Remaining(ext, vars, args, i - 1)| / 2)]
  }

  lemma {:induction false} TargetsShape(ext: seq<nat>, vars: seq<nat>, args: nat, i: nat)
    requires 2 * i <= |ext| && i <= 0x1_0000 && |vars| <= 0x1_0000
    ensures var f := Targets(ext, vars, args, i); Fits(f) && Compacting(f)
  {
    if i > 0 { TargetsShape(ext, vars, args, i - 1); }
  }

  lemma {:induction false} TargetsPrefix(ext: seq<nat>, vars: seq<nat>, args: nat, i: nat, n: nat)
    requires i <= n && 2 * n <= |ext|
    ensures Targets(ext, vars, args, n)[..i] == Targets(ext, vars, args, i)
    ensures |Remaining(ext, vars, args, i)| <= |Remaining(ext, vars, args, n)|
    ensures Remaining(ext, vars, args, n)[..|Remaining(ext, vars, args, i)|] == Remaining(ext, vars, args, i)
  {
    if i < n {
      TargetsPrefix(ext, vars, args, i, n - 1);
      var f, g := Targets(ext, vars, args, n), Targets(ext, vars, args, n - 1);
      assert f[..i] == g[..i];
      var r, q := Remaining(ext, vars, args, n), Remaining(ext, vars, args, n - 1);
      assert r[..|Remaining(ext, vars, args, i)|] == q[..|Remaining(ext, vars, args, i)|];
    }
  }

  /** The name a target stands for after the rewrite. */
  function TargetName(t: Target, vars: seq<nat>, args: nat, ext: seq<nat>): nat {
    match t
    case Local(i) => if args + i < |vars| then vars[args + i] else 0
    case Slot(i) => if 2 * i < |ext| then ext[2 * i] else 0
  }

  /** A variable of the function that is not one of its arguments. */
  ghost predicate OwnLocal(vars: seq<nat>, args: nat, name: nat) {
    name in vars && forall k :: 0 <= k < args && k < |vars| ==> vars[k] != name
  }

  /** Every reference still names the variable it named, and is local exactly where the function has such a local. */
  lemma {:induction false} TargetsKeepNames(ext: seq<nat>, vars: seq<nat>, args: nat, n: nat, i: nat)
    requires i < n && 2 * n <= |ext|
    ensures var t := Targets(ext, vars, args, n)[i];
            && TargetName(t, vars, args, Remaining(ext, vars, args, n)) == ext[2 * i]
            && (t.Local? <==> OwnLocal(vars, args, ext[2 * i]))
            && (t.Local? ==> args + t.index < |vars|) && (t.Slot? ==> 2 * t.index < |Remaining(ext, vars, args, n)|)
  {
    TargetsPrefix(ext, vars, args, i + 1, n);
    var f, g := Targets(ext, vars, args, n), Targets(ext, vars, args, i + 1);
    assert f[i] == f[..i + 1][i] == g[i];
    if !IsLocal(vars, args, ext[2 * i]) {
      var r, q := Remaining(ext, vars, args, n), Remaining(ext, vars, args, i + 1);
      assert r[|q| - 2] == r[..|q|][|q| - 2] == q[|q| - 2];
    }
  }

  /** As long as nothing was local, every reference keeps its number. */
  lemma {:induction false} AllRemain(ext: seq<nat>, vars: seq<nat>, args: nat, i: nat)
    requires 2 * i <= |ext| && |Remaining(ext, vars, args, i)| == 2 * i
    ensures Targets(ext, vars, args, i) == Identity(i)
  {
    if i > 0 {
      AllRemain(ext, vars, args, i - 1);
      assert Identity(i) == Identity(i - 1) + [Slot(i - 1)];
    } else {
      assert Identity(0) == [];
    }
  }

  // ---------- the rewrite ----------

  class FunctionBody {
    const code: array<byte>
    const extVars: array<nat>
    var extVarsLen: nat
    const vars: seq<nat>
    const args: nat

    constructor (code: array<byte>, extVars: array<nat>, extVarsLen: nat, vars: seq<nat>, args: nat)
      ensures this.code == code && this.extVars == extVars && this.extVarsLen == extVarsLen
      ensures this.vars == vars && this.args == args
    {
      this.code, this.extVars, this.extVarsLen, this.vars, this.args := code, extVars, extVarsLen, vars, args;
    }

    /** The instruction at pos, rewritten in place. */
    method RewriteInstr(pos: nat, varStart: nat, tab: seq<Target>) returns (size: nat)
      requires pos < code.Length && WellFormed(code[pos..]) && Fits(tab)
      requires Fits(Identity(varStart) + tab) && varStart + |tab| <= 0x1_0000
      modifies code
      ensures 0 < size == old(OpSize(code[pos])) <= code.Length - pos
      ensures code[..pos] == old(code[..pos]) && code[pos + size..] == old(code[pos + size..])
      ensures code[pos..pos + size] == NewInstr(old(code[pos..]), Identity(varStart) + tab)
    {
      hide OpSize, WellFormed, U16, NewInstr;
      ghost var s, f := code[pos..], Identity(varStart) + tab;
      var op := code[pos];
      assert op == s[0];
      WholeFirst(s);
      size := OpSize(op);
      if IsRef(op) {
        RefSize(op);
        assert code[pos + 1] == s[1] && code[pos + 2] == s[2];
        var varIdx := code[pos + 1] as int + code[pos + 2] as int * 0x100;
        OperandOf(s, varIdx);
        if varStart <= varIdx < varStart + |tab| {
          var t := tab[varIdx - varStart];
          assert f[varIdx] == t;
          Replaced(s, f, varIdx, t);
          code[pos + 1], code[pos + 2] := t.index % 256, t.index / 256;
          if t.Local? {
            code[pos] := LocalOp(op);
          }
        } else {
          assert varIdx < |f| ==> f[varIdx] == Slot(varIdx);
          Untouched(s, f, varIdx);
        }
      } else {
        NotRef(s, f);
      }
    }

    /** cv_bytecode: replace the references from varStart on that tab knows. */
    method RewriteChunk(varStart: nat, tab: seq<Target>)
      requires WellFormed(code[..]) && Fits(tab) && varStart + |tab| <= 0x1_0000
      modifies code
      ensures Fits(Identity(varStart) + tab) && code[..] == Rewrite(old(code[..]), Identity(varStart) + tab)
    {
      hide OpSize, WellFormed, Rewrite, U16, NewInstr;
      ghost var was, f := code[..], Identity(varStart) + tab;
      var pos := 0;
      assert was[0..] == was && code[..0] == [];
      while pos < code.Length
        invariant 0 <= pos <= code.Length == |was| && WellFormed(was[pos..]) && code[pos..] == was[pos..]
        invariant Rewrite(was, f) == code[..pos] + Rewrite(was[pos..], f)
        decreases code.Length - pos
      {
        ghost var s, done := was[pos..], code[..pos];
        StartOf(s, f);
        ghost var now := code[..];
        assert now[pos..] == s;
        var size := RewriteInstr(pos, varStart, tab);
        Advanced(was, now, code[..], pos, size, NewInstr(s, f));
        pos := pos + size;
      }
      RewriteEmpty(f);
      assert was[pos..] == [] && code[..pos] == code[..];
    }

    /** One chunk of the table: targets of variables i0..i0 + l, the remaining ones moved up in place. */
    method ResolveChunk(i0: nat, l: nat, j0: nat, ghost ext: seq<nat>) returns (tab: seq<Target>, j: nat)
      requires 2 * (i0 + l) <= |ext| == extVars.Length && Settled(extVars[..], ext, vars, args, i0, j0)
      modifies extVars
      ensures Settled(extVars[..], ext, vars, args, i0 + l, j)
      ensures Targets(ext, vars, args, i0 + l) == Targets(ext, vars, args, i0) + tab && |tab| == l
    {
      hide Remaining, Targets, FindVar;
      tab, j := [], j0;
      var i := 0;
      while i < l
        invariant i <= l && |tab| == i && Settled(extVars[..], ext, vars, args, i0 + i, j)
        invariant Targets(ext, vars, args, i0 + i) == Targets(ext, vars, args, i0) + tab
      {
        ghost var now := extVars[..];
        SettledNext(now, ext, vars, args, i0 + i, j);
        var name, decl := extVars[2 * (i0 + i)], extVars[2 * (i0 + i) + 1];
        var varIdx := FindVar(vars, name);
        if varIdx >= args {
          tab := tab + [Local(varIdx - args)];
          SettledLocal(now, ext, vars, args, i0 + i, j);
        } else {
          tab := tab + [Slot(j)];
          extVars[2 * j] := name;
          extVars[2 * j + 1] := decl;
          SettledSlot(now, extVars[..], ext, vars, args, i0 + i, j);
          j := j + 1;
        }
        i := i + 1;
      }
    }

    /** All chunks: one substitution of the code, and the names that remain, in their order. */
    method Convert()
      requires WellFormed(code[..]) && 2 * extVarsLen <= extVars.Length && extVarsLen <= 0x1_0000 && |vars| <= 0x1_0000
      modifies this`extVarsLen, code, extVars
      ensures var ext, n := old(extVars[..]), old(extVarsLen);
              && Fits(Targets(ext, vars, args, n))
              && code[..] == Rewrite(old(code[..]), Targets(ext, vars, args, n))
              && 2 * extVarsLen == |Remaining(ext, vars, args, n)|
              && extVars[..2 * extVarsLen] == Remaining(ext, vars, args, n)
    {
      hide Remaining, Targets, FindVar, WellFormed, Rewrite;
      ghost var ext, was, n := extVars[..], code[..], extVarsLen;
      TargetsShape(ext, vars, args, n);
      SettledStart(ext, vars, args);
      if |vars| == 0 || extVarsLen == 0 {
        NoVars(ext, vars, args, n);
        AllRemain(ext, vars, args, n);
        RewriteIdentity(was, n);
        return;
      }
      RewriteIdentity(was, 0);
      var j, i0 := 0, 0;
      while i0 < extVarsLen
        invariant extVarsLen == n && Settled(extVars[..], ext, vars, args, if i0 < n then i0 else n, j)
        invariant WellFormed(code[..]) && Rewritten(was, code[..], ext, vars, args, if i0 < n then i0 else n)
        decreases n - i0
      {
        var l := if extVarsLen - i0 < CHUNK then extVarsLen - i0 else CHUNK;
        var tab;
        ghost var before := code[..];
        tab, j := ResolveChunk(i0, l, j, ext);
        TargetsShape(ext, vars, args, i0 + l);
        ChunkFits(ext, vars, args, i0, l, tab);
        if j != i0 + l {
          RewriteChunk(i0, tab);
          ChunkRewritten(was, before, code[..], ext, vars, args, i0, l, tab);
        } else {
          AllRemain(ext, vars, args, i0 + l);
          AllRemainBefore(ext, vars, args, i0, l);
          RewriteIdentity(was, i0);
          RewriteIdentity(was, i0 + l);
        }
        i0 := i0 + CHUNK;
      }
      extVarsLen := j;
    }
  }

  lemma Advanced(was: seq<byte>, now: seq<byte>, next: seq<byte>, pos: nat, size: nat, instr: seq<byte>)
    requires |was| == |now| == |next| && pos + size <= |was| && now[pos..] == was[pos..]
    requires next[..pos] == now[..pos] && next[pos..pos + size] == instr && next[pos + size..] == now[pos + size..]
    ensures was[pos..][size..] == was[pos + size..] == next[pos + size..] && next[..pos + size] == now[..pos] + instr
  {
    assert now[pos + size..] == now[pos..][size..];
  }

  lemma NotRef(s: seq<byte>, f: seq<Target>)
    requires s != [] && WellFormed(s) && Fits(f) && !IsRef(s[0])
    ensures NewInstr(s, f) == s[..OpSize(s[0])]
  {}

  lemma StartOf(s: seq<byte>, f: seq<Target>)
    requires s != [] && WellFormed(s) && Fits(f)
    ensures 0 < OpSize(s[0]) <= |s| && WellFormed(s[OpSize(s[0])..])
    ensures Rewrite(s, f) == NewInstr(s, f) + Rewrite(s[OpSize(s[0])..], f)
  {}

  lemma RewriteEmpty(f: seq<Target>)
    requires Fits(f)
    ensures WellFormed([]) && Rewrite([], f) == []
  {}

  lemma OperandOf(s: seq<byte>, v: nat)
    requires |s| >= 3 && v == s[1] as int + s[2] as int * 0x100
    ensures U16(s, 1) == v < 0x1_0000
  {}

  lemma Replaced(s: seq<byte>, f: seq<Target>, v: nat, t: Target)
    requires s != [] && WellFormed(s) && Fits(f) && IsRef(s[0]) && |s| >= 3 && U16(s, 1) == v < |f| && f[v] == t
    ensures NewInstr(s, f) == [if t.Local? then LocalOp(s[0]) else s[0], t.index % 256, t.index / 256]
  {
    RefSize(s[0]);
  }

  lemma Untouched(s: seq<byte>, f: seq<Target>, v: nat)
    requires s != [] && WellFormed(s) && Fits(f) && IsRef(s[0]) && |s| >= 3 && U16(s, 1) == v
    requires v < |f| ==> f[v] == Slot(v)
    ensures NewInstr(s, f) == s[..OpSize(s[0])]
  {
    RefSize(s[0]);
    SamePrefix(s, s[..3]);
  }

  /** The first i outer variables dealt with: the remaining ones are the first j, the later ones are where they were. */
  ghost predicate Settled(now: seq<nat>, ext: seq<nat>, vars: seq<nat>, args: nat, i: nat, j: nat) {
    && 2 * i <= |ext| == |now| && j <= i && 2 * j == |Remaining(ext, vars, args, i)|
    && now[..2 * j] == Remaining(ext, vars, args, i) && now[2 * i..] == ext[2 * i..]
  }

  ghost predicate Rewritten(was: seq<byte>, now: seq<byte>, ext: seq<nat>, vars: seq<nat>, args: nat, i: nat) {
    && WellFormed(was) && 2 * i <= |ext| && Fits(Targets(ext, vars, args, i))
    && now == Rewrite(was, Targets(ext, vars, args, i))
  }

  lemma SettledStart(ext: seq<nat>, vars: seq<nat>, args: nat)
    ensures Settled(ext, ext, vars, args, 0, 0) && Targets(ext, vars, args, 0) == Identity(0)
  {}

  lemma SettledNext(now: seq<nat>, ext: seq<nat>, vars: seq<nat>, args: nat, i: nat, j: nat)
    requires Settled(now, ext, vars, args, i, j) && 2 * i + 2 <= |ext|
    ensures now[2 * i] == ext[2 * i] && now[2 * i + 1] == ext[2 * i + 1]
  {
    assert now[2 * i] == now[2 * i..][0] && now[2 * i + 1] == now[2 * i..][1];
  }

  lemma SettledLocal(now: seq<nat>, ext: seq<nat>, vars: seq<nat>, args: nat, i: nat, j: nat)
    requires Settled(now, ext, vars, args, i, j) && 2 * i + 2 <= |ext| && IsLocal(vars, args, ext[2 * i])
    ensures Settled(now, ext, vars, args, i + 1, j)
    ensures Targets(ext, vars, args, i + 1) == Targets(ext, vars, args, i) + [Local(FindVar(vars, ext[2 * i]) - args)]
  {
    assert now[2 * i + 2..] == now[2 * i..][2..] == ext[2 * i + 2..];
  }

  lemma SettledSlot(was: seq<nat>, now: seq<nat>, ext: seq<nat>, vars: seq<nat>, args: nat, i: nat, j: nat)
    requires Settled(was, ext, vars, args, i, j) && 2 * i + 2 <= |ext| && !IsLocal(vars, args, ext[2 * i])
    requires now == was[2 * j := ext[2 * i]][2 * j + 1 := ext[2 * i + 1]]
    ensures Settled(now, ext, vars, args, i + 1, j + 1)
    ensures Targets(ext, vars, args, i + 1) == Targets(ext, vars, args, i) + [Slot(j)]
  {
    hide FindVar, Remaining, Targets, IsLocal;
    SlotStep(ext, vars, args, i);
    TailStays(was, now, ext, 2 * i, 2 * j);
  }

  lemma SlotStep(ext: seq<nat>, vars: seq<nat>, args: nat, i: nat)
    requires 2 * i + 2 <= |ext| && !IsLocal(vars, args, ext[2 * i])
    ensures Remaining(ext, vars, args, i + 1) == Remaining(ext, vars, args, i) + [ext[2 * i], ext[2 * i + 1]]
    ensures Targets(ext, vars, args, i + 1) == Targets(ext, vars, args, i) + [Slot(|Remaining(ext, vars, args, i)| / 2)]
  {}

  lemma TailStays(was: seq<nat>, now: seq<nat>, ext: seq<nat>, i: nat, j: nat)
    requires j <= i && i + 2 <= |ext| == |was| && was[i..] == ext[i..]
    requires now == was[j := ext[i]][j + 1 := ext[i + 1]]
    ensures now[i + 2..] == ext[i + 2..] && now[..j + 2] == was[..j] + [ext[i], ext[i + 1]]
  {
    assert now[i + 2..] == was[i..][2..] && ext[i + 2..] == ext[i..][2..];
  }

  lemma {:induction false} NoVars(ext: seq<nat>, vars: seq<nat>, args: nat, n: nat)
    requires 2 * n <= |ext| && (vars == [] || n == 0)
    ensures |Remaining(ext, vars, args, n)| == 2 * n && Remaining(ext, vars, args, n) == ext[..2 * n]
  {
    if n > 0 {
      NoVars(ext, vars, args, n - 1);
      assert ext[..2 * n] == ext[..2 * n - 2] + [ext[2 * n - 2], ext[2 * n - 1]];
    }
  }

  lemma ChunkFits(ext: seq<nat>, vars: seq<nat>, args: nat, i0: nat, l: nat, tab: seq<Target>)
    requires 2 * (i0 + l) <= |ext| && Targets(ext, vars, args, i0 + l) == Targets(ext, vars, args, i0) + tab
    requires Fits(Targets(ext, vars, args, i0 + l))
    ensures Fits(tab) && Fits(Targets(ext, vars, args, i0))
  {
    hide Targets;
    var f := Targets(ext, vars, args, i0 + l);
    forall k | 0 <= k < |tab| ensures tab[k].index < 0x1_0000 {
      assert f[i0 + k] == tab[k];
    }
    forall k | 0 <= k < i0 ensures Targets(ext, vars, args, i0)[k].index < 0x1_0000 {
      assert f[k] == Targets(ext, vars, args, i0)[k];
    }
  }

  lemma ChunkRewritten(was: seq<byte>, before: seq<byte>, now: seq<byte>, ext: seq<nat>, vars: seq<nat>, args: nat,
                       i0: nat, l: nat, tab: seq<Target>)
    requires Rewritten(was, before, ext, vars, args, i0) && i0 + l <= 0x1_0000 && 2 * (i0 + l) <= |ext| && |vars| <= 0x1_0000
    requires Targets(ext, vars, args, i0 + l) == Targets(ext, vars, args, i0) + tab && Fits(tab)
    requires WellFormed(before) && Fits(Identity(i0) + tab) && now == Rewrite(before, Identity(i0) + tab)
    ensures WellFormed(now) && Rewritten(was, now, ext, vars, args, i0 + l)
  {
    hide Targets, Rewrite, WellFormed;
    TargetsShape(ext, vars, args, i0);
    RewriteTwice(was, Targets(ext, vars, args, i0), tab);
    RewriteWellFormed(before, Identity(i0) + tab);
  }

  lemma AllRemainBefore(ext: seq<nat>, vars: seq<nat>, args: nat, i0: nat, l: nat)
    requires 2 * (i0 + l) <= |ext| && Targets(ext, vars, args, i0 + l) == Identity(i0 + l)
    ensures Targets(ext, vars, args, i0) == Identity(i0)
  {
    hide Targets, Remaining, Identity;
    TargetsPrefix(ext, vars, args, i0, i0 + l);
    IdentityPrefix(i0, i0 + l);
  }

  lemma IdentityPrefix(m: nat, n: nat)
    requires m <= n
    ensures Identity(n)[..m] == Identity(m)
  {}
}
