/**
 compute_stack_size: one pass over the bytecode that gives every instruction it meets a stack depth,
 refuses code where two ways disagree, and finds the largest depth.  The table keeps depths modulo 255.
 */
module StackVerifier {
  import opened Bytes
  import opened Opcodes

  const MAX_STACK_SIZE: nat := 65535

  // ---------- the edges the pass follows ----------

  /** A whole instruction at p. */
  predicate IsInstruction(code: seq<byte>, p: nat) {
    p < |code| && 0 < code[p] < OP_COUNT && p + OpSize(code[p]) <= |code|
  }

  function Pops(code: seq<byte>, p: nat): nat
    requires IsInstruction(code, p)
  {
    var op := code[p];
    OpPops(op) + if CountsArguments(op) then CallSize(op); U16(code, p + 1) else 0
  }

  /** Depth after the instruction. */
  function After(code: seq<byte>, p: nat, d: int): int
    requires IsInstruction(code, p)
  {
    d + OpPushes(code[p]) - Pops(code, p)
  }

  predicate Jumps(op: nat) { op == OP_GOTO || op == OP_IF_FALSE || op == OP_IF_TRUE || op == OP_GOSUB }

  /** Distances count from the operand; positions are unsigned 32-bit words. */
  function Target(code: seq<byte>, p: nat): nat
    requires IsInstruction(code, p) && Jumps(code[p])
  {
    JumpSize(code[p]);
    (p + 1 + U32(code, p + 1)) % WORD
  }

  predicate Ends(op: nat) { op == OP_RETURN || op == OP_RETURN_UNDEF || op == OP_THROW || op == OP_RET }

  predicate FallsThrough(op: nat) { !Ends(op) && op != OP_GOTO }

  /** From depth d at p, the code may go on at q with depth e; a gosub leaves its return address on the stack. */
  predicate Edge(code: seq<byte>, p: nat, d: int, q: nat, e: int) {
    && IsInstruction(code, p)
    && (|| (FallsThrough(code[p]) && q == p + OpSize(code[p]) && e == After(code, p, d))
        || (Jumps(code[p]) && q == Target(code, p)
            && e == After(code, p, d) + if code[p] == OP_GOSUB then 1 else 0))
  }

  datatype State = State(pos: nat, depth: int)

  /** A way through the code from its start with an empty stack. */
  ghost predicate Path(code: seq<byte>, w: seq<State>) {
    && |w| > 0 && w[0] == State(0, 0)
    && forall k :: 0 <= k < |w| - 1 ==> Edge(code, w[k].pos, w[k].depth, w[k + 1].pos, w[k + 1].depth)
  }

  // ---------- what the pass establishes ----------

  /** Depths recorded for the instructions met, each checked, the largest depth after one being max. */
  ghost predicate Checked(code: seq<byte>, depths: map<nat, nat>, max: nat) {
    && 0 in depths && depths[0] == 0
    && forall p :: p in depths ==> Consistent(code, depths, max, p)
  }

  ghost predicate Consistent(code: seq<byte>, depths: map<nat, nat>, max: nat, p: nat)
    requires p in depths
  {
    && IsInstruction(code, p) && Pops(code, p) <= depths[p] && After(code, p, depths[p]) <= max && depths[p] <= max + 1
    && forall q, e :: Edge(code, p, depths[p], q, e) ==> q in depths && depths[q] % 255 == e % 255
  }

  lemma EdgeShift(code: seq<byte>, p: nat, d: int, q: nat, e: int, d': int)
    requires Edge(code, p, d, q, e)
    ensures Edge(code, p, d', q, e - d + d')
  {}

  lemma ModShift(a: int, b: int, c: int)
    requires a % 255 == b % 255
    ensures (a + c) % 255 == (b + c) % 255
  {}

  /** Every way through accepted code meets every instruction at its recorded depth, modulo 255. */
  lemma {:induction false} PathCongruent(code: seq<byte>, depths: map<nat, nat>, max: nat, w: seq<State>)
    requires Checked(code, depths, max) && Path(code, w)
    ensures var s := w[|w| - 1]; s.pos in depths && s.depth % 255 == depths[s.pos] % 255
    decreases |w|
  {
    hide Edge, After, Pops, IsInstruction;
    if |w| > 1 {
      var v := w[..|w| - 1];
      PathCongruent(code, depths, max, v);
      var s, t := v[|v| - 1], w[|w| - 1];
      var d := depths[s.pos];
      EdgeShift(code, s.pos, s.depth, t.pos, t.depth, d);
      assert Consistent(code, depths, max, s.pos);
      ModShift(s.depth, d, t.depth - s.depth);
    }
  }

  /** With a final size of at most 253 the depths are exact: nothing underflows, or grows beyond that size and one. */
  lemma {:induction false} PathExact(code: seq<byte>, depths: map<nat, nat>, max: nat, w: seq<State>)
    requires Checked(code, depths, max) && Path(code, w) && max <= 253
    ensures var s := w[|w| - 1];
            && s.pos in depths && s.depth == depths[s.pos] && 0 <= s.depth <= max + 1
            && IsInstruction(code, s.pos) && s.depth >= Pops(code, s.pos)
            && 0 <= After(code, s.pos, s.depth) <= max
    decreases |w|
  {
    hide Edge, After, Pops, IsInstruction;
    var s := w[|w| - 1];
    assert 0 in depths;
    if |w| > 1 {
      var v := w[..|w| - 1];
      PathExact(code, depths, max, v);
      var r := v[|v| - 1];
      EdgeRange(code, r.pos, r.depth, s.pos, s.depth, max);
      assert Consistent(code, depths, max, r.pos);
    }
    assert Consistent(code, depths, max, s.pos);
    AfterRange(code, s.pos, s.depth);
  }

  lemma EdgeRange(code: seq<byte>, p: nat, d: int, q: nat, e: int, max: nat)
    requires Edge(code, p, d, q, e) && d >= Pops(code, p) && After(code, p, d) <= max
    ensures 0 <= e <= max + 1
  {}

  lemma AfterRange(code: seq<byte>, p: nat, d: int)
    requires IsInstruction(code, p) && d >= Pops(code, p)
    ensures After(code, p, d) >= 0
  {}

  // ---------- which size ----------

  /** Some way through the code comes to p with depth d. */
  ghost predicate Reaches(code: seq<byte>, p: nat, d: int) { exists w :: Path(code, w) && w[|w| - 1] == State(p, d) }

  /** The depth after some instruction, on some way through the code. */
  ghost predicate Attained(code: seq<byte>, size: int) {
    exists p, d :: Reaches(code, p, d) && IsInstruction(code, p) && size == After(code, p, d)
  }

  /** A way through the code leaves it, lacks operands or needs too much, or two ways disagree on a depth modulo 255. */
  ghost predicate Faulty(code: seq<byte>) {
    || (exists p, d :: Reaches(code, p, d) && (!IsInstruction(code, p) || d < Pops(code, p) || After(code, p, d) > MAX_STACK_SIZE))
    || exists p, d, e :: Reaches(code, p, d) && Reaches(code, p, e) && d % 255 != e % 255
  }

  lemma ReachesStart(code: seq<byte>)
    ensures Reaches(code, 0, 0)
  {
    assert Path(code, [State(0, 0)]);
  }

  lemma ReachesNext(code: seq<byte>, p: nat, d: int, q: nat, e: int)
    requires Reaches(code, p, d) && Edge(code, p, d, q, e)
    ensures Reaches(code, q, e)
  {
    hide Edge;
    var w :| Path(code, w) && w[|w| - 1] == State(p, d);
    var x := w + [State(q, e)];
    forall k | 0 <= k < |x| - 1 ensures Edge(code, x[k].pos, x[k].depth, x[k + 1].pos, x[k + 1].depth) {
      if k < |w| - 1 { assert x[k] == w[k] && x[k + 1] == w[k + 1]; }
    }
    assert Path(code, x);
  }

  /** A stack that size holds what every way through the code puts there. */
  ghost predicate Holds(code: seq<byte>, size: nat) {
    forall p, d :: Reaches(code, p, d) ==> IsInstruction(code, p) && After(code, p, d) <= size
  }

  /** With a final size of at most 253 it is the least one that is no smaller than the initial one and holds every way
      through the code. */
  lemma SizeLeast(code: seq<byte>, depths: map<nat, nat>, was: nat, size: nat)
    requires Checked(code, depths, size) && was <= size <= 253 && (size == was || Attained(code, size))
    ensures Holds(code, size) && forall bound: nat :: was <= bound && Holds(code, bound) ==> size <= bound
  {
    hide Checked, After, Edge, IsInstruction, Pops;
    forall p, d | Reaches(code, p, d) ensures IsInstruction(code, p) && After(code, p, d) <= size {
      var w :| Path(code, w) && w[|w| - 1] == State(p, d);
      PathExact(code, depths, size, w);
    }
  }

  // ---------- the pass ----------

  /** The explore table: zero where the pass has not been, else one more than the depth modulo 255. */
  ghost predicate Recorded(explore: seq<nat>, depths: map<nat, nat>) {
    && (forall p :: p in depths ==> p < |explore| && explore[p] == 1 + depths[p] % 255)
    && (forall p: nat :: p < |explore| && explore[p] != 0 ==> p in depths)
  }

  datatype Item = Item(pos: nat, depth: nat)

  /** The work stack holds each item as two words, position below depth. */
  ghost predicate Pending(work: seq<nat>, items: seq<Item>, depths: map<nat, nat>, max: nat) {
    && |work| == 2 * |items|
    && forall k :: 0 <= k < |items| ==>
         && work[2 * k] == items[k].pos && work[2 * k + 1] == items[k].depth
         && items[k].pos in depths && items[k].depth == depths[items[k].pos] <= max + 1
  }

  /** Everything recorded is examined, or still on the work stack, or the one now in hand. */
  ghost predicate Progress(code: seq<byte>, depths: map<nat, nat>, items: seq<Item>, max: nat, hand: int) {
    forall p :: p in depths && p != hand && Item(p, depths[p]) !in items ==> Consistent(code, depths, max, p)
  }

  /** Any exact assignment of depths has those found so far. */
  ghost predicate Forced(code: seq<byte>, depths: map<nat, nat>) {
    forall marks, bound :: Checked(code, marks, bound) && bound <= 253 ==> Agree(depths, marks)
  }

  ghost predicate Agree(depths: map<nat, nat>, marks: map<nat, nat>) {
    forall p :: p in depths ==> p in marks && marks[p] == depths[p]
  }

  /** The depths found are those of ways through the code. */
  ghost predicate Real(code: seq<byte>, depths: map<nat, nat>) { forall p :: p in depths ==> Reaches(code, p, depths[p]) }

  /** There is an exact assignment of depths. */
  ghost predicate Exact(code: seq<byte>) { exists marks, bound :: Checked(code, marks, bound) && bound <= 253 }

  function Zeros(s: seq<nat>): nat {
    if s == [] then 0 else Zeros(s[..|s| - 1]) + if s[|s| - 1] == 0 then 1 else 0
  }

  lemma {:induction false} ZerosUpdate(s: seq<nat>, p: nat, v: nat)
    requires p < |s| && s[p] == 0 && v > 0
    ensures Zeros(s[p := v]) == Zeros(s) - 1
  {
    var t := s[..|s| - 1];
    if p == |s| - 1 {
      assert s[p := v][..p] == t;
    } else {
      assert s[p := v][..|s| - 1] == t[p := v];
      ZerosUpdate(t, p, v);
    }
  }

  /** More records, a larger maximum: what was examined stays so. */
  lemma ConsistentGrows(code: seq<byte>, depths: map<nat, nat>, more: map<nat, nat>, max: nat, max': nat, p: nat)
    requires p in depths && Consistent(code, depths, max, p) && max <= max'
    requires forall q :: q in depths ==> q in more && more[q] == depths[q]
    ensures Consistent(code, more, max', p)
  {
    hide Edge, After, Pops, IsInstruction;
  }

  class Verifier {
    const code: seq<byte>
    const explore: array<nat>
    var work: seq<nat>
    var stackSize: nat
    ghost var items: seq<Item>
    ghost var depths: map<nat, nat>

    ghost predicate Valid(hand: int)
      reads this, explore
    {
      && explore.Length == |code| && Recorded(explore[..], depths) && Pending(work, items, depths, stackSize)
      && Progress(code, depths, items, stackSize, hand)
    }

    constructor (code: seq<byte>, stackSize: nat)
      ensures this.code == code && this.stackSize == stackSize && fresh(explore) && Valid(-1) && depths == map[]
    {
      this.code, this.stackSize, work, items, depths := code, stackSize, [], [], map[];
      explore := new nat[|code|] (_ => 0);
    }

    /** compute_stack_size_push: record a depth for pos, or compare it with the one there. */
    method Push(pos: nat, stackLen: nat, ghost hand: int) returns (ok: bool)
      requires Valid(hand) && stackLen <= stackSize + 1
      modifies this`work, this`items, this`depths, explore
      ensures ok ==> && Valid(hand) && pos in depths && depths[pos] % 255 == stackLen % 255
                     && Agree(old(depths), depths)
                     && (forall p :: p in depths ==> p in old(depths) || (p == pos && depths[p] == stackLen))
                     && (Zeros(explore[..]) < old(Zeros(explore[..])) || (work == old(work) && explore[..] == old(explore[..])))
      ensures !ok ==> pos >= |code| || (pos in depths && depths[pos] % 255 != stackLen % 255)
      ensures !ok ==> depths == old(depths)
    {
      hide Edge, After, Pops, IsInstruction, Consistent, Zeros;
      if pos >= |code| {
        return false;
      }
      var short := 1 + stackLen % 255;
      if explore[pos] != 0 {
        return explore[pos] == short;
      }
      ZerosUpdate(explore[..], pos, short);
      ghost var was := depths;
      explore[pos] := short;
      work := work + [pos, stackLen];
      items := items + [Item(pos, stackLen)];
      depths := depths[pos := stackLen];
      forall p | p in depths && p != hand && Item(p, depths[p]) !in items ensures Consistent(code, depths, stackSize, p) {
        assert Item(pos, stackLen) in items;
        assert Item(p, was[p]) !in items[..|items| - 1];
        ConsistentGrows(code, was, depths, stackSize, stackSize, p);
      }
      ok := true;
    }

    /** The next item; it is in hand until it has been examined. */
    method Pop() returns (pos: nat, stackLen: nat)
      requires Valid(-1) && work != []
      modifies this`work, this`items
      ensures Valid(pos) && |work| < |old(work)| && pos in depths && stackLen == depths[pos] <= stackSize + 1
    {
      hide Consistent;
      var n := |work|;
      ghost var last := items[|items| - 1];
      stackLen, pos := work[n - 1], work[n - 2];
      assert last == Item(pos, stackLen);
      work := work[..n - 2];
      ghost var all := items;
      items := items[..|items| - 1];
      forall p | p in depths && p != pos && Item(p, depths[p]) !in items ensures Consistent(code, depths, stackSize, p) {
        assert all == items + [last];
        assert Item(p, depths[p]) !in all;
      }
    }

    /** Depth after the instruction in hand, if that is whole and has the operands it needs. */
    method Effect(pos: nat, stackLen: nat) returns (ok: bool, after: nat)
      requires Valid(pos) && pos in depths && stackLen == depths[pos]
      modifies this`stackSize
      ensures Valid(pos) && old(stackSize) <= stackSize
      ensures ok ==> && IsInstruction(code, pos) && Pops(code, pos) <= stackLen && after == After(code, pos, stackLen) <= stackSize
                     && stackSize == if old(stackSize) < after then after else old(stackSize)
      ensures !ok ==> stackSize == old(stackSize)
      ensures !ok ==> !IsInstruction(code, pos) || stackLen < Pops(code, pos) || After(code, pos, stackLen) > MAX_STACK_SIZE
    {
      hide OpPops, OpPushes, OpSize, Consistent;
      var op := code[pos];
      if op == 0 || op >= OP_COUNT {
        return false, 0;
      }
      if pos + OpSize(op) > |code| {
        return false, 0;
      }
      var pops := OpPops(op);
      if CountsArguments(op) {
        CallSize(op);
        pops := pops + U16(code, pos + 1);
      }
      if stackLen < pops {
        return false, 0;
      }
      after := stackLen + OpPushes(op) - pops;
      if after > stackSize {
        if after > MAX_STACK_SIZE {
          return false, after;
        }
        ghost var was := stackSize;
        stackSize := after;
        forall p | p in depths && p != pos && Item(p, depths[p]) !in items ensures Consistent(code, depths, stackSize, p) {
          ConsistentGrows(code, depths, depths, was, stackSize, p);
        }
      }
      ok := true;
    }

    /** One edge out of the instruction in hand. */
    method Follow(pos: nat, q: nat, e: nat) returns (ok: bool)
      requires Valid(pos) && pos in depths && e <= stackSize + 1 && Edge(code, pos, depths[pos], q, e) && Forced(code, depths)
      requires Real(code, depths)
      modifies this`work, this`items, this`depths, explore
      ensures ok ==> && Valid(pos) && Forced(code, depths) && Real(code, depths) && Agree(old(depths), depths)
                     && q in depths && depths[q] % 255 == e % 255
                     && (Zeros(explore[..]) < old(Zeros(explore[..])) || (work == old(work) && explore[..] == old(explore[..])))
      ensures !ok ==> !Exact(code) && Faulty(code)
    {
      hide Edge, Forced, Exact, Consistent, Zeros, Reaches, After, Pops;
      ghost var was := depths;
      ok := Push(q, e, pos);
      if ok {
        ReachesNext(code, pos, was[pos], q, e);
        ForcedGrows(code, was, depths, pos, q, e);
      } else {
        ForcedRefutes(code, was, pos, q, e);
        ReachesNext(code, pos, was[pos], q, e);
        assert q in was ==> Reaches(code, q, was[q]);
      }
    }

    /** All edges out of the instruction in hand, whose effect is known. */
    method Successors(pos: nat, after: nat) returns (ok: bool)
      requires Valid(pos) && pos in depths && Forced(code, depths) && Real(code, depths)
      requires IsInstruction(code, pos) && Pops(code, pos) <= depths[pos] <= stackSize + 1
      requires after == After(code, pos, depths[pos]) <= stackSize
      modifies this`work, this`items, this`depths, explore
      ensures ok ==> && Valid(-1) && Forced(code, depths) && Real(code, depths) && Agree(old(depths), depths)
                     && (Zeros(explore[..]) < old(Zeros(explore[..])) || (work == old(work) && explore[..] == old(explore[..])))
      ensures !ok ==> !Exact(code) && Faulty(code)
    {
      hide After, Pops, Forced, Exact, Consistent, Zeros, OpSize, Real, Faulty;
      var op := code[pos];
      ok := true;
      if Jumps(op) {
        ok := Follow(pos, Target(code, pos), if op == OP_GOSUB then after + 1 else after);
        if !ok { return; }
      }
      if FallsThrough(op) {
        ok := Follow(pos, pos + OpSize(op), after);
        if !ok { return; }
      }
      AllFollowed(code, depths, stackSize, pos, after);
      forall p | p in depths && p != -1 && Item(p, depths[p]) !in items ensures Consistent(code, depths, stackSize, p) {}
    }

    /**
     The whole pass: accepted code is checked, and the size is the initial one or the depth after some instruction on a
     way through the code; code that is refused is faulty, and has no exact assignment of depths.
     */
    method Compute() returns (ok: bool)
      requires Valid(-1) && depths == map[]
      modifies this`work, this`items, this`depths, this`stackSize, explore
      ensures ok ==> Checked(code, depths, stackSize) && old(stackSize) <= stackSize
      ensures stackSize == old(stackSize) || Attained(code, stackSize)
      ensures ok && stackSize <= 253 ==>
                Holds(code, stackSize) && forall bound: nat :: old(stackSize) <= bound && Holds(code, bound) ==> stackSize <= bound
      ensures !ok ==> !Exact(code) && Faulty(code)
      ensures old(stackSize) <= 253 ==> (Exact(code) <==> ok && stackSize <= 253)
    {
      hide Edge, After, Pops, IsInstruction, Forced, Exact, Consistent, Zeros, Checked, NoLarger, Reaches, Attained, Real, Holds, Faulty;
      assert NoLarger(code, stackSize, stackSize) by { SameSize(code, stackSize); }
      ok := Push(0, 0, -1);
      if !ok {
        assert |code| == 0;
        NoCode(code);
        return;
      }
      ForcedStart(code, depths);
      assert Real(code, depths) by { RealStart(code, depths); }
      while work != []
        invariant Valid(-1) && 0 in depths && depths[0] == 0 && Forced(code, depths) && old(stackSize) <= stackSize
        invariant NoLarger(code, stackSize, old(stackSize)) && Real(code, depths)
        invariant stackSize == old(stackSize) || Attained(code, stackSize)
        decreases Zeros(explore[..]), |work|
      {
        var pos, stackLen := Pop();
        var after;
        ghost var size := stackSize;
        ok, after := Effect(pos, stackLen);
        if !ok {
          EffectRefutes(code, depths, pos);
          return;
        }
        EffectNoLarger(code, depths, pos, size, stackSize, old(stackSize));
        AfterAttained(code, depths, pos);
        ok := Successors(pos, after);
        if !ok { return; }
      }
      assert items == [];
      ok := true;
      assert Checked(code, depths, stackSize) by { AllChecked(code, depths, stackSize); }
      if stackSize <= 253 { SizeLeast(code, depths, old(stackSize), stackSize); }
      if old(stackSize) <= 253 { AcceptedExact(code, depths, stackSize, old(stackSize)); }
    }
  }

  lemma ForcedStart(code: seq<byte>, depths: map<nat, nat>)
    requires forall p :: p in depths ==> p == 0 && depths[p] == 0
    ensures Forced(code, depths)
  {
    hide Consistent;
  }

  lemma RealStart(code: seq<byte>, depths: map<nat, nat>)
    requires forall p :: p in depths ==> p == 0 && depths[p] == 0
    ensures Real(code, depths)
  {
    hide Reaches;
    ReachesStart(code);
  }

  lemma AfterAttained(code: seq<byte>, depths: map<nat, nat>, p: nat)
    requires Real(code, depths) && p in depths && IsInstruction(code, p)
    ensures Attained(code, After(code, p, depths[p]))
  {
    hide Reaches;
  }

  lemma NoCode(code: seq<byte>)
    requires |code| == 0
    ensures !Exact(code) && Faulty(code)
  {
    hide Edge, After, Pops, Consistent, Checked;
    ReachesStart(code);
    if Exact(code) {
      var marks, bound :| Checked(code, marks, bound) && bound <= 253;
      ExactStart(code, marks, bound);
    }
  }

  lemma ExactStart(code: seq<byte>, marks: map<nat, nat>, bound: nat)
    requires Checked(code, marks, bound)
    ensures |code| > 0
  {
    assert 0 in marks && Consistent(code, marks, bound, 0);
  }

  lemma ExactAt(code: seq<byte>, depths: map<nat, nat>, marks: map<nat, nat>, bound: nat, p: nat)
    requires Checked(code, marks, bound) && bound <= 253 && Forced(code, depths) && p in depths
    ensures IsInstruction(code, p) && Pops(code, p) <= depths[p] && After(code, p, depths[p]) <= bound
  {
    hide Edge, After, Pops, IsInstruction;
    assert Agree(depths, marks);
    assert Consistent(code, marks, bound, p);
  }

  /** An exact assignment that has p has its successor q, with the depth found. */
  lemma ExactStep(code: seq<byte>, marks: map<nat, nat>, bound: nat, p: nat, q: nat, e: int)
    requires Checked(code, marks, bound) && bound <= 253 && p in marks && Edge(code, p, marks[p], q, e)
    ensures q in marks && marks[q] == e && q < |code|
  {
    hide Edge, After, Pops, IsInstruction;
    assert Consistent(code, marks, bound, p);
    EdgeRange(code, p, marks[p], q, e, bound);
    assert Consistent(code, marks, bound, q);
    WithinCode(code, q);
  }

  lemma WithinCode(code: seq<byte>, q: nat)
    requires IsInstruction(code, q)
    ensures q < |code|
  {}

  lemma ForcedGrows(code: seq<byte>, was: map<nat, nat>, now: map<nat, nat>, p: nat, q: nat, e: nat)
    requires Forced(code, was) && p in was && Edge(code, p, was[p], q, e)
    requires forall k :: k in now ==> (k in was && now[k] == was[k]) || (k == q && now[k] == e)
    ensures Forced(code, now)
  {
    hide Edge, Consistent, Checked;
    forall marks, bound | Checked(code, marks, bound) && bound <= 253 ensures Agree(now, marks) {
      ExactStep(code, marks, bound, p, q, e);
    }
  }

  lemma ForcedRefutes(code: seq<byte>, depths: map<nat, nat>, p: nat, q: nat, e: nat)
    requires Forced(code, depths) && p in depths && Edge(code, p, depths[p], q, e)
    requires q >= |code| || (q in depths && depths[q] % 255 != e % 255)
    ensures !Exact(code)
  {
    hide Edge, Consistent, Checked;
    if Exact(code) {
      var marks, bound :| Checked(code, marks, bound) && bound <= 253;
      ExactStep(code, marks, bound, p, q, e);
    }
  }

  lemma EffectRefutes(code: seq<byte>, depths: map<nat, nat>, p: nat)
    requires Forced(code, depths) && p in depths
    requires !IsInstruction(code, p) || depths[p] < Pops(code, p) || After(code, p, depths[p]) > MAX_STACK_SIZE
    requires Real(code, depths)
    ensures !Exact(code) && Faulty(code)
  {
    hide Edge, After, Pops, IsInstruction, Consistent, Checked, Forced, Reaches;
    assert Reaches(code, p, depths[p]);
    if Exact(code) {
      var marks, bound :| Checked(code, marks, bound) && bound <= 253;
      ExactAt(code, depths, marks, bound, p);
    }
  }

  lemma AllFollowed(code: seq<byte>, depths: map<nat, nat>, max: nat, p: nat, after: nat)
    requires p in depths && IsInstruction(code, p) && Pops(code, p) <= depths[p] <= max + 1
    requires after == After(code, p, depths[p]) <= max
    requires var op := code[p];
             && (Jumps(op) ==> var q := Target(code, p);
                               q in depths && depths[q] % 255 == (if op == OP_GOSUB then after + 1 else after) % 255)
             && (FallsThrough(op) ==> var q := p + OpSize(op); q in depths && depths[q] % 255 == after % 255)
    ensures Consistent(code, depths, max, p)
  {
    hide After, Pops;
  }

  lemma AllChecked(code: seq<byte>, depths: map<nat, nat>, max: nat)
    requires 0 in depths && depths[0] == 0 && forall p :: p in depths ==> Consistent(code, depths, max, p)
    ensures Checked(code, depths, max)
  {
    hide Consistent;
  }

  /** A size no larger than it was or than that of an exact assignment, if there is one. */
  ghost predicate NoLarger(code: seq<byte>, size: nat, was: nat) {
    forall marks, bound :: Checked(code, marks, bound) && bound <= 253 ==> size <= was || size <= bound
  }

  lemma SameSize(code: seq<byte>, size: nat)
    ensures NoLarger(code, size, size)
  {}

  lemma EffectNoLarger(code: seq<byte>, depths: map<nat, nat>, p: nat, size: nat, next: nat, was: nat)
    requires NoLarger(code, size, was) && Forced(code, depths) && p in depths && IsInstruction(code, p) && Pops(code, p) <= depths[p]
    requires next == size || next == After(code, p, depths[p])
    ensures NoLarger(code, next, was)
  {
    hide Edge, After, Pops, IsInstruction, Consistent, Checked;
    forall marks, bound | Checked(code, marks, bound) && bound <= 253 ensures next <= was || next <= bound {
      ExactAt(code, depths, marks, bound, p);
    }
  }

  /** Code accepted with some size has an exact assignment if and only if the size is at most 253. */
  lemma AcceptedExact(code: seq<byte>, depths: map<nat, nat>, max: nat, was: nat)
    requires Checked(code, depths, max) && NoLarger(code, max, was) && was <= 253
    ensures Exact(code) <==> max <= 253
  {
    hide Checked;
  }
}
