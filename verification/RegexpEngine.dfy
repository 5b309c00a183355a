/** Compiling a pattern and running its code: what a whole regexp match finds. */
module RegexpEngine {
  import opened Bytes
  import opened Options
  import opened RegexpCode
  import opened RegexpPattern
  import opened RegexpRegisters
  import opened RegexpSource
  import opened RegexpPlan
  import opened RegexpAgreement
  import opened RegexpVM
  import opened RegexpProgram
  import opened RegexpEmit
  import opened RegexpAnswer

  /** The words a match starts from: captures undefined, registers as memory happens to be. */
  function Words(memory: seq<nat>, count: nat, n: nat): seq<nat> {
    seq(n, (i: nat) => if i < 2 * count then UNSET else if i < |memory| then memory[i] else 0)
  }

  lemma WordsBlanked(memory: seq<nat>, count: nat, n: nat)
    requires 2 * count <= n && forall v :: v in memory ==> v < WORD
    ensures Blanked(Words(memory, count, n), count)
  {
    forall i | 0 <= i < n ensures Words(memory, count, n)[i] < WORD {
      if i < |memory| { assert memory[i] in memory; }
    }
  }

  /** What the compiler leaves is a program for the plan. */
  lemma CompiledIsProgram(g: Program, flags: nat, s: Source, n: nat)
    requires flags < 0x1_0000 && Valid(s) && Captures(s) <= CAPTURE_COUNT_MAX && Affordable(s)
    requires Encodable(Whole(s), Captures(s)) && CodeSize(Whole(s)) < MAX_CODE && WholeChars(g.text)
    requires g.code == ProgramCode(flags, s) && g.count == Captures(s) && n == 2 * Captures(s) + Registers(s)
    ensures IsProgram(g, IsSticky(flags), Plan(s, 1, Captures(s), 0, 0), n)
  {
    hide WholeChars, Compile, SearchPrefix, Compilable, CodeSize, Plan, IsSticky;
    var p := Plan(s, 1, Captures(s), 0, 0);
    PlanOf(Capture(s), 0, Captures(s), 0, 0);
    PlanCompiles(Capture(s), 0, Captures(s), 0, n);
    var header := [flags % 256, flags / 256, Captures(s), Registers(s)];
    var rest: seq<byte> := if IsSticky(flags) then [] else SearchPrefix();
    assert g.code == header + (rest + Compile(Group(0, p), g.count) + [16]);
    assert g.code[..HEADER] == header;
  }

  /** The words of a match array: what memory held, with the captures undefined. */
  method NewCaptures(memory: seq<nat>, count: nat, n: nat) returns (capture: array<nat>)
    requires 2 * count <= n
    ensures fresh(capture) && capture.Length == n && capture[..] == Words(memory, count, n)
  {
    capture := new nat[n]((i: nat) => if i < |memory| then memory[i] else 0);
    for i := 0 to 2 * count
      invariant forall j :: 0 <= j < i ==> capture[j] == UNSET
      invariant forall j :: i <= j < n ==> capture[j] == if j < |memory| then memory[j] else 0
    {
      capture[i] := UNSET;
    }
  }

  /** js_parse_regexp on the alternatives of a pattern. */
  method CompilePattern(alts: seq<Source>, flags: nat) returns (code: Option<seq<byte>>)
    requires flags < 0x1_0000 && alts != []
    requires var s := Disjunction(alts); Valid(s) && Roomy(s, 1) && CodeSize(Group(0, Draft(s, 1))) < MAX_CODE
    ensures var s := Disjunction(alts);
            && (code.Some? <==> Captures(s) <= CAPTURE_COUNT_MAX && Affordable(s))
            && (code.Some? ==> Encodable(Whole(s), Captures(s)) && CodeSize(Whole(s)) < MAX_CODE
                               && code.value == ProgramCode(flags, s))
  {
    hide ProgramCode, Whole, Draft, Valid, Roomy, CodeSize, Encodable;
    var e := new Emitter();
    var ok := e.EmitProgram(flags, alts);
    code := if ok then Some(e.byteCode) else None;
  }

  lemma HeaderCounts(code: seq<byte>, flags: nat, s: Source)
    requires flags < 0x1_0000 && Captures(s) <= CAPTURE_COUNT_MAX && Registers(s) <= REGISTER_COUNT_MAX
    requires Encodable(Whole(s), Captures(s)) && CodeSize(Whole(s)) < MAX_CODE && code == ProgramCode(flags, s)
    ensures |code| >= HEADER && code[2] == Captures(s) && code[3] == Registers(s)
  {
    hide Whole, Compile, Encodable, CodeSize, IsSticky, SearchPrefix;
  }

  lemma FoundIs(sticky: bool, s: Source, text: seq<byte>, c: nat, k: seq<nat>)
    ensures Found(sticky, s, text, c, k, 0) == Answer(sticky, Plan(s, 1, Captures(s), 0, 0), text, c, k)
  {
    hide Plan, Answer;
  }

  /** The state a match of s starts in. */
  function Begin(s: Source, cindex: nat, memory: seq<nat>): Snapshot {
    Snapshot(HEADER, cindex, Words(memory, Captures(s), 2 * Captures(s) + Registers(s)), [])
  }

  /** The captures a match leaves, against those there should be. */
  predicate Reports(sticky: bool, s: Source, text: seq<byte>, c: nat, k: seq<nat>, caps: seq<nat>) {
    var v := SourceAnswer(sticky, s, text, c);
    && v.Some? && |v.value.caps| == 2 * Captures(s) <= |caps|
    && forall i :: 0 <= i < 2 * Captures(s) ==>
         if LeftReset(sticky, s, text, c, k, i) then caps[i] == 0 && v.value.caps[i] == UNSET else caps[i] == v.value.caps[i]
  }

  /**
   Compiling a pattern and running its code from cindex on: the engine finds the match ECMA-262 asks for, with
   its captures but for those left reset, or finds that there is none; it compiles unless there are too many
   captures or registers or a back reference is beyond the captures.  It answers if it may take as many steps as it
   needs and the stack has ROOM words for each.
   */
  method CompileAndFind(alts: seq<Source>, flags: nat, text: seq<byte>, cindex: nat, memory: seq<nat>, depth: nat, steps: nat)
    returns (code: Option<seq<byte>>, r: Outcome, caps: seq<nat>)
    requires flags < 0x1_0000 && alts != []
    requires var s := Disjunction(alts); WithinLimits(s, text) && Roomy(s, 1) && CodeSize(Group(0, Draft(s, 1))) < MAX_CODE
    requires cindex <= |text| && forall v :: v in memory ==> v < WORD
    ensures var s := Disjunction(alts);
            code.Some? <==> Captures(s) <= CAPTURE_COUNT_MAX && Affordable(s)
    ensures var s, sticky := Disjunction(alts), IsSticky(flags);
            code.Some? ==>
              && (r == Success ==> Reports(sticky, s, text, cindex, Begin(s, cindex, memory).caps, caps))
              && (r == Failure ==> SourceAnswer(sticky, s, text, cindex).None?)
              && var g := Program(code.value, text, Captures(s));
                 && Halts(g, Begin(s, cindex, memory))
                 && var n := StepsNeeded(g, Begin(s, cindex, memory));
                    && (r == Continue ==> steps < n) && (r == Exception ==> depth < ROOM * n)
                    && (n <= steps && ROOM * n <= depth ==> r == Success || r == Failure)
  {
    hide WholeChars, ProgramCode, Whole, Draft, Roomy, CodeSize, Encodable, Plan, Answer, SourceAnswer, Found, LeftReset,
         Bounded, Halts, StepsNeeded, Words, Disjunction, IsProgram, Blanked;
    r, caps := Failure, [];
    code := CompilePattern(alts, flags);
    if code.Some? {
      ghost var s, sticky := Disjunction(alts), IsSticky(flags);
      HeaderCounts(code.value, flags, s);
      var count: nat := code.value[2];
      var n: nat := 2 * count + code.value[3];
      var capture := NewCaptures(memory, count, n);
      WordsBlanked(memory, count, n);
      ghost var k := capture[..];
      CompiledIsProgram(Program(code.value, text, count), flags, s, n);
      var m := new Machine(code.value, text, count, capture, depth, HEADER, cindex);
      r := Find(m, sticky, Plan(s, 1, count, 0, 0), steps);
      caps := capture[..];
      assert Answer(sticky, Plan(s, 1, Captures(s), 0, 0), text, cindex, k) == Found(sticky, s, text, cindex, k, 0) by {
        FoundIs(sticky, s, text, cindex, k);
      }
      CapturesExact(sticky, s, text, cindex, k);
    }
  }
}
