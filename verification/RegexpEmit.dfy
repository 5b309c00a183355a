/** The compiler's side: bytes appended, inserted and patched in one buffer until they are the code of the pattern. */
module RegexpEmit {
  import opened Bytes
  import opened Options
  import opened RegexpCode
  import opened RegexpPattern
  import opened RegexpScan
  import opened RegexpMeaning
  import opened RegexpRegisters
  import opened RegexpSource
  import opened RegexpPlan
  import opened RegexpProgram

  const CAPTURE_COUNT_MAX: nat := 255

  class Emitter {
    var byteCode: seq<byte>
    var captureCount: nat

    constructor ()
      ensures byteCode == [] && captureCount == 1
    {
      byteCode, captureCount := [], 1;
    }

    method EmitU8(v: byte)
      modifies this`byteCode
      ensures byteCode == old(byteCode) + [v]
    {
      byteCode := byteCode + [v];
    }

    method EmitOpU8(op: byte, x: byte)
      modifies this`byteCode
      ensures byteCode == old(byteCode) + [op, x]
    {
      EmitU8(op);
      EmitU8(x);
      assert [op] + [x] == [op, x];
    }

    method EmitU32(v: nat)
      requires v < WORD
      modifies this`byteCode
      ensures byteCode == old(byteCode) + WordBytes(v)
    {
      byteCode := byteCode + WordBytes(v);
    }

    /** Opcode and operand; the operand's place is returned for patching. */
    method EmitOpU32(op: byte, offset: int) returns (pos: nat)
      requires IsOffset(offset)
      modifies this`byteCode
      ensures byteCode == old(byteCode) + Jump(op, offset) && pos == |old(byteCode)| + 1
    {
      EmitU8(op);
      pos := |byteCode|;
      EmitU32(if offset < 0 then offset + WORD else offset);
    }

    /** Open a gap of n bytes at pos. */
    method EmitInsert(pos: nat, n: nat)
      requires pos <= |byteCode|
      modifies this`byteCode
      ensures |byteCode| == |old(byteCode)| + n
      ensures byteCode[..pos] == old(byteCode[..pos]) && byteCode[pos + n..] == old(byteCode[pos..])
    {
      byteCode := byteCode[..pos] + seq(n, _ => 0) + byteCode[pos..];
    }

    method PutBytes(pos: nat, b: seq<byte>)
      requires pos + |b| <= |byteCode|
      modifies this`byteCode
      ensures byteCode == old(byteCode[..pos]) + b + old(byteCode[pos + |b|..])
    {
      byteCode := byteCode[..pos] + b + byteCode[pos + |b|..];
    }

    /** A jump written into a gap. */
    method PutJump(pos: nat, op: byte, offset: int)
      requires pos + 5 <= |byteCode| && IsOffset(offset)
      modifies this`byteCode
      ensures byteCode == old(byteCode[..pos]) + Jump(op, offset) + old(byteCode[pos + 5..])
    {
      PutBytes(pos, Jump(op, offset));
    }

    /** Patch the operand of the jump whose operand starts at pos, to land at the end of the code. */
    method PatchToEnd(pos: nat, ghost before: seq<byte>, ghost op: byte, ghost rest: seq<byte>)
      requires byteCode == before + Jump(op, 0) + rest && pos == |before| + 1 && |rest| < MAX_CODE
      modifies this`byteCode
      ensures byteCode == before + Jump(op, |rest|) + rest
    {
      var len := |byteCode| - (pos + 4);
      assert byteCode[..pos] == before + [op] by {
        assert (before + Jump(op, 0) + rest)[..pos] == before + Jump(op, 0)[..1];
      }
      assert byteCode[pos + 4..] == rest;
      PutBytes(pos, WordBytes(len));
      assert byteCode == before + ([op] + WordBytes(|rest|)) + rest;
    }

    // ---------- disjunctions ----------

    /** A '|' after what starts at start: a split in front of it and a jump behind it, still to be patched. */
    method OpenAlternative(start: nat, ghost before: seq<byte>, ghost done: seq<byte>) returns (pos: nat)
      requires byteCode == before + done && start == |before| && |done| < MAX_CODE
      modifies this`byteCode
      ensures byteCode == before + Jump(15, |done| + 5) + done + Jump(13, 0)
      ensures pos == |before| + 5 + |done| + 1
    {
      var len := |byteCode| - start;
      EmitInsert(start, 5);
      assert byteCode[start + 5..] == done;
      PutJump(start, 15, len + 5);
      pos := EmitOpU32(13, 0);
    }

    // ---------- quantifiers ----------

    /** Room for n bytes between before and body. */
    method OpenGap(pos: nat, n: nat, ghost before: seq<byte>, ghost body: seq<byte>) returns (ghost gap: seq<byte>)
      requires byteCode == before + body && pos == |before|
      modifies this`byteCode
      ensures byteCode == before + gap + body && |gap| == n
    {
      EmitInsert(pos, n);
      gap := byteCode[pos..pos + n];
      assert byteCode[..pos] == before && byteCode[pos + n..] == body;
      assert byteCode == byteCode[..pos] + gap + byteCode[pos + n..];
    }

    method Fill(pos: nat, b: seq<byte>, ghost before: seq<byte>, ghost gap: seq<byte>, ghost body: seq<byte>)
      requires byteCode == before + gap + body && pos == |before| && |gap| == |b|
      modifies this`byteCode
      ensures byteCode == before + b + body
    {
      assert byteCode[..pos] == before && byteCode[pos + |b|..] == body;
      PutBytes(pos, b);
    }

    /** A guard around what starts at pos, in a gap left for its front. */
    method CloseGuard(pos: nat, ghost front: seq<byte>, ghost gap: seq<byte>, ghost body: seq<byte>)
      requires byteCode == front + gap + body && pos == |front| && |gap| == 2
      modifies this`byteCode
      ensures byteCode == front + ([36, 0] + body + [37, 0])
    {
      Fill(pos, [36, 0], front, gap, body);
      EmitU8(37);
      EmitU8(0);
    }

    /**
     A '*' or '?' after the atom that starts at atom: a split and, where the atom may match nothing, the
     register that remembers its start go in front; the check and the jump back go behind.
     */
    method Quantifier(atom: nat, star: bool, greedy: bool, guard: bool, ghost before: seq<byte>, ghost body: seq<byte>)
      requires byteCode == before + body && atom == |before| && |body| < MAX_CODE
      modifies this`byteCode
      ensures var inner := if guard then [36, 0] + body + [37, 0] else body;
              byteCode == before + (Jump(SplitOp(greedy), |inner| + if star then 5 else 0) + inner
                                    + if star then Jump(13, -(|inner| + 10)) else [])
    {
      hide Jump, WordBytes;
      var len, azac := |byteCode| - atom, if guard then 1 else 0;
      ghost var left := OpenGap(atom, 5 + 2 * azac, before, body);
      var jump := Jump(SplitOp(greedy), len + (if star then 5 else 0) + 4 * azac);
      FillNext(atom, jump, before, left, body);
      ghost var inner := if guard then [36, 0] + body + [37, 0] else body;
      if guard {
        CloseGuard(atom + 5, before + jump, left[5..], body);
      }
      assert byteCode == before + jump + inner;
      ghost var tail := if star then Jump(13, -(|inner| + 10)) else [];
      if star {
        EmitGoto(13, atom);
      }
      AddTail(before, jump, inner, tail);
    }

    /** The next bytes of a gap. */
    method FillNext(pos: nat, b: seq<byte>, ghost done: seq<byte>, ghost left: seq<byte>, ghost body: seq<byte>)
      requires byteCode == done + left + body && pos == |done| && |b| <= |left|
      modifies this`byteCode
      ensures byteCode == (done + b) + left[|b|..] + body
    {
      assert byteCode == done + left[..|b|] + (left[|b|..] + body);
      Fill(pos, b, done, left[..|b|], left[|b|..] + body);
    }

    /** What a counted loop puts in front of its atom; where to jump back to is returned. */
    method OpenLoop(p: Pattern, atom: nat, ghost before: seq<byte>, ghost body: seq<byte>) returns (start: nat)
      requires p.Counted? && p.max < WORD && CountedSize(p, |body|) < MAX_CODE
      requires byteCode == before + body && atom == |before|
      modifies this`byteCode
      ensures byteCode == (before + LoopHead(p, |body|)) + (if p.check then [36, 0] else []) + body
      ensures start == |before| + |LoopHead(p, |body|)|
    {
      hide Jump, WordBytes, CounterBytes;
      var len, azac := |byteCode| - atom, if p.check then 1 else 0;
      start := atom;
      ghost var left := OpenGap(atom, (if p.min == 0 then 11 else 6) + 2 * azac, before, body);
      ghost var done := before;
      if p.min == 0 {
        var jump := Jump(SplitOp(p.greedy), 6 + 2 * azac + len + if p.min == p.max then 6 else 10);
        FillNext(start, jump, done, left, body);
        start, done, left := start + 5, done + jump, left[5..];
      }
      var counter := CounterBytes(0, p.max);
      FillNext(start, counter, done, left, body);
      start, done, left := start + 6, done + counter, left[6..];
      assert done == before + LoopHead(p, |body|);
      if p.check {
        Fill(start, [36, 0], done, left, body);
      }
    }

    /**
     A counted quantifier after the atom that starts at atom: the counter, and where the atom may match
     nothing the register that remembers its start, go in front, with a way around all if it may be left
     out; the end of the loop goes behind.
     */
    method CountedQuantifier(p: Pattern, atom: nat, ghost before: seq<byte>, ghost body: seq<byte>)
      requires p.Counted? && p.max < WORD && CountedSize(p, |body|) < MAX_CODE
      requires byteCode == before + body && atom == |before|
      modifies this`byteCode
      ensures byteCode == before + CountedBytes(p, body, 0, 0)
    {
      hide Jump, WordBytes, CounterBytes, LoopBytes;
      var start := OpenLoop(p, atom, before, body);
      ghost var loop := (if p.check then [36, 0] else []) + body;
      ghost var head := LoopHead(p, |body|);
      assert byteCode == before + head + loop;
      EmitLoopEnd(p, start);
      assert byteCode == before + (head + LoopBody(p, body, 0, 0));
    }

    /** The instruction that ends a counted loop, back to target. */
    method EmitLoopEnd(p: Pattern, target: nat)
      requires p.Counted? && Limit(p) < WORD && target <= |byteCode| < target + MAX_CODE
      modifies this`byteCode
      ensures byteCode == old(byteCode) + LoopBytes(p, 0, target - |old(byteCode)| - if p.min == p.max then 6 else 10)
    {
      hide WordBytes, Limit;
      ghost var before := byteCode;
      if p.min == p.max {
        var distance: int := target - |byteCode| - 6;
        EmitOpU8(22, 0);
        EmitU32(distance + WORD);
        assert byteCode == before + ([22, 0] + OffsetBytes(distance));
      } else {
        var distance: int := target - |byteCode| - 10;
        var op: byte := (if p.check then 26 else 24) - (if p.greedy then 1 else 0);
        EmitOpU8(op, 0);
        EmitU32(Limit(p));
        EmitU32(distance + WORD);
        assert byteCode == before + ([op, 0] + WordBytes(Limit(p)) + OffsetBytes(distance));
      }
    }

    /** A jump back to target. */
    method EmitGoto(op: byte, target: nat)
      requires target <= |byteCode| < target + MAX_CODE + 10
      modifies this`byteCode
      ensures byteCode == old(byteCode) + Jump(op, target - |old(byteCode)| - 5)
    {
      var distance: int := target - |byteCode| - 5;
      EmitU8(op);
      EmitU32(distance + WORD);
    }

    /** A reset of captures in front of what starts at atom. */
    method InsertReset(atom: nat, low: byte, high: byte, ghost before: seq<byte>, ghost rest: seq<byte>)
      requires byteCode == before + rest && atom == |before|
      modifies this`byteCode
      ensures byteCode == before + [21, low, high] + rest
    {
      ghost var gap := OpenGap(atom, 3, before, rest);
      Fill(atom, [21, low, high], before, gap, rest);
    }

    /** The loop for given counts around the body that starts at atom. */
    method EmitLoop(atom: nat, min: nat, max: nat, greedy: bool, check: bool, ghost before: seq<byte>, ghost body: Pattern)
      requires min <= max <= JS_SHORTINT_MAX && Cleared(body) == body && Encodable(body, 0) && CodeSize(body) < MAX_CODE
      requires byteCode == before + Compile(body, 0) && atom == |before|
      requires CodeSize(Cleared(LoopOf(body, min, max, greedy, check, 0))) < MAX_CODE
      modifies this`byteCode
      ensures Encodable(Cleared(LoopOf(body, min, max, greedy, check, 0)), 0)
      ensures byteCode == before + Compile(Cleared(LoopOf(body, min, max, greedy, check, 0)), 0)
    {
      hide Compile, Encodable, CodeSize, Cleared, LoopOf, Jump, CountedBytes;
      LoopOfEncodes(body, min, max, greedy, check, 0);
      LoopCompiled(body, min, max, greedy, check);
      ghost var code := Compile(body, 0);
      if max == 0 {
        byteCode := byteCode[..atom];
        assert byteCode == before + [];
      } else if min == 0 && (max == 1 || max == JS_SHORTINT_MAX) {
        Quantifier(atom, max == JS_SHORTINT_MAX, greedy, check, before, code);
      } else if min == 1 && max == JS_SHORTINT_MAX && !check {
        EmitGoto(SplitOp(!greedy), atom);
        assert byteCode == before + (code + Jump(SplitOp(!greedy), -(|code| + 5)));
      } else {
        CountedQuantifier(Counted(Empty, min, max, greedy, check && min != max, 0, 0), atom, before, code);
      }
    }

    /**
     re_parse_quantifier, once the counts are read: the scan of the atom's code decides on the check and on
     where its captures are reset, and then the loop goes around it.
     */
    method ParseQuantifier(atom: nat, low: byte, min: nat, max: nat, greedy: bool, ghost before: seq<byte>, ghost b: Pattern)
      requires low <= captureCount <= 256 && min <= max <= JS_SHORTINT_MAX
      requires Cleared(b) == b && Encodable(b, 0) && CodeSize(b) < MAX_CODE
      requires byteCode == before + Compile(b, 0) && atom == |before|
      requires var g := captureCount - low;
               && CodeSize(LoopBodyOf(b, low, g, Stops(b), 0)) < MAX_CODE
               && CodeSize(Cleared(Quantify(b, low, g, min, max, greedy, !Consumes(b), Stops(b), 0, 0))) < MAX_CODE
      modifies this`byteCode
      ensures var p := Cleared(Quantify(b, low, captureCount - low, min, max, greedy, !Consumes(b), Stops(b), 0, 0));
              Encodable(p, 0) && byteCode == before + Compile(p, 0)
    {
      hide Compile, Encodable, CodeSize, Cleared, LoopOf, Scan, Consumes, Stops, Quantify, LoopBodyOf;
      ghost var g, code := captureCount - low, Compile(b, 0);
      var azac, init := NeedCheckAndInit(byteCode, atom);
      assert azac == !Consumes(b) && init == Stops(b) by { ScanDecides(b, byteCode, atom, before); }
      ghost var body := LoopBodyOf(b, low, g, init, 0);
      BodyCompiled(b, low, g, init);
      QuantifyCompiled(b, low, g, min, max, greedy, azac, init);
      if init && low != captureCount {
        InsertReset(atom, low, captureCount - 1, before, code);
        assert byteCode == before + ([21, low, captureCount - 1] + code);
      }
      if min == 0 && !init && low != captureCount {
        InsertReset(atom, low, captureCount - 1, before, Compile(body, 0));
        EmitLoop(atom + 3, min, max, greedy, azac, before + [21, low, captureCount - 1], body);
        assert byteCode == before + ([21, low, captureCount - 1] + Compile(Cleared(LoopOf(body, min, max, greedy, azac, 0)), 0));
      } else {
        EmitLoop(atom, min, max, greedy, azac, before, body);
      }
    }

    // ---------- patterns ----------

    /** The code of s, as the parser comes upon its parts; it fails when there are too many captures. */
    method Emit(s: Source) returns (ok: bool)
      requires Valid(s) && captureCount <= CAPTURE_COUNT_MAX && Roomy(s, captureCount)
      modifies this
      ensures ok <==> old(captureCount) + Groups(s) <= CAPTURE_COUNT_MAX
      ensures ok ==> captureCount == old(captureCount) + Groups(s)
      ensures ok ==> byteCode == old(byteCode) + DraftCode(s, old(captureCount))
      decreases s, 1
    {
      hide DraftCode, Draft, Roomy;
      match s {
        case Leaf(p) =>
          LeafDraft(s, captureCount);
          EmitLeaf(p);
          ok := true;
        case Sequence(_, _) => ok := EmitSequence(s);
        case Alternative(a, b) => ok := EmitAlternative(a, b);
        case Capture(b) => ok := EmitCapture(b);
        case Ahead(_, _) => ok := EmitAhead(s);
        case Quantified(_, _, _, _) => ok := EmitQuantified(s);
      }
    }

    method EmitSequence(s: Source) returns (ok: bool)
      requires s.Sequence? && Valid(s) && captureCount <= CAPTURE_COUNT_MAX && Roomy(s, captureCount)
      modifies this
      ensures ok <==> old(captureCount) + Groups(s) <= CAPTURE_COUNT_MAX
      ensures ok ==> captureCount == old(captureCount) + Groups(s)
      ensures ok ==> byteCode == old(byteCode) + DraftCode(s, old(captureCount))
      decreases s, 0
    {
      hide DraftCode, Draft;
      ghost var before, low := byteCode, captureCount;
      ok := Emit(s.first);
      if ok {
        ok := Emit(s.second);
        if ok {
          SequenceDraft(s, low);
          assert byteCode == before + (DraftCode(s.first, low) + DraftCode(s.second, low + Groups(s.first)));
        }
      }
    }

    method EmitAlternative(a: Source, b: Source) returns (ok: bool)
      requires var s := Alternative(a, b); Valid(s) && captureCount <= CAPTURE_COUNT_MAX && Roomy(s, captureCount)
      modifies this
      ensures ok <==> old(captureCount) + Groups(Alternative(a, b)) <= CAPTURE_COUNT_MAX
      ensures ok ==> captureCount == old(captureCount) + Groups(Alternative(a, b))
      ensures ok ==> byteCode == old(byteCode) + DraftCode(Alternative(a, b), old(captureCount))
      decreases Alternative(a, b), 0
    {
      hide DraftCode, Draft, Jump, WordBytes;
      ghost var before, low := byteCode, captureCount;
      var start := |byteCode|;
      ok := Emit(a);
      if ok {
        ok := NextAlternative(start, before, a, b, low);
      }
    }

    /** From a '|' on: what was parsed since start becomes the first of two alternatives. */
    method NextAlternative(start: nat, ghost before: seq<byte>, ghost a: Source, b: Source, ghost low: nat) returns (ok: bool)
      requires var s := Alternative(a, b); Valid(s) && low <= captureCount <= CAPTURE_COUNT_MAX && Roomy(s, low)
      requires captureCount == low + Groups(a) && start == |before| && byteCode == before + DraftCode(a, low)
      modifies this
      ensures ok <==> low + Groups(Alternative(a, b)) <= CAPTURE_COUNT_MAX
      ensures ok ==> captureCount == low + Groups(Alternative(a, b))
      ensures ok ==> byteCode == before + DraftCode(Alternative(a, b), low)
      decreases b, 2
    {
      hide DraftCode, Draft, Jump, WordBytes, CodeSize, Encodable, Compile;
      ghost var done := DraftCode(a, low);
      var pos := OpenAlternative(start, before, done);
      ghost var x := Jump(15, |done| + 5);
      ok := Emit(b);
      if ok {
        ghost var rest := DraftCode(b, low + Groups(a));
        PatchToEnd(pos, before + x + done, 13, rest);
        AlternativeDraft(Alternative(a, b), low);
        assert byteCode == before + (x + done + Jump(13, |rest|) + rest);
      }
    }

    method EmitLeaf(p: Pattern)
      requires IsLeaf(p) && Encodable(p, 0) && CodeSize(p) < MAX_CODE
      modifies this`byteCode
      ensures byteCode == old(byteCode) + Compile(p, 0)
    {
      if p.Chars? {
        EmitU8(|p.bytes|);
        byteCode := byteCode + p.bytes;
      } else if p.Class? {
        byteCode := byteCode + ClassBytes(p.intervals);
      } else if p.Symbol? {
        EmitU8(OpOf(p.sym));
      } else if p.BackRef? {
        EmitOpU8(if p.fold then 31 else 30, p.group);
      }
    }

    method EmitCapture(b: Source) returns (ok: bool)
      requires Valid(b) && captureCount <= CAPTURE_COUNT_MAX && Roomy(Capture(b), captureCount)
      modifies this
      ensures ok <==> old(captureCount) + Groups(Capture(b)) <= CAPTURE_COUNT_MAX
      ensures ok ==> captureCount == old(captureCount) + Groups(Capture(b))
      ensures ok ==> byteCode == old(byteCode) + DraftCode(Capture(b), old(captureCount))
      decreases b, 2
    {
      hide DraftCode, Draft;
      ghost var before := byteCode;
      if captureCount >= CAPTURE_COUNT_MAX {
        return false;
      }
      var index := captureCount;
      captureCount := captureCount + 1;
      EmitOpU8(19, index);
      ok := Emit(b);
      if ok {
        EmitOpU8(20, index);
        CaptureDraft(b, index);
        assert byteCode == before + ([19, index] + DraftCode(b, index + 1) + [20, index]);
      }
    }

    method EmitAhead(s: Source) returns (ok: bool)
      requires s.Ahead? && Valid(s) && captureCount <= CAPTURE_COUNT_MAX && Roomy(s, captureCount)
      modifies this
      ensures ok <==> old(captureCount) + Groups(s) <= CAPTURE_COUNT_MAX
      ensures ok ==> captureCount == old(captureCount) + Groups(s)
      ensures ok ==> byteCode == old(byteCode) + DraftCode(s, old(captureCount))
      decreases s, 0
    {
      hide DraftCode, Draft, Jump, WordBytes;
      ghost var before, low := byteCode, captureCount;
      var op, end: byte := if s.negative then 35 else 34, if s.negative then 18 else 17;
      var pos := EmitOpU32(op, 0);
      ok := Emit(s.body);
      if ok {
        EmitU8(end);
        ghost var rest := DraftCode(s.body, low) + [end];
        assert byteCode == before + Jump(op, 0) + rest;
        AheadDraft(s, low);
        PatchToEnd(pos, before, op, rest);
        assert byteCode == before + (Jump(op, |rest|) + DraftCode(s.body, low) + [end]);
      }
    }

    method EmitQuantified(s: Source) returns (ok: bool)
      requires s.Quantified? && Valid(s) && captureCount <= CAPTURE_COUNT_MAX && Roomy(s, captureCount)
      modifies this
      ensures ok <==> old(captureCount) + Groups(s) <= CAPTURE_COUNT_MAX
      ensures ok ==> captureCount == old(captureCount) + Groups(s)
      ensures ok ==> byteCode == old(byteCode) + DraftCode(s, old(captureCount))
      decreases s, 0
    {
      hide DraftCode, Draft, Compile, Encodable, CodeSize, LoopBodyOf, Quantify, Cleared, Consumes, Stops;
      ghost var before := byteCode;
      var atom, low := |byteCode|, captureCount;
      ok := Emit(s.body);
      if ok {
        QuantifiedDraft(s, low);
        ParseQuantifier(atom, low, s.min, s.max, s.greedy, before, Draft(s.body, low));
      }
    }

    /** re_parse_disjunction: alternatives read one after another, each '|' wrapping all code since start. */
    method EmitDisjunction(alts: seq<Source>) returns (ok: bool)
      requires alts != [] && var s := Disjunction(alts); Valid(s) && captureCount <= CAPTURE_COUNT_MAX && Roomy(s, captureCount)
      modifies this
      ensures ok <==> old(captureCount) + Groups(Disjunction(alts)) <= CAPTURE_COUNT_MAX
      ensures ok ==> captureCount == old(captureCount) + Groups(Disjunction(alts))
      ensures ok ==> byteCode == old(byteCode) + DraftCode(Disjunction(alts), old(captureCount))
    {
      hide DraftCode, Draft, Roomy, Valid;
      ghost var before, low := byteCode, captureCount;
      var start := |byteCode|;
      DisjunctionParts(alts, 1, low);
      ok := Emit(alts[0]);
      assert Disjunction(alts[..1]) == alts[0];
      var i := 1;
      while ok && i < |alts|
        invariant 1 <= i <= |alts|
        invariant ok ==> Valid(Disjunction(alts[..i])) && Roomy(Disjunction(alts[..i]), low)
        invariant ok ==> captureCount == low + Groups(Disjunction(alts[..i])) <= CAPTURE_COUNT_MAX
        invariant ok ==> byteCode == before + DraftCode(Disjunction(alts[..i]), low)
        invariant !ok ==> low + Groups(Disjunction(alts)) > CAPTURE_COUNT_MAX
      {
        DisjunctionParts(alts, i + 1, low);
        assert alts[..i + 1][..i] == alts[..i];
        ok := NextAlternative(start, before, Disjunction(alts[..i]), alts[i], low);
        i := i + 1;
      }
      assert alts[..|alts|] == alts;
    }
    method EmitPrefix()
      modifies this`byteCode
      ensures byteCode == old(byteCode) + SearchPrefix()
    {
      hide Jump;
      var pos := EmitOpU32(14, 1 + 5);
      EmitU8(6);
      pos := EmitOpU32(13, 0 - (5 + 1 + 5));
    }

    // ---------- whole programs ----------

    /** re_compute_register_count over the code from start on: registers are numbered in place, unless there are too
        many or a back reference is beyond the captures. */
    method ComputeRegisterCount(start: nat) returns (r: Option<nat>)
      modifies this`byteCode
      ensures match Renumber(captureCount, old(byteCode), start, 0, 0)
              case Some(done) => byteCode == done.0 && r.Some? && r.value == done.1
              case None => r.None?
    {
      hide SetByte, OpSize, ByteAt;
      var pos: nat := start;
      var stackSize, stackSizeMax := 0, 0;
      while pos < |byteCode|
        invariant Renumber(captureCount, old(byteCode), start, 0, 0) == Renumber(captureCount, byteCode, pos, stackSize, stackSizeMax)
        invariant stackSizeMax >= 0
        decreases |byteCode| - pos
      {
        var op, len := byteCode[pos], SizeAt(byteCode, pos);
        if op == 27 || op == 36 {
          byteCode := SetByte(byteCode, pos + 1, stackSize);
          stackSize := stackSize + 1;
          if stackSize > stackSizeMax {
            if stackSize > REGISTER_COUNT_MAX {
              return None;
            }
            stackSizeMax := stackSize;
          }
        } else if op == 37 || op == 22 || op == 23 || op == 24 {
          stackSize := stackSize - 1;
          byteCode := SetByte(byteCode, pos + 1, stackSize);
        } else if op == 25 || op == 26 {
          stackSize := stackSize - 2;
          byteCode := SetByte(byteCode, pos + 1, stackSize);
        } else if op == 30 || op == 31 {
          var ref := ByteAt(byteCode, pos + 1);
          if ref as int >= captureCount {
            return None;
          }
        }
        pos := pos + len;
      }
      r := Some(stackSizeMax);
    }

    /** What js_parse_regexp emits before it counts registers. */
    method EmitDraft(flags: nat, alts: seq<Source>) returns (ok: bool)
      requires flags < 0x1_0000 && alts != []
      requires var s := Disjunction(alts); Valid(s) && Roomy(s, 1)
      modifies this
      ensures var s := Disjunction(alts);
              && (ok <==> 1 + Groups(s) <= CAPTURE_COUNT_MAX)
              && (ok ==> captureCount == 1 + Groups(s)
                         && byteCode == [flags % 256, flags / 256, 0, 0] + DraftRest(IsSticky(flags), s))
    {
      hide SearchPrefix, DraftCode, Roomy, Valid, IsSticky;
      byteCode, captureCount := [], 1;
      EmitU8(flags % 256);
      EmitU8(flags / 256);
      EmitU8(0);
      EmitU8(0);
      assert byteCode == [flags % 256, flags / 256, 0, 0];
      if !IsSticky(flags) {
        EmitPrefix();
      }
      ghost var before := byteCode;
      EmitOpU8(19, 0);
      ok := EmitDisjunction(alts);
      if ok {
        EmitOpU8(20, 0);
        EmitU8(16);
        ghost var code := DraftCode(Disjunction(alts), 1);
        assert byteCode == before + ([19, 0] + code + [20, 0] + [16]);
      }
    }

    /**
     js_parse_regexp: header, search prefix unless sticky, the pattern between save_start 0 and save_end 0, and
     then the counts of captures and registers in the header. It fails only when there are too many of either.
     */
    method EmitProgram(flags: nat, alts: seq<Source>) returns (ok: bool)
      requires flags < 0x1_0000 && alts != []
      requires var s := Disjunction(alts); Valid(s) && Roomy(s, 1) && CodeSize(Group(0, Draft(s, 1))) < MAX_CODE
      modifies this
      ensures var s := Disjunction(alts); ok <==> Captures(s) <= CAPTURE_COUNT_MAX && Affordable(s)
      ensures ok ==> var s := Disjunction(alts);
                     Encodable(Whole(s), Captures(s)) && CodeSize(Whole(s)) < MAX_CODE && byteCode == ProgramCode(flags, s)
    {
      hide SearchPrefix, DraftCode, DraftRest, Roomy, Valid, IsSticky, Draft, Renumber, Whole, Layout, CodeSize, Encodable;
      ghost var s := Disjunction(alts);
      ok := EmitDraft(flags, alts);
      if ok {
        ghost var rest := DraftRest(IsSticky(flags), s);
        assert byteCode == [flags % 256, flags / 256] + [0, 0] + rest;
        Fill(2, [captureCount, 0], [flags % 256, flags / 256], [0, 0], rest);
        ghost var header := [flags % 256, flags / 256, captureCount, 0];
        assert [flags % 256, flags / 256] + [captureCount, 0] == header;
        PassNumbersProgram(s, IsSticky(flags), header);
        var registers := ComputeRegisterCount(HEADER);
        if registers.None? {
          return false;
        }
        ghost var all := NumberedRest(IsSticky(flags), s);
        assert byteCode == [flags % 256, flags / 256, captureCount] + [0] + all;
        Fill(3, [registers.value], [flags % 256, flags / 256, captureCount], [0], all);
        assert [flags % 256, flags / 256, captureCount] + [registers.value]
            == [flags % 256, flags / 256, captureCount, registers.value];
        ProgramIs(flags, s);
      }
    }

  }

  lemma AddTail(before: seq<byte>, x: seq<byte>, y: seq<byte>, z: seq<byte>)
    ensures before + x + y + z == before + (x + y + z)
  {}

  // ---------- code of written patterns ----------

  /** No part's code is too long. */
  predicate Roomy(s: Source, low: nat): (r: bool)
    ensures r ==> CodeSize(Draft(s, low)) < MAX_CODE
  {
    && CodeSize(Draft(s, low)) < MAX_CODE
    && match s
       case Leaf(_) => true
       case Sequence(a, b) => Roomy(a, low) && Roomy(b, low + Groups(a))
       case Alternative(a, b) => Roomy(a, low) && Roomy(b, low + Groups(a))
       case Capture(b) => Roomy(b, low + 1)
       case Ahead(_, b) => Roomy(b, low)
       case Quantified(b, _, _, _) =>
         Roomy(b, low) && CodeSize(LoopBodyOf(Draft(b, low), low, Groups(b), Branches(b), 0)) < MAX_CODE
  }

  predicate HasDraft(s: Source, low: nat) { Valid(s) && low + Groups(s) <= 256 && CodeSize(Draft(s, low)) < MAX_CODE }

  /** The code of s before registers are numbered. */
  function DraftCode(s: Source, low: nat): (r: seq<byte>)
    requires HasDraft(s, low)
    ensures |r| == CodeSize(Draft(s, low))
  {
    DraftShape(s, low);
    Compile(Draft(s, low), 0)
  }

  lemma LeafDraft(s: Source, low: nat)
    requires s.Leaf? && Valid(s) && low <= 256 && Roomy(s, low)
    ensures CodeSize(s.p) < MAX_CODE && DraftCode(s, low) == Compile(s.p, 0)
  {
    hide Compile, Encodable;
    DraftOf(s, low);
  }

  lemma ConcatCode(x: Pattern, y: Pattern)
    requires Encodable(Concat(x, y), 0) && CodeSize(Concat(x, y)) < MAX_CODE
    ensures Encodable(x, 0) && Encodable(y, 0) && CodeSize(x) + CodeSize(y) < MAX_CODE
    ensures Compile(Concat(x, y), 0) == Compile(x, 0) + Compile(y, 0)
  {
    hide Jump, ClassBytes, CountedBytes;
  }

  lemma SequenceDraft(s: Source, low: nat)
    requires s.Sequence? && HasDraft(s, low) && HasDraft(s.first, low) && HasDraft(s.second, low + Groups(s.first))
    ensures DraftCode(s, low) == DraftCode(s.first, low) + DraftCode(s.second, low + Groups(s.first))
  {
    hide Draft, Compile, Encodable, CodeSize, Valid;
    DraftOf(s, low);
    DraftShape(s, low);
    ConcatCode(Draft(s.first, low), Draft(s.second, low + Groups(s.first)));
  }

  lemma EitherCode(x: Pattern, y: Pattern)
    requires Encodable(Either(x, y), 0) && CodeSize(Either(x, y)) < MAX_CODE
    ensures Encodable(x, 0) && Encodable(y, 0) && CodeSize(x) + CodeSize(y) + 10 < MAX_CODE
    ensures Compile(Either(x, y), 0) == Jump(15, CodeSize(x) + 5) + Compile(x, 0) + Jump(13, CodeSize(y)) + Compile(y, 0)
  {
    hide Jump;
  }

  lemma AlternativeDraft(s: Source, low: nat)
    requires s.Alternative? && HasDraft(s, low) && HasDraft(s.left, low) && HasDraft(s.right, low + Groups(s.left))
    ensures var x, y := DraftCode(s.left, low), DraftCode(s.right, low + Groups(s.left));
            |x| + |y| + 10 < MAX_CODE && DraftCode(s, low) == Jump(15, |x| + 5) + x + Jump(13, |y|) + y
  {
    hide Draft, Jump, Compile, Encodable, CodeSize, Valid;
    DraftOf(s, low);
    DraftShape(s, low);
    EitherCode(Draft(s.left, low), Draft(s.right, low + Groups(s.left)));
  }

  lemma CaptureDraft(b: Source, low: nat)
    requires Valid(b) && low + 1 + Groups(b) <= 256 && Roomy(Capture(b), low)
    ensures DraftCode(Capture(b), low) == [19, low] + DraftCode(b, low + 1) + [20, low]
  {
    hide Draft;
    DraftOf(Capture(b), low);
    DraftShape(Capture(b), low);
  }

  lemma AheadDraft(s: Source, low: nat)
    requires s.Ahead? && Valid(s) && low + Groups(s) <= 256 && Roomy(s, low)
    ensures var x := DraftCode(s.body, low);
            |x| + 1 < MAX_CODE
            && DraftCode(s, low) == Jump(if s.negative then 35 else 34, |x| + 1) + x + [if s.negative then 18 else 17]
  {
    hide Draft, Jump;
    DraftOf(s, low);
    DraftShape(s, low);
  }

  lemma QuantifiedDraft(s: Source, low: nat)
    requires s.Quantified? && Valid(s) && low + Groups(s) <= 256 && Roomy(s, low)
    ensures var b := Draft(s.body, low);
            && Cleared(b) == b && Encodable(b, 0) && CodeSize(b) < MAX_CODE && DraftCode(s.body, low) == Compile(b, 0)
            && var p := Cleared(Quantify(b, low, Groups(s.body), s.min, s.max, s.greedy, !Consumes(b), Stops(b), 0, 0));
               && CodeSize(LoopBodyOf(b, low, Groups(s.body), Stops(b), 0)) < MAX_CODE && CodeSize(p) < MAX_CODE
               && Encodable(p, 0) && DraftCode(s, low) == Compile(p, 0)
  {
    hide Draft, Compile, Encodable, Cleared, Quantify;
    DraftOf(s, low);
    DraftShape(s, low);
    DraftShape(s.body, low);
  }

  // ---------- code of loops ----------

  lemma ScanDecides(b: Pattern, code: seq<byte>, atom: nat, before: seq<byte>)
    requires Encodable(b, 0) && CodeSize(b) < MAX_CODE && code == before + Compile(b, 0) && atom == |before|
    ensures Scan(code, atom, true) == (!Consumes(b), Stops(b))
  {
    hide Compile, Encodable, Consumes, Stops;
    assert code[atom..atom + CodeSize(b)] == Compile(b, 0);
    ScanFinds(b, 0, code, atom, true);
  }

  lemma ForgetCode(low: nat, g: nat)
    requires g > 0 && low + g <= 256
    ensures Encodable(ForgetAll(low, g, 0), 0) && CodeSize(ForgetAll(low, g, 0)) == 3
    ensures Compile(ForgetAll(low, g, 0), 0) == [21, low, low + g - 1]
  {}

  lemma ResetFirst(q: Pattern, low: nat, g: nat)
    requires g > 0 && low + g <= 256 && Encodable(q, 0) && CodeSize(Concat(ForgetAll(low, g, 0), q)) < MAX_CODE
    ensures var p := Concat(ForgetAll(low, g, 0), q);
            CodeSize(q) < MAX_CODE && Encodable(p, 0) && Compile(p, 0) == [21, low, low + g - 1] + Compile(q, 0)
  {
    hide Compile;
    ForgetCode(low, g);
    ConcatCode(ForgetAll(low, g, 0), q);
  }

  lemma ResetCompiled(p: Pattern, low: nat, g: nat)
    requires g > 0 && low + g <= 256 && Encodable(Cleared(p), 0) && CodeSize(Cleared(Concat(ForgetAll(low, g, 0), p))) < MAX_CODE
    ensures CodeSize(Cleared(p)) < MAX_CODE
    ensures Encodable(Cleared(Concat(ForgetAll(low, g, 0), p)), 0)
    ensures Compile(Cleared(Concat(ForgetAll(low, g, 0), p)), 0) == [21, low, low + g - 1] + Compile(Cleared(p), 0)
  {
    hide Compile, Encodable, CodeSize;
    assert Cleared(Concat(ForgetAll(low, g, 0), p)) == Concat(ForgetAll(low, g, 0), Cleared(p));
    ResetFirst(Cleared(p), low, g);
  }

  /** A quantifier's code: a reset, where there is one, and the loop. */
  lemma QuantifyCompiled(b: Pattern, low: nat, g: nat, min: nat, max: nat, greedy: bool, check: bool, init: bool)
    requires min <= max <= JS_SHORTINT_MAX && Cleared(b) == b && Encodable(b, 0) && low + g <= 256
    requires CodeSize(LoopBodyOf(b, low, g, init, 0)) < MAX_CODE
    requires CodeSize(Cleared(Quantify(b, low, g, min, max, greedy, check, init, 0, 0))) < MAX_CODE
    ensures var p, loop := Cleared(Quantify(b, low, g, min, max, greedy, check, init, 0, 0)),
                           Cleared(LoopOf(LoopBodyOf(b, low, g, init, 0), min, max, greedy, check, 0));
            && Encodable(p, 0) && Encodable(loop, 0) && CodeSize(loop) < MAX_CODE
            && Compile(p, 0) == if min == 0 && !init && g > 0 then [21, low, low + g - 1] + Compile(loop, 0) else Compile(loop, 0)
  {
    hide Compile, Encodable, CodeSize, Cleared, LoopOf, LoopBodyOf;
    var body := LoopBodyOf(b, low, g, init, 0);
    BodyCompiled(b, low, g, init);
    LoopOfEncodes(body, min, max, greedy, check, 0);
    if min == 0 && !init && g > 0 { ResetCompiled(LoopOf(body, min, max, greedy, check, 0), low, g); }
  }

  lemma BodyCompiled(b: Pattern, low: nat, g: nat, init: bool)
    requires Cleared(b) == b && Encodable(b, 0) && low + g <= 256 && CodeSize(LoopBodyOf(b, low, g, init, 0)) < MAX_CODE
    ensures var body := LoopBodyOf(b, low, g, init, 0);
            && Cleared(body) == body && Encodable(body, 0) && CodeSize(b) < MAX_CODE
            && Compile(body, 0) == if init && g > 0 then [21, low, low + g - 1] + Compile(b, 0) else Compile(b, 0)
  {
    hide Compile, Encodable, CodeSize;
    if init && g > 0 { ResetFirst(b, low, g); }
  }

  /** The loop of a draft. */
  lemma LoopIs(body: Pattern, min: nat, max: nat, greedy: bool, check: bool)
    requires Cleared(body) == body
    ensures var q := if check then Guarded(0, body) else body;
            Cleared(LoopOf(body, min, max, greedy, check, 0))
            == (if max == 0 then Empty
                else if min == 0 && max == 1 then Optional(q, greedy)
                else if min == 0 && max == JS_SHORTINT_MAX then Repeat(q, greedy)
                else if min == 1 && max == JS_SHORTINT_MAX && !check then Plus(body, greedy)
                else Counted(body, min, max, greedy, check && min != max, 0, 0))
  {
    assert Cleared(Guarded(0, body)) == Guarded(0, body);
  }

  /** What the code of a loop is, in terms of its body's. */
  predicate LoopHasCode(p: Pattern, code: seq<byte>, min: nat, max: nat, greedy: bool, check: bool)
    requires Encodable(p, 0) && CodeSize(p) < MAX_CODE && min <= max <= JS_SHORTINT_MAX
  {
    var star, guarded := max == JS_SHORTINT_MAX, if check then [36, 0] + code + [37, 0] else code;
    if max == 0 then Compile(p, 0) == []
    else if min == 0 && (max == 1 || star) then
      && |guarded| < MAX_CODE
      && Compile(p, 0) == Jump(SplitOp(greedy), |guarded| + if star then 5 else 0) + guarded
                          + (if star then Jump(13, -(|guarded| + 10)) else [])
    else if min == 1 && star && !check then
      |code| < MAX_CODE && Compile(p, 0) == code + Jump(SplitOp(!greedy), -(|code| + 5))
    else
      var q := Counted(Empty, min, max, greedy, check && min != max, 0, 0);
      CountedSize(q, |code|) < MAX_CODE && Compile(p, 0) == CountedBytes(q, code, 0, 0)
  }

  lemma LoopCompiled(body: Pattern, min: nat, max: nat, greedy: bool, check: bool)
    requires min <= max <= JS_SHORTINT_MAX && Cleared(body) == body && Encodable(body, 0) && CodeSize(body) < MAX_CODE
    requires CodeSize(Cleared(LoopOf(body, min, max, greedy, check, 0))) < MAX_CODE
    requires Encodable(Cleared(LoopOf(body, min, max, greedy, check, 0)), 0)
    ensures LoopHasCode(Cleared(LoopOf(body, min, max, greedy, check, 0)), Compile(body, 0), min, max, greedy, check)
  {
    hide Jump, CountedBytes, Compile, Encodable, CodeSize, Cleared, LoopOf;
    LoopIs(body, min, max, greedy, check);
    if max == 0 {
      assert Compile(Empty, 0) == [] by { NoCode(); }
    } else if min == 0 && (max == 1 || max == JS_SHORTINT_MAX) {
      SplitCompiled(if check then Guarded(0, body) else body, max == JS_SHORTINT_MAX, greedy);
      if check { GuardCompiled(body); }
    } else if min == 1 && max == JS_SHORTINT_MAX && !check {
      PlusCompiled(body, greedy);
    } else {
      CountedCompiled(body, min, max, greedy, check && min != max);
    }
  }

  lemma NoCode()
    ensures Compile(Empty, 0) == []
  {}

  lemma GuardCompiled(body: Pattern)
    requires Encodable(Guarded(0, body), 0) && CodeSize(Guarded(0, body)) < MAX_CODE
    ensures Encodable(body, 0) && CodeSize(body) < MAX_CODE
    ensures Compile(Guarded(0, body), 0) == [36, 0] + Compile(body, 0) + [37, 0]
  {}

  lemma SplitCompiled(q: Pattern, star: bool, greedy: bool)
    requires var p := if star then Repeat(q, greedy) else Optional(q, greedy); Encodable(p, 0) && CodeSize(p) < MAX_CODE
    ensures var p := if star then Repeat(q, greedy) else Optional(q, greedy);
            && Encodable(q, 0) && CodeSize(q) + 5 < MAX_CODE
            && var code := Compile(q, 0);
               Compile(p, 0) == Jump(SplitOp(greedy), |code| + if star then 5 else 0) + code
                                + (if star then Jump(13, -(|code| + 10)) else [])
  {
    hide Jump, Compile, Encodable, CodeSize;
    if star {
      RepeatCode(q, greedy);
    } else {
      OptionalCode(q, greedy);
      var x := Jump(SplitOp(greedy), CodeSize(q)) + Compile(q, 0);
      assert x + [] == x;
    }
  }

  lemma RepeatCode(q: Pattern, greedy: bool)
    requires Encodable(Repeat(q, greedy), 0) && CodeSize(Repeat(q, greedy)) < MAX_CODE
    ensures Encodable(q, 0) && CodeSize(q) + 10 < MAX_CODE
    ensures Compile(Repeat(q, greedy), 0)
            == Jump(SplitOp(greedy), CodeSize(q) + 5) + Compile(q, 0) + Jump(13, -(CodeSize(q) + 10))
  {
    hide Jump, ClassBytes, CountedBytes;
  }

  lemma OptionalCode(q: Pattern, greedy: bool)
    requires Encodable(Optional(q, greedy), 0) && CodeSize(Optional(q, greedy)) < MAX_CODE
    ensures Encodable(q, 0) && CodeSize(q) + 5 < MAX_CODE
    ensures Compile(Optional(q, greedy), 0) == Jump(SplitOp(greedy), CodeSize(q)) + Compile(q, 0)
  {
    hide Jump, ClassBytes, CountedBytes;
  }

  lemma PlusCompiled(body: Pattern, greedy: bool)
    requires Encodable(body, 0) && CodeSize(Plus(body, greedy)) < MAX_CODE
    ensures Encodable(Plus(body, greedy), 0) && CodeSize(body) + 5 < MAX_CODE
    ensures Compile(Plus(body, greedy), 0) == Compile(body, 0) + Jump(SplitOp(!greedy), -(CodeSize(body) + 5))
  {
    hide Jump, ClassBytes, CountedBytes;
  }

  lemma CountedCompiled(body: Pattern, min: nat, max: nat, greedy: bool, check: bool)
    requires Cleared(body) == body && Encodable(body, 0) && IsLoop(min, max, check)
    requires CodeSize(Counted(body, min, max, greedy, check, 0, 0)) < MAX_CODE
    ensures var p, q := Counted(body, min, max, greedy, check, 0, 0), Counted(Empty, min, max, greedy, check, 0, 0);
            && Encodable(p, 0) && CountedSize(q, CodeSize(body)) < MAX_CODE
            && Compile(p, 0) == CountedBytes(q, Compile(body, 0), 0, 0)
  {
    hide CountedBytes;
    SameLoop(Counted(body, min, max, greedy, check, 0, 0), Counted(Empty, min, max, greedy, check, 0, 0), Compile(body, 0));
  }

  /** The way around a counted loop, if it has one, and the counter. */
  function LoopHead(p: Pattern, body: nat): (r: seq<byte>)
    requires p.Counted? && p.max < WORD && CountedSize(p, body) < MAX_CODE
    ensures |r| == if p.min == 0 then 11 else 6
  {
    (if p.min == 0 then Jump(SplitOp(p.greedy), CountedSize(p, body) - 5) else []) + CounterBytes(0, p.max)
  }

  // ---------- disjunctions ----------

  /** Alternatives joined one by one, as the loop over '|' joins them. */
  function Disjunction(alts: seq<Source>): Source
    requires alts != []
  {
    if |alts| == 1 then alts[0] else Alternative(Disjunction(alts[..|alts| - 1]), alts[|alts| - 1])
  }

  lemma {:induction false} DisjunctionParts(alts: seq<Source>, k: nat, low: nat)
    requires 1 <= k <= |alts| && Valid(Disjunction(alts)) && Roomy(Disjunction(alts), low)
    ensures Valid(Disjunction(alts[..k])) && Roomy(Disjunction(alts[..k]), low)
    ensures Groups(Disjunction(alts[..k])) <= Groups(Disjunction(alts))
    ensures k == 1 ==> Disjunction(alts[..k]) == alts[0]
    ensures k > 1 ==> Disjunction(alts[..k]) == Alternative(Disjunction(alts[..k - 1]), alts[k - 1])
    decreases |alts|
  {
    hide Draft, CodeSize, Encodable;
    if k == |alts| {
      assert alts[..k] == alts;
    } else {
      var less := alts[..|alts| - 1];
      assert less[..k] == alts[..k];
      DisjunctionParts(less, k, low);
    }
    if k > 1 { assert alts[..k][..k - 1] == alts[..k - 1]; }
  }

  // ---------- programs ----------

  /** Capture groups in the whole pattern, the match itself being the first. */
  function Captures(s: Source): nat { 1 + Groups(s) }

  /** The pattern the program is compiled from: the plan of s as group 0. */
  function Whole(s: Source): Pattern { Group(0, Plan(s, 1, Captures(s), 0, 0)) }

  predicate IsSticky(flags: nat) { flags / 32 % 2 == 1 }

  function Prefix(sticky: bool): seq<byte> { if sticky then [] else SearchPrefix() }

  function DraftRest(sticky: bool, s: Source): seq<byte>
    requires Valid(s) && Captures(s) <= 256 && CodeSize(Draft(s, 1)) < MAX_CODE
  {
    Prefix(sticky) + ([19, 0] + DraftCode(s, 1) + [20, 0]) + [16]
  }

  function NumberedRest(sticky: bool, s: Source): seq<byte>
    requires Encodable(Whole(s), Captures(s)) && CodeSize(Whole(s)) < MAX_CODE
  {
    Prefix(sticky) + Compile(Whole(s), Captures(s)) + [16]
  }

  /** Registers suffice, and back references are to captures there are. */
  predicate Affordable(s: Source) { Registers(s) <= REGISTER_COUNT_MAX && RefersBelow(s, Captures(s)) }

  function ProgramCode(flags: nat, s: Source): seq<byte>
    requires flags < 0x1_0000 && Captures(s) <= CAPTURE_COUNT_MAX && Registers(s) <= REGISTER_COUNT_MAX
    requires Encodable(Whole(s), Captures(s)) && CodeSize(Whole(s)) < MAX_CODE
  {
    Layout([flags % 256, flags / 256, Captures(s), Registers(s)], IsSticky(flags), Whole(s).body, Captures(s))
  }

  lemma ProgramIs(flags: nat, s: Source)
    requires flags < 0x1_0000 && Captures(s) <= CAPTURE_COUNT_MAX && Registers(s) <= REGISTER_COUNT_MAX
    requires Encodable(Whole(s), Captures(s)) && CodeSize(Whole(s)) < MAX_CODE
    ensures ProgramCode(flags, s)
            == [flags % 256, flags / 256, Captures(s), Registers(s)] + NumberedRest(IsSticky(flags), s)
  {
    hide Plan, Compile, Encodable, CodeSize, SearchPrefix, IsSticky;
    var header, prefix := [flags % 256, flags / 256, Captures(s), Registers(s)], Prefix(IsSticky(flags));
    var code := Compile(Whole(s), Captures(s));
    assert header + (prefix + code + [16]) == header + prefix + code + [16];
  }

  lemma PrefixNumbers(count: nat, sticky: bool)
    ensures Numbers(count, Prefix(sticky), Prefix(sticky), 0, 0, 0)
  {
    hide Numbers, Jump;
    if sticky {
      NumbersNothing(count, 0);
    } else {
      NumbersJump(count, 14, 6, 0);
      assert [6] + [] == [6];
      NumbersPlain(count, 6, [], 0);
      NumbersJump(count, 13, -11, 0);
      NumbersTwo(count, Jump(14, 6), Jump(14, 6), 0, 0, 0, [6], [6], 0, 0);
      NumbersTwo(count, Jump(14, 6) + [6], Jump(14, 6) + [6], 0, 0, 0, Jump(13, -11), Jump(13, -11), 0, 0);
    }
  }

  lemma WholeDraft(s: Source)
    requires Valid(s) && Captures(s) <= 256 && CodeSize(Group(0, Draft(s, 1))) < MAX_CODE
    ensures Cleared(Whole(s)) == Group(0, Draft(s, 1)) && CodeSize(Whole(s)) < MAX_CODE && Encodable(Cleared(Whole(s)), 0)
    ensures CodeSize(Draft(s, 1)) < MAX_CODE && Compile(Cleared(Whole(s)), 0) == [19, 0] + DraftCode(s, 1) + [20, 0]
    ensures Stacked(Whole(s), Captures(s), 0) && Depth(Whole(s)) == Registers(s)
  {
    hide Plan, Draft;
    ClearedPlan(s, 1, Captures(s), 0);
    assert Cleared(Plan(s, 1, Captures(s), 0, 0)) == Draft(s, 1) by { DraftIs(s); }
    ClearedSame(Whole(s));
    DraftShape(s, 1);
    PlanStacks(s, 1, Captures(s), 0);
  }

  lemma DraftIs(s: Source)
    requires Valid(s)
    ensures Cleared(Plan(s, 1, Captures(s), 0, 0)) == Draft(s, 1)
  {
    ClearedPlan(s, 1, Captures(s), 0);
  }

  lemma WholeRefers(s: Source)
    requires Valid(s)
    ensures Refers(Whole(s), Captures(s)) == RefersBelow(s, Captures(s))
  {
    hide Plan;
    PlanRefers(s, 1, Captures(s), 0, Captures(s));
  }

  /** The pass over registers completes the program, unless they are too many or a back reference is beyond the captures. */
  lemma PassNumbersProgram(s: Source, sticky: bool, header: seq<byte>)
    requires Valid(s) && Captures(s) <= 256 && CodeSize(Group(0, Draft(s, 1))) < MAX_CODE && |header| == HEADER
    ensures CodeSize(Draft(s, 1)) < MAX_CODE && CodeSize(Whole(s)) < MAX_CODE
    ensures Registers(s) <= REGISTER_COUNT_MAX ==> Encodable(Whole(s), Captures(s))
    ensures Renumber(Captures(s), header + DraftRest(sticky, s), HEADER, 0, 0)
            == if !Affordable(s) then None else Some((header + NumberedRest(sticky, s), Registers(s)))
  {
    hide Numbers, Plan, Draft, Compile, Encodable, CodeSize, Cleared, Stacked, Depth, Renumber, DraftCode, Prefix, Whole;
    var p, count := Whole(s), Captures(s);
    WholeDraft(s);
    if Registers(s) <= REGISTER_COUNT_MAX { FitsWhenFew(p, count, 0); }
    PassNumbers(p, count, 0);
    assert Refers(p, count) == RefersBelow(s, count) by { WholeRefers(s); }
    PrefixNumbers(count, sticky);
    var x, y0, y := Prefix(sticky), Compile(Cleared(p), 0), Target(p, count);
    NumbersTwo(count, x, x, 0, 0, 0, y0, y, 0, Need(p, count, 0));
    assert [16] + [] == [16];
    NumbersPlain(count, 16, [], 0);
    NumbersTwo(count, x + y0, x + y, 0, 0, Need(p, count, 0), [16], [16], 0, 0);
    NumbersAtHeader(count, header, x + y0 + [16], x + y + [16], Need(p, count, 0));
  }

  lemma NumbersAtHeader(count: nat, header: seq<byte>, x: seq<byte>, y: seq<byte>, need: nat)
    requires Numbers(count, x, y, 0, 0, need) && |header| == HEADER
    ensures Renumber(count, header + x, HEADER, 0, 0) == if need > REGISTER_COUNT_MAX then None else Some((header + y, need))
  {
    assert NumbersIn(count, header, [], 0, x, y, 0, 0, need);
    assert header + x + [] == header + x && header + y + [] == header + y;
  }
}
