/** lre_exec: the regexp machine on one captures array and an undo log, step for step a machine of snapshots. */
module RegexpVM {
  import opened Bytes
  import opened Options
  import opened RegexpCode
  import opened RegexpStack

  /** The most words one instruction pushes: a reset of 256 captures, two pairs each. */
  const ROOM: nat := 1024

  /** What an instruction asks of the main loop. */
  datatype Outcome = Continue | Success | Failure | Exception

  class Machine {
    const code: seq<byte>
    const text: seq<byte>
    const count: nat
    const capture: array<nat>
    const stack: array<int>
    var pc: int
    var cptr: nat
    var sp: int
    var bp: int

    /** The registers and the stack stand for the snapshot. */
    ghost predicate Stands(s: Snapshot)
      reads this, capture, stack
    {
      && pc == s.pc && cptr == s.cptr && capture[..] == s.caps
      && Stacked(stack[..], sp, bp, s.caps, s.frames)
    }

    constructor (code: seq<byte>, text: seq<byte>, count: nat, capture: array<nat>, depth: nat, start: nat, cindex: nat)
      ensures this.code == code && this.text == text && this.count == count && this.capture == capture
      ensures fresh(stack) && sp == depth && Stands(Snapshot(start, cindex, capture[..], []))
    {
      this.code, this.text, this.count, this.capture := code, text, count, capture;
      stack := new int[depth];
      pc, cptr, sp, bp := start, cindex, depth, depth;
    }

    // ---------- the stack ----------

    method PushFrame(alternative: int, kind: nat, ghost s: Snapshot) returns (ok: bool)
      requires Stands(s) && kind < 3
      modifies this`sp, this`bp, stack
      ensures ok <==> old(sp) >= 3
      ensures ok ==> sp == old(sp) - 3 && Stands(Push(s, s.pc, kind, alternative))
    {
      if sp < 3 {
        return false;
      }
      ghost var was := stack[..];
      stack[sp - 3], stack[sp - 2], stack[sp - 1] := FrameWord(alternative, kind), 2 * cptr, 2 * bp;
      StackedPush(was, stack[..], sp, bp, s, alternative, kind);
      sp, bp := sp - 3, sp - 3;
      ok := true;
    }

    method SaveCapture(idx: nat, value: nat, ghost s: Snapshot) returns (ok: bool)
      requires Stands(s) && idx < capture.Length
      modifies this`sp, stack, capture
      ensures ok <==> old(sp) >= 2
      ensures ok ==> sp == old(sp) - 2 && Stands(s.(caps := s.caps[idx := value]))
    {
      hide Stacked;
      if sp < 2 {
        return false;
      }
      StackedSpan(stack[..], sp, bp, s.caps, s.frames);
      ghost var was := stack[..];
      stack[sp - 2], stack[sp - 1] := 2 * idx, 2 * capture[idx];
      StackedSave(was, stack[..], sp, bp, s.caps, s.frames, idx, value);
      sp := sp - 2;
      capture[idx] := value;
      ok := true;
    }

    /** Save only if the pairs above the current frame do not restore idx already. */
    method SaveCaptureCheck(idx: nat, value: nat, ghost s: Snapshot) returns (ok: bool)
      requires Stands(s) && idx < capture.Length
      modifies this`sp, stack, capture
      ensures ok <==> old(sp) >= 2 || Saves(old(stack[sp..bp]), |s.caps|, idx)
      ensures ok ==> old(sp) - 2 <= sp && Stands(s.(caps := s.caps[idx := value]))
    {
      hide Stacked, Pairs, Saves, Undo;
      StackedSpan(stack[..], sp, bp, s.caps, s.frames);
      var sp1, n, done := sp, capture.Length, false;
      ghost var w := stack[sp..bp];
      assert stack[..][sp..bp] == w;
      while sp1 < bp && !done
        invariant Stands(s) && sp <= sp1 <= bp && w == stack[sp..bp] && Pairs(w[sp1 - sp..], n)
        invariant if done then Saves(w, n, idx) else Saves(w[sp1 - sp..], n, idx) <==> Saves(w, n, idx)
        modifies {}
        decreases !done, bp - sp1
      {
        NextPair(w[sp1 - sp..], n, idx);
        assert w[sp1 - sp..][2..] == w[sp1 + 2 - sp..];
        if stack[sp1] / 2 == idx {
          done := true;
        } else {
          sp1 := sp1 + 2;
        }
      }
      if !done {
        NothingSaved(w[sp1 - sp..], n, idx);
        ok := SaveCapture(idx, value, s);
        return;
      }
      StackedSaved(stack[..], sp, bp, s.caps, s.frames, idx, value);
      capture[idx] := value;
      ok := true;
    }

    /** Undo the pairs above the current frame and take the frame off. */
    method PopFrame(ghost s: Snapshot) returns (kind: nat)
      requires Stands(s) && s.frames != []
      modifies this`pc, this`cptr, this`sp, this`bp, capture
      ensures var f := s.frames[0];
              kind == f.kind && old(sp) <= sp && Stands(Snapshot(f.pc, f.cptr, f.caps, s.frames[1..]))
    {
      hide Stacked;
      StackedSpan(stack[..], sp, bp, s.caps, s.frames);
      while sp < bp
        invariant 0 <= old(sp) <= sp <= bp == old(bp) <= stack.Length && Stacked(stack[..], sp, bp, capture[..], s.frames)
        decreases bp - sp
      {
        StackedUndo(stack[..], sp, bp, capture[..], s.frames);
        capture[stack[sp] / 2] := stack[sp + 1] / 2;
        sp := sp + 2;
      }
      StackedPop(stack[..], bp, capture[..], s.frames);
      var v := stack[sp];
      pc, kind, cptr, bp, sp := v / 8, v / 2 % 4, stack[sp + 1] / 2, stack[sp + 2] / 2, sp + 3;
    }

    /** Backtrack: lookahead frames pass the failure on. */
    method NoMatch(ghost s: Snapshot) returns (running: bool)
      requires Stands(s)
      modifies this`pc, this`cptr, this`sp, this`bp, capture
      ensures old(sp) <= sp
      ensures if Backtrack(s.frames).Running? then running && Stands(Backtrack(s.frames).at) else !running
    {
      hide Stacked;
      ghost var t := s;
      while true
        invariant old(sp) <= sp && Stands(t) && Backtrack(t.frames) == Backtrack(s.frames)
        decreases |t.frames|
      {
        StackedBase(stack[..], sp, bp, t.caps, t.frames);
        if bp == stack.Length {
          return false;
        }
        var kind := PopFrame(t);
        t := Snapshot(t.frames[0].pc, t.frames[0].cptr, t.frames[0].caps, t.frames[1..]);
        if kind != LOOKAHEAD {
          return true;
        }
      }
    }

    /** The body of a negative lookahead matched: undo everything it did, and fail. */
    method NegLookaheadMatch(ghost s: Snapshot) returns (ghost t: Snapshot)
      requires Stands(s) && Latest(s.frames, NEGATIVE_LOOKAHEAD) < |s.frames|
      modifies this`pc, this`cptr, this`sp, this`bp, capture
      ensures old(sp) <= sp && Stands(t) && t.frames == s.frames[Latest(s.frames, NEGATIVE_LOOKAHEAD) + 1..]
    {
      hide Stacked;
      t := s;
      ghost var i, k := 0, Latest(s.frames, NEGATIVE_LOOKAHEAD);
      while true
        invariant old(sp) <= sp && Stands(t) && i <= k && t.frames == s.frames[i..] && Latest(t.frames, NEGATIVE_LOOKAHEAD) == k - i
        decreases |t.frames|
      {
        var kind := PopFrame(t);
        t := Snapshot(t.frames[0].pc, t.frames[0].cptr, t.frames[0].caps, t.frames[1..]);
        assert t.frames == s.frames[i + 1..];
        if kind == NEGATIVE_LOOKAHEAD {
          return;
        }
        i := i + 1;
      }
    }

    /** Copy the words next..from, last first, to just below to. */
    method MoveWords(next: int, from: int, to: int, p: int) returns (end: int)
      requires 0 <= next <= from < to <= p <= stack.Length
      modifies stack
      ensures end == to - (from - next) && stack[..next] == old(stack[..next]) && stack[p..] == old(stack[p..])
      ensures stack[end..p] == old(stack[next..from]) + old(stack[to..p])
    {
      ghost var mem := stack[..];
      var sp1 := from;
      end := to;
      while sp1 != next
        invariant next <= sp1 <= from && end == to - (from - sp1)
        invariant forall k :: 0 <= k < sp1 ==> stack[k] == mem[k]
        invariant forall k :: to <= k < stack.Length ==> stack[k] == mem[k]
        invariant forall k :: end <= k < to ==> stack[k] == mem[k - (to - from)]
        decreases sp1
      {
        end, sp1 := end - 1, sp1 - 1;
        stack[end] := stack[sp1];
      }
    }

    /** Move the pairs of the frames walked over, latest first, up against p. */
    method GatherPairs(low: int, p: int, ghost acc: seq<int>) returns (spCopy: int)
      requires 0 <= low <= p <= stack.Length && Linked(stack[..], low, p, acc)
      modifies stack
      ensures low <= spCopy <= p && stack[spCopy..p] == acc && stack[p..] == old(stack[p..])
    {
      hide Linked;
      spCopy := p;
      var sp1 := p;
      ghost var left := acc;
      while sp1 != low
        invariant low <= sp1 <= spCopy <= p && Linked(stack[..], low, sp1, left)
        invariant left + stack[spCopy..p] == acc && stack[p..] == old(stack[p..])
        decreases sp1
      {
        LinkedTop(stack[..], low, sp1, left);
        sp1 := sp1 - 3;
        var next := stack[sp1 + 2] / 2;
        ghost var mem, window, moved := stack[..], stack[next..sp1], stack[spCopy..p];
        spCopy := MoveWords(next, sp1, spCopy, p);
        sp1 := next;
        ghost var n := |left| - |window|;
        assert left == left[..n] + window;
        left := left[..n];
        LinkedFrame(mem, stack[..], low, next, left);
      }
      LinkedBottom(stack[..], low, left);
    }

    /** The body of a lookahead matched: keep its captures, and keep them undoable from the frame below. */
    method LookaheadMatch(ghost s: Snapshot)
      requires Stands(s) && Latest(s.frames, LOOKAHEAD) < |s.frames|
      modifies this`pc, this`cptr, this`sp, this`bp, stack
      ensures old(sp) <= sp
      ensures var k := Latest(s.frames, LOOKAHEAD);
              Stands(Snapshot(s.frames[k].pc, s.frames[k].cptr, s.caps, s.frames[k + 1..]))
    {
      hide Stacked, Linked, Undo, Pairs;
      ghost var was, k, i, acc, at := stack[..], Latest(s.frames, LOOKAHEAD), 0, [], s.caps;
      var low, p, b, done := sp, sp, bp, false;
      StackedSpan(was, p, b, at, s.frames);
      WalkStart(was, low, s.caps);
      while !done
        invariant 0 <= low == sp == old(sp) <= p <= stack.Length && 0 <= i <= |s.frames| && |at| == |s.caps|
        invariant Stacked(was, p, b, at, s.frames[i..]) && stack[p..] == was[p..] && Linked(stack[..], low, p, acc)
        invariant Pairs(acc, |s.caps|) && Undo(acc, s.caps) == at
        invariant !done ==> i <= k && Latest(s.frames[i..], LOOKAHEAD) == k - i
        invariant done ==> i == k + 1 && pc == s.frames[k].pc && cptr == s.frames[k].cptr
        decreases !done, |s.frames| - i
      {
        var sp1 := p;
        p := b;
        WalkFrame(was, stack[..], low, sp1, p, at, s.frames[i..], acc, s.caps);
        var v := stack[p];
        var kind := v / 2 % 4;
        pc, cptr, b := v / 8, stack[p + 1] / 2, stack[p + 2] / 2;
        acc := acc + was[sp1..p];
        at := s.frames[i].caps;
        stack[p + 2] := 2 * sp1;
        p := p + 3;
        assert s.frames[i..][1..] == s.frames[i + 1..];
        i := i + 1;
        done := kind == LOOKAHEAD;
      }
      bp := b;
      StackedSpan(was, p, b, at, s.frames[i..]);
      var spCopy := p;
      if p != stack.Length {
        spCopy := GatherPairs(low, p, acc);
        StackedMerged(was, stack[..], spCopy, p, b, s.caps, at, s.frames[i..], acc);
      } else {
        StackedEnd(was, stack[..], p, b, s.caps, at, s.frames[i..]);
      }
      sp := spCopy;
    }

    // ---------- instructions ----------

    /**
     What an instruction did that found the stack at was: it pushed no more than there is room for, and asked for
     an exception only where room was short; a failing one leaves the stack to NoMatch.
     */
    ghost predicate Did(r: Outcome, status: Status, was: int)
      reads this, capture, stack
    {
      && (r == Exception ==> was < ROOM)
      && (r != Exception ==> was - ROOM <= sp)
      && match r
         case Exception => true
         case Continue => status.Running? && Stands(status.at)
         case Success => status == Matched(capture[..])
         case Failure => exists t: Snapshot :: Stands(t) && status == Backtrack(t.frames)
    }

    method Test(ok: bool, next: int, end: nat, ghost s: Snapshot) returns (r: Outcome)
      requires Stands(s)
      modifies this`pc, this`cptr
      ensures Did(r, MoveOn(s, ok, next, end), sp) && r != Exception
    {
      hide Stacked;
      if !ok {
        return Failure;
      }
      pc, cptr := next, end;
      r := Continue;
    }

    method SaveReset(first: nat, last: nat, ghost s: Snapshot) returns (ok: bool)
      requires Stands(s) && (first <= last ==> 2 * last + 1 < capture.Length)
      modifies this`sp, stack, capture
      ensures ok <==> old(sp) >= 4 * (last + 1 - first)
      ensures ok ==> sp == old(sp) - (if first <= last then 4 * (last + 1 - first) else 0)
                     && Stands(s.(caps := ResetCaptures(s.caps, first, last)))
    {
      hide Stacked;
      StackedSpan(stack[..], sp, bp, s.caps, s.frames);
      if sp < 2 * (last - first + 1) {
        return false;
      }
      var val := first;
      ghost var t := s;
      while val <= last
        invariant Stands(t) && 0 <= sp && first <= val <= (if first <= last then last + 1 else first) && sp == old(sp) - 4 * (val - first) && t == s.(caps := t.caps)
        invariant first <= last ==> 2 * last + 1 < capture.Length
        invariant ResetCaptures(t.caps, val, last) == ResetCaptures(s.caps, first, last)
        decreases last + 1 - val
      {
        ok := SaveCapture(2 * val, 0, t);
        if !ok { return; }
        t := t.(caps := t.caps[2 * val := 0]);
        ok := SaveCapture(2 * val + 1, 0, t);
        if !ok { return; }
        t := t.(caps := t.caps[2 * val + 1 := 0]);
        val := val + 1;
      }
      ok := true;
    }

    method BinarySearch(t: seq<nat>, c: nat) returns (matched: bool)
      ensures matched == RangeMatches(t, c)
    {
      hide Search;
      var n := |t| / 2;
      if n == 0 || c < t[0] || c >= t[2 * n - 1] {
        return false;
      }
      var lo, hi := 0, n - 1;
      matched := false;
      while lo <= hi && !matched
        invariant 0 <= lo && hi < n && (matched ==> Search(t, c, 0, n - 1))
        invariant !matched ==> Search(t, c, lo, hi) == Search(t, c, 0, n - 1)
        decreases !matched, hi - lo + 1
      {
        var mid := (lo + hi) / 2;
        SearchStep(t, c, lo, hi, mid);
        if c < t[2 * mid] {
          hi := mid - 1;
        } else if c >= t[2 * mid + 1] {
          lo := mid + 1;
        } else {
          matched := true;
        }
      }
      if !matched { SearchEmpty(t, c, lo, hi); }
    }

    /** The intervals of an eight-bit range from the first on; the last one is open if it ends at 255. */
    method SmallSearch(t: seq<nat>, c: nat) returns (matched: bool)
      requires |t| % 2 == 0 && t != []
      ensures matched == SmallMatches(t, c)
    {
      var n := |t| / 2;
      matched := false;
      var i := 0;
      while i < n - 1
        invariant 0 <= i <= n - 1 && SmallMatches(t, c) == SmallMatches(t[2 * i..], c)
        decreases n - i
      {
        SmallStep(t, c, i);
        if c >= t[2 * i] && c < t[2 * i + 1] {
          return true;
        }
        i := i + 1;
      }
      SmallStep(t, c, n - 1);
      var lo, hi := t[2 * (n - 1)], t[2 * (n - 1) + 1];
      matched := c >= lo && (c < hi || hi == 0xff);
    }

    /** The character before the current place. */
    method PeekPrev() returns (c: nat)
      requires cptr > 0
      ensures c == CharAt(text, Previous(text, cptr)).0
    {
      hide CharAt;
      var c1: nat := cptr - 1;
      while c1 > 0 && ByteAt(text, c1) / 64 == 2
        invariant c1 < cptr && Previous(text, cptr) == Previous(text, c1 + 1)
      {
        c1 := c1 - 1;
      }
      c := CharAt(text, c1).0;
    }

    /** Where the text captured by a group, found again at the current place, ends. */
    method MatchAgain(group: nat, fold: bool) returns (end: Option<nat>)
      requires 2 * group + 1 < capture.Length
      ensures end == Repeated(text, capture[..], group, cptr, fold)
    {
      hide CharAt;
      var c0, c1 := capture[2 * group], capture[2 * group + 1];
      var cptr1: nat, at: nat := c0, cptr;
      if c0 < UNSET && c1 < UNSET {
        while cptr1 < c1
          invariant SameText(text, c0, c1, cptr, fold) == SameText(text, cptr1, c1, at, fold)
        {
          if at >= |text| {
            return None;
          }
          var a, b := CharAt(text, cptr1), CharAt(text, at);
          cptr1, at := cptr1 + a.1, at + b.1;
          var ca, cb := a.0, b.0;
          if fold {
            ca, cb := Canonical(ca), Canonical(cb);
          }
          if ca != cb {
            return None;
          }
        }
      }
      end := Some(at);
    }

    method DoSplit(nextFirst: bool, next: int, offset: int, ghost s: Snapshot) returns (r: Outcome)
      requires Stands(s)
      modifies this`pc, this`sp, this`bp, stack
      ensures Did(r, Running(if nextFirst then Push(s, next, SPLIT, next + offset)
                                          else Push(s, next + offset, SPLIT, next)), old(sp))
      ensures if r == Exception then old(sp) < 3 else r == Continue && sp == old(sp) - 3
    {
      hide Stacked;
      var ok := PushFrame(if nextFirst then next + offset else next, SPLIT, s);
      if !ok {
        return Exception;
      }
      pc := if nextFirst then next else next + offset;
      r := Continue;
    }

    method DoLoop(r0: nat, next: int, offset: int, ghost s: Snapshot) returns (r: Outcome)
      requires Stands(s) && r0 < capture.Length
      modifies this`pc, this`sp, stack, capture
      ensures var v := Decrement(s.caps[r0]);
              Did(r, Running(s.(pc := if v != 0 then next + offset else next, caps := s.caps[r0 := v])), old(sp))
    {
      hide Stacked;
      var v := Decrement(capture[r0]);
      var ok := SaveCaptureCheck(r0, v, s);
      if !ok {
        return Exception;
      }
      pc := next;
      if v != 0 {
        pc := pc + offset;
      }
      r := Continue;
    }

    method DoLoopSplit(ins: Instr, next: int, ghost s: Snapshot) returns (r: Outcome)
      requires Stands(s) && Fetch(code, s.pc) == (ins, next) && ins.LoopSplit?
      requires Step(code, text, count, s) != Stuck
      modifies this`pc, this`sp, this`bp, stack, capture
      ensures Did(r, Step(code, text, count, s), old(sp))
    {
      hide Stacked, Fetch;
      var r0 := 2 * count + ins.reg;
      var v := Decrement(capture[r0]);
      var ok := SaveCaptureCheck(r0, v, s);
      if !ok {
        return Exception;
      }
      pc := next;
      ghost var t := s.(pc := next, caps := s.caps[r0 := v]);
      if v > ins.limit {
        pc := pc + ins.offset;
      } else if ins.checkAdvance && capture[r0 + 1] == cptr && v != ins.limit {
        return Failure;
      } else if v != 0 {
        r := DoSplit(ins.nextFirst, next, ins.offset, t);
        return;
      }
      r := Continue;
    }

    /** Instructions that only read the subject. */
    method DispatchTest(ins: Instr, next: int, ghost s: Snapshot) returns (r: Outcome)
      requires Stands(s) && Fetch(code, s.pc) == (ins, next)
      requires ins.Literal? || ins.Range? || ins.SmallRange? || ins.BackReference?
      requires Step(code, text, count, s) != Stuck
      modifies this`pc, this`cptr
      ensures Did(r, Step(code, text, count, s), sp) && r != Exception
    {
      hide Stacked, Fetch, RangeMatches, SmallMatches, CharAt, Repeated;
      match ins
      case Literal(bytes) =>
        var end := cptr + |bytes|;
        r := Test(end <= |text| && text[cptr..end] == bytes, next, end, s);
      case BackReference(group, fold) =>
        var end := MatchAgain(group, fold);
        r := Test(end.Some?, next, if end.Some? then end.value else cptr, s);
      case SmallRange(t) =>
        if cptr >= |text| { return Failure; }
        var c := CharAt(text, cptr);
        SmallRangeFetched(code, s.pc, t, next);
        var matched := SmallSearch(t, c.0);
        r := Test(matched, next, cptr + c.1, s);
      case Range(t) =>
        if cptr >= |text| { return Failure; }
        var c := CharAt(text, cptr);
        var matched := BinarySearch(t, c.0);
        r := Test(matched, next, cptr + c.1, s);
    }

    /** Instructions that look for a character of some kind, or for a place. */
    method DispatchSymbol(sym: Sym, next: int, ghost s: Snapshot) returns (r: Outcome)
      requires Stands(s) && Fetch(code, s.pc) == (Symbol(sym), next)
      modifies this`pc, this`cptr
      ensures Did(r, Step(code, text, count, s), sp) && r != Exception
    {
      hide Stacked, Fetch, CharAt, IsSpaceAt, Previous;
      match sym
      case AtStart => r := Test(cptr == 0, next, cptr, s);
      case AtLineStart =>
        var ok := true;
        if cptr != 0 {
          var c := PeekPrev();
          ok := IsLineTerminator(c);
        }
        r := Test(ok, next, cptr, s);
      case AtEnd => r := Test(cptr == |text|, next, cptr, s);
      case AtLineEnd =>
        var ok := true;
        if cptr != |text| {
          ok := IsLineTerminator(CharAt(text, cptr).0);
        }
        r := Test(ok, next, cptr, s);
      case NoLineEnd =>
        if cptr >= |text| { return Failure; }
        var c := CharAt(text, cptr);
        r := Test(!IsLineTerminator(c.0), next, cptr + c.1, s);
      case AnyChar => r := Test(cptr < |text|, next, cptr + CharAt(text, cptr).1, s);
      case Space | NoSpace =>
        if cptr >= |text| { return Failure; }
        r := Test(IsSpaceAt(text, cptr) != sym.NoSpace?, next, cptr + CharAt(text, cptr).1, s);
      case WordEdge | NoWordEdge =>
        var v1, v2 := false, false;
        if cptr != 0 {
          var c := PeekPrev();
          v1 := IsWordChar(c);
        }
        if cptr < |text| {
          v2 := IsWordChar(CharAt(text, cptr).0);
        }
        r := Test((v1 != v2) == sym.WordEdge?, next, cptr, s);
    }

    /** Instructions that write captures or registers. */
    method DispatchSave(ins: Instr, next: int, ghost s: Snapshot) returns (r: Outcome)
      requires Stands(s) && Fetch(code, s.pc) == (ins, next) && Step(code, text, count, s) != Stuck
      requires ins.Save? || ins.SaveReset? || ins.SetRegister? || ins.SetCharPos? || ins.Loop? || ins.LoopSplit?
      modifies this`pc, this`sp, this`bp, stack, capture
      ensures Did(r, Step(code, text, count, s), old(sp))
    {
      hide Stacked, Fetch;
      ResetFetched(code, s.pc);
      var ok := true;
      match ins {
        case Save(index) => ok := SaveCapture(index, cptr, s);
        case SaveReset(first, last) => ok := SaveReset(first, last, s);
        case SetRegister(reg, value) => ok := SaveCaptureCheck(2 * count + reg, value, s);
        case SetCharPos(reg) => ok := SaveCaptureCheck(2 * count + reg, cptr, s);
        case Loop(reg, offset) =>
          r := DoLoop(2 * count + reg, next, offset, s);
          return;
        case LoopSplit(_, _, _, _, _) =>
          r := DoLoopSplit(ins, next, s);
          return;
      }
      if !ok {
        return Exception;
      }
      pc := next;
      r := Continue;
    }

    method Dispatch(ghost s: Snapshot) returns (r: Outcome)
      requires Stands(s) && Step(code, text, count, s) != Stuck
      modifies this`pc, this`cptr, this`sp, this`bp, stack, capture
      ensures Did(r, Step(code, text, count, s), old(sp))
    {
      hide Stacked, Fetch;
      var ins, next := Fetch(code, pc).0, Fetch(code, pc).1;
      match ins {
        case Match => return Success;
        case Goto(offset) =>
          pc := next + offset;
          return Continue;
        case Split(nextFirst, offset) => r := DoSplit(nextFirst, next, offset, s);
        case Lookahead(negative, offset) =>
          var ok := PushFrame(next + offset, if negative then NEGATIVE_LOOKAHEAD else LOOKAHEAD, s);
          pc := next;
          r := if ok then Continue else Exception;
        case LookaheadMatch =>
          LookaheadMatch(s);
          r := Continue;
        case NegativeLookaheadMatch =>
          ghost var t := NegLookaheadMatch(s);
          r := Failure;
        case CheckAdvance(reg) => r := Test(capture[2 * count + reg] != cptr, next, cptr, s);
        case Save(_) | SaveReset(_, _) | SetRegister(_, _) | SetCharPos(_) | Loop(_, _) | LoopSplit(_, _, _, _, _) =>
          r := DispatchSave(ins, next, s);
        case Symbol(sym) => r := DispatchSymbol(sym, next, s);
        case Literal(_) | Range(_) | SmallRange(_) | BackReference(_, _) => r := DispatchTest(ins, next, s);
        case Invalid => assert false;
      }
    }

    /**
     The main loop, for a number of instructions: unless the stack overflows, it is where the machine
     of snapshots is after as many.
     */
    method Exec(steps: nat, ghost s: Snapshot) returns (r: Outcome)
      requires Stands(s) && Run(code, text, count, Running(s), steps) != Stuck
      modifies this`pc, this`cptr, this`sp, this`bp, stack, capture
      ensures r == Exception ==> exists i: nat :: i < steps && Run(code, text, count, Running(s), i).Running? && old(sp) < ROOM * (i + 1)
      ensures match Run(code, text, count, Running(s), steps)
              case Running(t) => r == Exception || (r == Continue && Stands(t))
              case Matched(caps) => r == Exception || (r == Success && capture[..] == caps)
              case NoMatch => r == Exception || r == Failure
    {
      hide Stacked, Step;
      ghost var t := s;
      for i := 0 to steps
        invariant Stands(t) && Run(code, text, count, Running(s), i) == Running(t) && old(sp) - ROOM * i <= sp
      {
        RunStep(code, text, count, Running(s), i);
        if !Run(code, text, count, Running(s), i + 1).Running? {
          RunStays(code, text, count, Running(s), i + 1, steps);
        }
        r := Dispatch(t);
        if r == Exception || r == Success {
          return;
        }
        if r == Failure {
          ghost var u: Snapshot :| Stands(u) && Step(code, text, count, t) == Backtrack(u.frames);
          var running := NoMatch(u);
          if !running {
            return;
          }
        }
        t := Step(code, text, count, t).at;
      }
      r := Continue;
    }
  }

  lemma StackedSpan(mem: seq<int>, sp: int, bp: int, caps: seq<nat>, frames: seq<Frame>)
    requires Stacked(mem, sp, bp, caps, frames)
    ensures 0 <= sp <= bp <= |mem| && Pairs(mem[sp..bp], |caps|)
  {}

  lemma NextPair(w: seq<int>, n: nat, idx: nat)
    requires Pairs(w, n) && w != []
    ensures |w| >= 2 && 0 <= w[0] < 2 * n && w[1] >= 0 && Pairs(w[2..], n)
    ensures Saves(w, n, idx) <==> w[0] / 2 == idx || Saves(w[2..], n, idx)
  {}

  lemma NothingSaved(w: seq<int>, n: nat, idx: nat)
    requires w == []
    ensures Pairs(w, n) && !Saves(w, n, idx)
  {}

  lemma StackedUndo(mem: seq<int>, sp: int, bp: int, caps: seq<nat>, frames: seq<Frame>)
    requires Stacked(mem, sp, bp, caps, frames) && frames != [] && sp < bp
    ensures sp + 2 <= bp && 0 <= mem[sp] < 2 * |caps| && mem[sp + 1] >= 0
    ensures Stacked(mem, sp + 2, bp, caps[mem[sp] / 2 := mem[sp + 1] / 2], frames)
  {
    assert mem[sp..bp][2..] == mem[sp + 2..bp];
  }

  lemma StackedPop(mem: seq<int>, bp: int, caps: seq<nat>, frames: seq<Frame>)
    requires Stacked(mem, bp, bp, caps, frames) && frames != []
    ensures var f := frames[0];
            && bp + 3 <= |mem| && mem[bp] / 8 == f.pc && mem[bp] / 2 % 4 == f.kind && mem[bp + 1] == 2 * f.cptr
            && caps == f.caps && Stacked(mem, bp + 3, mem[bp + 2] / 2, f.caps, frames[1..])
  {
    FrameWordDecodes(frames[0].pc, frames[0].kind);
    assert mem[bp..bp] == [];
  }

  lemma LinkedTop(mem: seq<int>, low: int, sp: int, acc: seq<int>)
    requires Linked(mem, low, sp, acc) && sp != low
    ensures var from := mem[sp - 1] / 2;
            && 0 <= low <= from <= sp - 3 && sp - 3 - from <= |acc|
            && acc == acc[..|acc| - (sp - 3 - from)] + mem[from..sp - 3]
            && Linked(mem, low, from, acc[..|acc| - (sp - 3 - from)])
  {
    var n := |acc| - (sp - 3 - mem[sp - 1] / 2);
    assert acc == acc[..n] + acc[n..];
  }

  lemma LinkedBottom(mem: seq<int>, low: int, acc: seq<int>)
    requires Linked(mem, low, low, acc)
    ensures acc == []
  {}

  lemma WalkStart(mem: seq<int>, low: int, caps: seq<nat>)
    requires 0 <= low <= |mem|
    ensures Linked(mem, low, low, []) && Pairs([], |caps|) && Undo([], caps) == caps
  {}

  /** Walking over a frame: what its words say, and the pairs above it added to those gathered. */
  lemma WalkFrame(was: seq<int>, mem: seq<int>, low: int, sp: int, bp: int, at: seq<nat>, frames: seq<Frame>,
                  acc: seq<int>, caps: seq<nat>)
    requires Stacked(was, sp, bp, at, frames) && frames != [] && 0 <= sp && |mem| == |was| && mem[sp..] == was[sp..]
    requires Linked(mem, low, sp, acc) && Pairs(acc, |caps|) && Undo(acc, caps) == at
    ensures sp <= bp && bp + 3 <= |mem| && mem[bp..] == was[bp..]
    ensures var f, w := frames[0], acc + was[sp..bp];
            && mem[bp] / 8 == f.pc && mem[bp] / 2 % 4 == f.kind && mem[bp + 1] == 2 * f.cptr
            && Stacked(was, bp + 3, mem[bp + 2] / 2, f.caps, frames[1..]) && |f.caps| == |caps|
            && Pairs(w, |caps|) && Undo(w, caps) == f.caps
            && Linked(mem[bp + 2 := 2 * sp], low, bp + 3, w)
            && mem[bp + 2 := 2 * sp][bp + 3..] == was[bp + 3..]
  {
    hide Linked, Undo, Pairs;
    forall k | sp <= k < |mem| ensures mem[k] == was[k] {
      assert mem[k] == mem[sp..][k - sp] && was[k] == was[sp..][k - sp];
    }
    FrameWordDecodes(frames[0].pc, frames[0].kind);
    UndoAppend(acc, was[sp..bp], caps);
    assert mem[sp..bp] == was[sp..bp];
    LinkedStep(mem, mem[bp + 2 := 2 * sp], low, sp, bp, acc);
  }

  /** The gathered pairs join those above the frame below. */
  lemma StackedMerged(was: seq<int>, mem: seq<int>, spCopy: int, p: int, bp: int, caps: seq<nat>, at: seq<nat>,
                      frames: seq<Frame>, acc: seq<int>)
    requires Stacked(was, p, bp, at, frames) && 0 <= spCopy <= p <= |mem| == |was| && mem[p..] == was[p..]
    requires mem[spCopy..p] == acc && Pairs(acc, |caps|) && Undo(acc, caps) == at && |at| == |caps|
    ensures Stacked(mem, spCopy, bp, caps, frames)
  {
    hide Undo, Pairs, Stacked;
    StackedFrame(was, mem, p, bp, at, frames);
    StackedSpan(mem, p, bp, at, frames);
    assert mem[spCopy..bp] == acc + mem[p..bp];
    UndoAppend(acc, mem[p..bp], caps);
    StackedRetop(mem, spCopy, p, bp, caps, at, frames);
  }

  /** Only what the pairs on top undo to matters. */
  lemma StackedRetop(mem: seq<int>, sp': int, sp: int, bp: int, caps: seq<nat>, at: seq<nat>, frames: seq<Frame>)
    requires Stacked(mem, sp, bp, at, frames) && 0 <= sp' <= sp && |at| == |caps| && Pairs(mem[sp'..bp], |caps|)
    requires Undo(mem[sp'..bp], caps) == Undo(mem[sp..bp], at)
    ensures Stacked(mem, sp', bp, caps, frames)
  {
    hide Undo, Pairs;
  }

  lemma StackedEnd(was: seq<int>, mem: seq<int>, p: int, bp: int, caps: seq<nat>, at: seq<nat>, frames: seq<Frame>)
    requires Stacked(was, p, bp, at, frames) && p == |mem| == |was| && |at| == |caps|
    ensures Stacked(mem, p, bp, caps, frames)
  {
    assert mem[p..p] == [];
  }

  lemma SmallStep(t: seq<nat>, c: nat, i: nat)
    requires |t| % 2 == 0 && 2 * i + 1 < |t|
    ensures SmallMatches(t[2 * i..], c)
            <==> (t[2 * i] <= c && (c < t[2 * i + 1] || (|t| == 2 * i + 2 && t[2 * i + 1] == 0xff)))
                 || SmallMatches(t[2 * (i + 1)..], c)
  {
    assert t[2 * i..][2..] == t[2 * (i + 1)..];
  }

  lemma ResetFetched(code: seq<byte>, pc: int)
    ensures var ins := Fetch(code, pc).0; ins.SaveReset? ==> ins.first < 256 && ins.last < 256
  {}

  lemma SmallRangeFetched(code: seq<byte>, pc: int, t: seq<nat>, next: int)
    requires Fetch(code, pc) == (SmallRange(t), next)
    ensures |t| % 2 == 0 && t != []
  {}

  lemma SearchStep(t: seq<nat>, c: nat, lo: nat, hi: int, mid: nat)
    requires lo <= hi < |t| / 2 && mid == (lo + hi) / 2
    ensures lo <= mid <= hi && 2 * mid + 1 < |t|
    ensures Search(t, c, lo, hi) == if c < t[2 * mid] then Search(t, c, lo, mid - 1)
                                    else if c >= t[2 * mid + 1] then Search(t, c, mid + 1, hi)
                                    else true
  {}

  lemma SearchEmpty(t: seq<nat>, c: nat, lo: nat, hi: int)
    requires hi < lo && hi < |t| / 2
    ensures !Search(t, c, lo, hi)
  {}
}
