/** js_parse_call driving js_parse_json_value: recursion made a loop over one stack, and what it computes. */
module JsonParser {
  import opened Options
  import opened Json

  const STATE_INIT: nat := 254
  const STATE_RET: nat := 255
  const FUNC_JSON_VALUE: nat := 9

  /** A word of the value stack: a short integer, or a value, a property name being a string. */
  datatype Slot = IntSlot(i: int) | ValueSlot(v: Value)

  /** A call in progress: the container it is to fill, and for an object the key. */
  datatype Pending = InArray(elems: seq<Value>) | InObject(members: seq<Member>, key: JsString)

  function Enc(curState: nat, fn: nat, param: nat): nat { curState + fn * 256 + param * 65536 }

  /** Storing at the end of an array makes it longer. */
  function SetElement(elems: seq<Value>, idx: nat, v: Value): seq<Value> {
    if idx < |elems| then elems[idx := v] else elems + seq(idx - |elems|, _ => Undefined) + [v]
  }

  /** What a call in progress has on the stack: container, index or key, and where to resume. */
  function SlotsOf(p: Pending): seq<Slot> {
    match p
    case InArray(elems) => [ValueSlot(Arr(elems)), IntSlot(|elems|), IntSlot(Enc(0, FUNC_JSON_VALUE, 0))]
    case InObject(members, key) => [ValueSlot(Obj(members)), ValueSlot(Str(key)), IntSlot(Enc(1, FUNC_JSON_VALUE, 0))]
  }

  function StackOf(entry: seq<Slot>, calls: seq<Pending>): seq<Slot> {
    if calls == [] then entry else StackOf(entry, calls[..|calls| - 1]) + SlotsOf(calls[|calls| - 1])
  }

  /** The rest of the parse once the innermost call has produced v, ending at p. */
  ghost function Continue(t: Tokens, s: string, calls: seq<Pending>, v: Value, p: nat): Option<(Value, nat)>
    requires Advancing(t) && p > 0
  {
    if calls == [] then Some((v, p))
    else
      var outer := calls[..|calls| - 1];
      Resume(t, s, outer, match calls[|calls| - 1]
                          case InArray(elems) => AfterElem(t, s, p, elems + [v])
                          case InObject(members, key) => AfterMember(t, s, p, Define(members, key, v)))
  }

  ghost function Resume(t: Tokens, s: string, calls: seq<Pending>, r: Option<(Value, nat)>): Option<(Value, nat)>
    requires Advancing(t) && (r.Some? ==> r.value.1 > 0)
  {
    if r.None? then None else Continue(t, s, calls, r.value.0, r.value.1)
  }

  class Parser {
    const t: Tokens
    const source: string
    var bufPos: nat
    var tok: Value
    var stack: seq<Slot>

    constructor (t: Tokens, source: string, stack: seq<Slot>)
      ensures this.t == t && this.source == source && this.stack == stack && bufPos == 0
    {
      this.t, this.source, this.stack, bufPos, tok := t, source, stack, 0, Undefined;
    }

    /** Store the value and move on: the call returns. */
    method Finish(p: nat, v: Value) returns (ret: nat)
      modifies this`bufPos, this`tok
      ensures bufPos == p && tok == v && ret == STATE_RET
    {
      bufPos, tok := p, v;
      ret := STATE_RET;
    }

    /** A value expected at the current position; an array or object that is not empty calls for its first part. */
    method Start(ghost entry: seq<Slot>, ghost calls: seq<Pending>) returns (ok: bool, ret: nat, ghost calls': seq<Pending>)
      requires Advancing(t) && stack == StackOf(entry, calls)
      modifies this`bufPos, this`tok, this`stack
      ensures old(bufPos) < |source| || !ok
      ensures ok ==> old(bufPos) < bufPos <= |source| + 5
      ensures !ok ==> ParseValue(t, source, old(bufPos)).None?
      ensures ok && ret == STATE_RET ==>
                stack == old(stack) && ParseValue(t, source, old(bufPos)) == Some((tok, bufPos))
      ensures ok && ret != STATE_RET ==>
                && |calls'| == |calls| + 1 && calls'[..|calls|] == calls
                && stack + [IntSlot(ret % 256 + FUNC_JSON_VALUE * 256)] == StackOf(entry, calls')
                && (ret == Enc(0, FUNC_JSON_VALUE, 0) || ret == Enc(1, FUNC_JSON_VALUE, 0))
                && Resume(t, source, calls, ParseValue(t, source, old(bufPos)))
                   == Resume(t, source, calls', ParseValue(t, source, bufPos))
    {
      hide ParseElems, ParseMembers, Resume, StackOf, Skip, Here;
      calls' := calls;
      var p := Skip(source, bufPos);
      var c := At(source, p);
      ok, ret := true, STATE_RET;
      if IsNumberStart(c) {
        var n := t.readNum(source, p);
        if n.None? { return false, ret, calls; }
        ret := Finish(n.value.1, Number(n.value.0));
      } else if c == 't' {
        ret := Finish(p + 4, Bool(true));
      } else if c == 'f' {
        ret := Finish(p + 5, Bool(false));
      } else if c == 'n' {
        ret := Finish(p + 4, Null);
      } else if c == '"' {
        var w := t.readStr(source, p + 1);
        if w.None? { return false, ret, calls; }
        ret := Finish(w.value.1, Str(w.value.0));
      } else if c == '[' {
        stack := stack + [ValueSlot(Arr([]))];
        ret, calls' := OpenArray(p, entry, calls);
      } else if c == '{' {
        stack := stack + [ValueSlot(Obj([]))];
        ok, ret, calls' := OpenObject(p, entry, calls);
      } else {
        ok := false;
      }
    }

    method OpenArray(p: nat, ghost entry: seq<Slot>, ghost calls: seq<Pending>) returns (ret: nat, ghost calls': seq<Pending>)
      requires Advancing(t) && stack == StackOf(entry, calls) + [ValueSlot(Arr([]))] && At(source, p) == '['
      modifies this`bufPos, this`tok, this`stack
      ensures p < bufPos <= |source| + 5
      ensures var i := Skip(source, p + 1);
              if At(source, i) == ']' then
                ret == STATE_RET && stack == StackOf(entry, calls) && tok == Arr([]) && bufPos == i + 1
              else
                && |calls'| == |calls| + 1 && calls'[..|calls|] == calls && ret == Enc(0, FUNC_JSON_VALUE, 0)
                && stack + [IntSlot(ret % 256 + FUNC_JSON_VALUE * 256)] == StackOf(entry, calls')
                && Resume(t, source, calls, ParseElems(t, source, i, []))
                   == Resume(t, source, calls', ParseValue(t, source, bufPos))
    {
      hide ParseElems, ParseValue, Resume, Skip, StackOf;
      ret, calls' := STATE_RET, calls;
      var q := Skip(source, p + 1);
      if At(source, q) == ']' {
        stack := stack[..|stack| - 1];
        ret := Finish(q + 1, Arr([]));
      } else {
        bufPos := q;
        stack := stack + [IntSlot(0)];
        ret := Enc(0, FUNC_JSON_VALUE, 0);
        calls' := calls + [InArray([])];
        ArrayCalled(old(stack), entry, calls, []);
        EnterArray(t, source, calls, [], q);
      }
    }

    method OpenObject(p: nat, ghost entry: seq<Slot>, ghost calls: seq<Pending>)
      returns (ok: bool, ret: nat, ghost calls': seq<Pending>)
      requires Advancing(t) && stack == StackOf(entry, calls) + [ValueSlot(Obj([]))] && At(source, p) == '{'
      modifies this`bufPos, this`tok, this`stack
      ensures ok ==> p < bufPos <= |source| + 5
      ensures var i := Skip(source, p + 1);
              if At(source, i) == '}' then
                ok && ret == STATE_RET && stack == StackOf(entry, calls) && tok == Obj([]) && bufPos == i + 1
              else if !ok then ParseMembers(t, source, i, []).None?
              else
                && |calls'| == |calls| + 1 && calls'[..|calls|] == calls && ret == Enc(1, FUNC_JSON_VALUE, 0)
                && stack + [IntSlot(ret % 256 + FUNC_JSON_VALUE * 256)] == StackOf(entry, calls')
                && Resume(t, source, calls, ParseMembers(t, source, i, []))
                   == Resume(t, source, calls', ParseValue(t, source, bufPos))
    {
      hide ParseMembers, ParseValue, Resume, Skip, StackOf;
      ok, ret, calls' := true, STATE_RET, calls;
      var q := Skip(source, p + 1);
      if At(source, q) == '}' {
        stack := stack[..|stack| - 1];
        ret := Finish(q + 1, Obj([]));
      } else {
        bufPos := q;
        ok, ret, calls' := ObjectLoop(entry, calls, []);
      }
    }

    /** The next key of the object on top of the stack, and a call for its value. */
    method ObjectLoop(ghost entry: seq<Slot>, ghost calls: seq<Pending>, ghost members: seq<Member>)
      returns (ok: bool, ret: nat, ghost calls': seq<Pending>)
      requires Advancing(t) && stack == StackOf(entry, calls) + [ValueSlot(Obj(members))]
      modifies this`bufPos, this`stack
      ensures ok ==> old(bufPos) < |source| && old(bufPos) < bufPos <= |source| && ret == Enc(1, FUNC_JSON_VALUE, 0)
                     && |calls'| == |calls| + 1 && calls'[..|calls|] == calls
                     && stack + [IntSlot(ret % 256 + FUNC_JSON_VALUE * 256)] == StackOf(entry, calls')
      ensures ok ==> Resume(t, source, calls, ParseMembers(t, source, old(bufPos), members))
                     == Resume(t, source, calls', ParseValue(t, source, bufPos))
      ensures !ok ==> ParseMembers(t, source, old(bufPos), members).None?
    {
      hide Continue, ParseValue, AfterMember, StackOf;
      calls', ret, ok := calls, STATE_RET, false;
      ghost var start := bufPos;
      var p := Skip(source, bufPos);
      bufPos := p;
      if At(source, p) != '"' { return; }
      var w := t.readStr(source, p + 1);
      if w.None? { return; }
      p := Skip(source, w.value.1);
      if At(source, p) != ':' { return; }
      p := p + 1;
      bufPos := p;
      stack := stack + [ValueSlot(Str(w.value.0))];
      ret, ok := Enc(1, FUNC_JSON_VALUE, 0), true;
      calls' := calls + [InObject(members, w.value.0)];
      ObjectCalled(old(stack), entry, calls, members, w.value.0);
      EnterObject(t, source, calls, members, w.value.0, start, p);
    }

    /** After an element: a comma and a call for the next, or the end of the array on top of the stack. */
    method ArrayAfterElem(idx: nat, ghost entry: seq<Slot>, ghost calls: seq<Pending>, ghost elems: seq<Value>)
      returns (ok: bool, ret: nat, ghost calls': seq<Pending>)
      requires Advancing(t) && stack == StackOf(entry, calls) + [ValueSlot(Arr(elems))] && idx == |elems| && bufPos > 0
      modifies this`bufPos, this`tok, this`stack
      ensures Stepped(ok, ret, old(bufPos), entry, calls, calls', AfterElem(t, source, old(bufPos), elems))
    {
      hide Continue, ParseValue, ParseElems, StackOf;
      calls', ok, ret := calls, true, STATE_RET;
      var p := Skip(source, bufPos);
      if At(source, p) == ',' {
        bufPos := p + 1;
        stack := stack + [IntSlot(idx)];
        ret := Enc(0, FUNC_JSON_VALUE, 0);
        calls' := calls + [InArray(elems)];
        ArrayCalled(old(stack), entry, calls, elems);
        EnterArray(t, source, calls, elems, p + 1);
      } else if At(source, p) == ']' {
        var top := stack[|stack| - 1];
        stack := stack[..|stack| - 1];
        ret := Finish(p + 1, top.v);
      } else {
        ok := false;
      }
    }

    method ObjectAfterProp(ghost entry: seq<Slot>, ghost calls: seq<Pending>, ghost members: seq<Member>)
      returns (ok: bool, ret: nat, ghost calls': seq<Pending>)
      requires Advancing(t) && stack == StackOf(entry, calls) + [ValueSlot(Obj(members))] && bufPos > 0
      modifies this`bufPos, this`tok, this`stack
      ensures Stepped(ok, ret, old(bufPos), entry, calls, calls', AfterMember(t, source, old(bufPos), members))
    {
      hide Continue, ParseValue, ParseMembers;
      calls', ok, ret := calls, true, STATE_RET;
      var p := Skip(source, bufPos);
      if At(source, p) == ',' {
        bufPos := p + 1;
        ok, ret, calls' := ObjectLoop(entry, calls, members);
      } else if At(source, p) == '}' {
        var top := stack[|stack| - 1];
        stack := stack[..|stack| - 1];
        ret := Finish(p + 1, top.v);
      } else {
        ok := false;
      }
    }

    /**
     One turn of the machine: it went past from, and either returned what the grammar gives there, with
     the stack as the calls need it, or made a further call and the rest of the parse is the same.
     */
    ghost predicate Stepped(ok: bool, ret: nat, from: nat, entry: seq<Slot>, calls: seq<Pending>, calls': seq<Pending>,
                            r: Option<(Value, nat)>)
      requires Advancing(t) && (r.Some? ==> r.value.1 > 0)
      reads this
    {
      && (ok ==> from < |source| && from < bufPos <= |source| + 5)
      && (!ok ==> r.None?)
      && (ok && ret == STATE_RET ==> stack == StackOf(entry, calls) && r == Some((tok, bufPos)))
      && (ok && ret != STATE_RET ==>
            && stack + [IntSlot(ret % 256 + FUNC_JSON_VALUE * 256)] == StackOf(entry, calls')
            && (ret == Enc(0, FUNC_JSON_VALUE, 0) || ret == Enc(1, FUNC_JSON_VALUE, 0))
            && Resume(t, source, calls, r) == Resume(t, source, calls', ParseValue(t, source, bufPos)))
    }

    /** js_parse_json_value, at its start or resumed in one of its two states. */
    method JsonValue(st: nat, ghost entry: seq<Slot>, ghost calls: seq<Pending>)
      returns (ok: bool, ret: nat, ghost outer: seq<Pending>, ghost calls': seq<Pending>)
      requires Advancing(t)
      requires st == STATE_INIT ==> stack == StackOf(entry, calls)
      requires st != STATE_INIT ==> calls != [] && bufPos > 0 && Resumable(stack, entry, calls, st)
      modifies this`bufPos, this`tok, this`stack
      ensures st == STATE_INIT ==>
                outer == calls && Stepped(ok, ret, old(bufPos), entry, calls, calls', ParseValue(t, source, old(bufPos)))
      ensures st != STATE_INIT ==>
                && outer == calls[..|calls| - 1]
                && exists r: Option<(Value, nat)> :: && (r.Some? ==> r.value.1 > 0) && Stepped(ok, ret, old(bufPos), entry, outer, calls', r)
                               && Continue(t, source, calls, old(tok), old(bufPos)) == Resume(t, source, outer, r)
    {
      hide Stepped, ParseValue, AfterElem, AfterMember;
      if st == STATE_INIT {
        outer := calls;
        ghost var from := bufPos;
        ok, ret, calls' := Start(entry, calls);
        StartStepped(ok, ret, from, entry, calls, calls');
        return;
      }
      var call := calls[|calls| - 1];
      outer := calls[..|calls| - 1];
      ghost var from := bufPos;
      if st == 0 {
        var idx := stack[|stack| - 1].i;
        stack := stack[..|stack| - 1];
        var elems := stack[|stack| - 1].v.elems;
        assert SetElement(elems, idx, tok) == elems + [tok];
        stack := stack[..|stack| - 1] + [ValueSlot(Arr(SetElement(elems, idx, tok)))];
        ok, ret, calls' := ArrayAfterElem(idx + 1, entry, outer, elems + [tok]);
      } else {
        var prop := stack[|stack| - 1].v.s;
        stack := stack[..|stack| - 1];
        var members := stack[|stack| - 1].v.members;
        stack := stack[..|stack| - 1] + [ValueSlot(Obj(Define(members, prop, tok)))];
        ok, ret, calls' := ObjectAfterProp(entry, outer, Define(members, prop, tok));
      }
    }

    lemma StartStepped(ok: bool, ret: nat, from: nat, entry: seq<Slot>, calls: seq<Pending>, calls': seq<Pending>)
      requires Advancing(t) && (ok ==> from < |source| && from < bufPos <= |source| + 5)
      requires !ok ==> ParseValue(t, source, from).None?
      requires ok && ret == STATE_RET ==>
                 stack == StackOf(entry, calls) && ParseValue(t, source, from) == Some((tok, bufPos))
      requires ok && ret != STATE_RET ==>
                 && stack + [IntSlot(ret % 256 + FUNC_JSON_VALUE * 256)] == StackOf(entry, calls')
                 && (ret == Enc(0, FUNC_JSON_VALUE, 0) || ret == Enc(1, FUNC_JSON_VALUE, 0))
                 && Resume(t, source, calls, ParseValue(t, source, from))
                    == Resume(t, source, calls', ParseValue(t, source, bufPos))
      ensures Stepped(ok, ret, from, entry, calls, calls', ParseValue(t, source, from))
    {
      hide ParseValue;
    }

    /** js_parse_call: what the recursive grammar gives from here, the stack as high as it was. */
    method ParseCall() returns (ok: bool)
      requires Advancing(t) && bufPos <= |source|
      modifies this`bufPos, this`tok, this`stack
      ensures ok ==> stack == old(stack) && ParseValue(t, source, old(bufPos)) == Some((tok, bufPos))
      ensures !ok ==> ParseValue(t, source, old(bufPos)).None?
    {
      hide ParseValue, Continue, Resumable, AfterElem, AfterMember;
      ghost var entry, calls: seq<Pending>, goal := stack, [], ParseValue(t, source, bufPos);
      var height: nat, st: nat := |stack|, STATE_INIT;
      GoalAtStart(t, source, goal);
      while true
        invariant bufPos <= |source| + 5
        invariant st == STATE_INIT ==> stack == StackOf(entry, calls) && goal == Resume(t, source, calls, ParseValue(t, source, bufPos))
        invariant st != STATE_INIT ==> calls != [] && bufPos > 0 && Resumable(stack, entry, calls, st)
                                       && goal == Continue(t, source, calls, tok, bufPos)
        decreases |source| + 5 - bufPos
      {
        ghost var outer, calls';
        var ret;
        ok, ret, outer, calls' := JsonValue(st, entry, calls);
        if !ok { return; }
        st := ret % 256;
        if ret == STATE_RET {
          TopOfStack(entry, outer);
          GoalAtStart(t, source, Some((tok, bufPos)));
          if |stack| == height {
            return;
          }
          var word := stack[|stack| - 1].i;
          stack := stack[..|stack| - 1];
          st := word % 256;
          calls := outer;
        } else {
          stack := stack + [IntSlot(ret % 256 + FUNC_JSON_VALUE * 256)];
          st := STATE_INIT;
          calls := calls';
        }
      }
    }

    /** js_parse_json: one value from the start, and nothing but spaces after it. */
    method ParseJson() returns (ok: bool)
      requires Advancing(t)
      modifies this`bufPos, this`tok, this`stack
      ensures ok == ParseText(t, source).Some?
      ensures ok ==> ParseText(t, source) == Some(tok) && stack == old(stack)
    {
      hide ParseValue;
      bufPos := 0;
      ok := ParseCall();
      if ok {
        bufPos := Skip(source, bufPos);
        ok := bufPos == |source|;
      }
    }
  }

  /** What a call for an element leaves on the stack. */
  lemma ArrayCalled(stack: seq<Slot>, entry: seq<Slot>, calls: seq<Pending>, elems: seq<Value>)
    requires stack == StackOf(entry, calls) + [ValueSlot(Arr(elems))]
    ensures var calls' := calls + [InArray(elems)];
            && calls'[..|calls|] == calls
            && stack + [IntSlot(|elems|)] + [IntSlot(Enc(0, FUNC_JSON_VALUE, 0) % 256 + FUNC_JSON_VALUE * 256)]
               == StackOf(entry, calls')
  {
    var calls' := calls + [InArray(elems)];
    assert calls'[..|calls'| - 1] == calls;
  }

  lemma ObjectCalled(stack: seq<Slot>, entry: seq<Slot>, calls: seq<Pending>, members: seq<Member>, key: JsString)
    requires stack == StackOf(entry, calls) + [ValueSlot(Obj(members))]
    ensures var calls' := calls + [InObject(members, key)];
            && calls'[..|calls|] == calls
            && stack + [ValueSlot(Str(key))] + [IntSlot(Enc(1, FUNC_JSON_VALUE, 0) % 256 + FUNC_JSON_VALUE * 256)]
               == StackOf(entry, calls')
  {
    var calls' := calls + [InObject(members, key)];
    assert calls'[..|calls'| - 1] == calls;
  }

  lemma EnterArray(t: Tokens, s: string, calls: seq<Pending>, elems: seq<Value>, p: nat)
    requires Advancing(t)
    ensures Resume(t, s, calls, ParseElems(t, s, p, elems))
            == Resume(t, s, calls + [InArray(elems)], ParseValue(t, s, p))
  {
    hide ParseValue, AfterElem;
    var all := calls + [InArray(elems)];
    assert all[..|all| - 1] == calls;
  }

  lemma EnterObject(t: Tokens, s: string, calls: seq<Pending>, members: seq<Member>, key: JsString, start: nat, p: nat)
    requires Advancing(t) && ParseKey(t, s, start) == Some((key, p))
    ensures Resume(t, s, calls, ParseMembers(t, s, start, members))
            == Resume(t, s, calls + [InObject(members, key)], ParseValue(t, s, p))
  {
    hide ParseValue, AfterMember;
    var all := calls + [InObject(members, key)];
    assert all[..|all| - 1] == calls;
  }

  /** The stack of a call to be resumed in state st, its return word taken off. */
  ghost predicate Resumable(stack: seq<Slot>, entry: seq<Slot>, calls: seq<Pending>, st: nat)
    requires calls != []
  {
    var below := StackOf(entry, calls[..|calls| - 1]);
    match calls[|calls| - 1]
    case InArray(elems) => st == 0 && stack == below + [ValueSlot(Arr(elems)), IntSlot(|elems|)]
    case InObject(members, key) => st == 1 && stack == below + [ValueSlot(Obj(members)), ValueSlot(Str(key))]
  }

  lemma GoalAtStart(t: Tokens, s: string, r: Option<(Value, nat)>)
    requires Advancing(t) && (r.Some? ==> r.value.1 > 0)
    ensures Resume(t, s, [], r) == r
  {}

  /** With calls in progress the stack is higher than at entry, and its top word says where to resume. */
  lemma TopOfStack(entry: seq<Slot>, calls: seq<Pending>)
    ensures calls == [] ==> StackOf(entry, calls) == entry
    ensures calls != [] ==>
              var stack := StackOf(entry, calls);
              && |stack| > |entry| && stack[|stack| - 1].IntSlot?
              && Resumable(stack[..|stack| - 1], entry, calls, stack[|stack| - 1].i % 256)
  {
    if calls != [] {
      TopOfStack(entry, calls[..|calls| - 1]);
      var stack := StackOf(entry, calls);
      var below := StackOf(entry, calls[..|calls| - 1]);
      assert stack[..|stack| - 1] == below + SlotsOf(calls[|calls| - 1])[..2];
    }
  }
}
