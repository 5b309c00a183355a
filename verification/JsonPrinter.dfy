/** js_json_stringify: the printer's work stack of records, and the text it leaves. */
module JsonPrinter {
  import opened Options
  import opened Json

  /** Object, next index, and for an object the list of its keys once that is needed. */
  datatype Rec = Rec(value: Value, index: nat, keys: seq<JsString>)

  /** Keys in order of creation. */
  function Keys(members: seq<Member>): seq<JsString> {
    if members == [] then [] else [members[0].key] + Keys(members[1..])
  }

  lemma {:induction false} KeysAt(members: seq<Member>, i: nat)
    requires i < |members|
    ensures |Keys(members)| == |members| && Keys(members)[i] == members[i].key
  {
    KeysLength(members);
    if i > 0 { KeysAt(members[1..], i - 1); }
  }

  lemma {:induction false} KeysLength(members: seq<Member>)
    ensures |Keys(members)| == |members|
  {
    if members != [] { KeysLength(members[1..]); }
  }

  /** JS_GetProperty on the object. */
  function Lookup(members: seq<Member>, key: JsString): Value {
    if members == [] then Undefined
    else if members[0].key == key then members[0].value
    else Lookup(members[1..], key)
  }

  predicate Distinct(members: seq<Member>) {
    forall j, k :: 0 <= j < k < |members| ==> members[j].key != members[k].key
  }

  lemma {:induction false} LookupAt(members: seq<Member>, i: nat)
    requires Distinct(members) && i < |members|
    ensures Lookup(members, members[i].key) == members[i].value
  {
    if i > 0 {
      LookupAt(members[1..], i - 1);
    }
  }

  /** Keys are distinct in every object, as property tables keep them. */
  predicate KeyedOnce(v: Value) {
    match v
    case Arr(elems) => forall k :: 0 <= k < |elems| ==> KeyedOnce(elems[k])
    case Obj(members) => Distinct(members) && forall k :: 0 <= k < |members| ==> KeyedOnce(members[k].value)
    case _ => true
  }

  // ---------- what is still to be printed ----------

  function RecText(t: Tokens, r: Rec): string {
    match r.value
    case Arr(elems) =>
      if r.index == 0 then Text(t, r.value)
      else if r.index <= |elems| then ElemsText(t, elems[r.index..], false) + "]" else "]"
    case Obj(members) =>
      if r.index == 0 then Text(t, r.value)
      else if r.index <= |members| then MembersText(t, members[r.index..], false) + "}" else "}"
    case _ => Text(t, r.value)
  }

  /** The innermost record first. */
  function RestText(t: Tokens, stack: seq<Rec>): string {
    if stack == [] then [] else RecText(t, stack[|stack| - 1]) + RestText(t, stack[..|stack| - 1])
  }

  ghost predicate GoodRec(r: Rec) {
    && KeyedOnce(r.value)
    && match r.value
       case Arr(elems) => r.index <= |elems|
       case Obj(members) => r.index <= |members| && (r.index > 0 ==> r.keys == Keys(members))
       case _ => true
  }

  ghost predicate Good(stack: seq<Rec>) { forall k :: 0 <= k < |stack| ==> GoodRec(stack[k]) }

  // ---------- how much work is left ----------

  function Weight(v: Value): nat {
    match v
    case Arr(elems) => 2 + ElemsWeight(elems)
    case Obj(members) => 2 + MembersWeight(members)
    case _ => 1
  }

  function ElemsWeight(elems: seq<Value>): nat {
    if elems == [] then 0 else 1 + Weight(elems[0]) + ElemsWeight(elems[1..])
  }

  function MembersWeight(members: seq<Member>): nat {
    if members == [] then 0 else 1 + Weight(members[0].value) + MembersWeight(members[1..])
  }

  function RecWeight(r: Rec): nat {
    match r.value
    case Arr(elems) => if r.index == 0 then Weight(r.value) else if r.index <= |elems| then 1 + ElemsWeight(elems[r.index..]) else 1
    case Obj(members) =>
      if r.index == 0 then Weight(r.value) else if r.index <= |members| then 1 + MembersWeight(members[r.index..]) else 1
    case _ => 1
  }

  function RestWeight(stack: seq<Rec>): nat {
    if stack == [] then 0 else RecWeight(stack[|stack| - 1]) + RestWeight(stack[..|stack| - 1])
  }

  // ---------- the printer ----------

  class Printer {
    const t: Tokens
    var out: string
    var stack: seq<Rec>

    constructor (t: Tokens)
      ensures this.t == t && out == [] && stack == []
    {
      this.t, out, stack := t, [], [];
    }

    method Pop()
      requires stack != []
      modifies this`stack
      ensures stack == old(stack)[..|old(stack)| - 1]
    {
      stack := stack[..|stack| - 1];
    }

    method Push(v: Value)
      modifies this`stack
      ensures stack == old(stack) + [Rec(v, 0, [])]
    {
      stack := stack + [Rec(v, 0, [])];
    }

    /** One turn for an array on top: its opening bracket, its next element, or its end. */
    method ArrayTurn(elems: seq<Value>)
      requires stack != [] && stack[|stack| - 1].value == Arr(elems) && Good(stack)
      modifies this`out, this`stack
      ensures Turned(t, old(out), old(stack), out, stack)
    {
      hide RecText, RecWeight, KeyedOnce, Text, Weight, Good, GoodRec, RestText, RestWeight;
      var n := |stack| - 1;
      ghost var below, was := stack[..n], out;
      var r := stack[n];
      var idx := r.index;
      TopGood(stack);
      IndexInArray(r, elems);
      if idx == 0 {
        out := out + "[";
      }
      if idx >= |elems| {
        ArrayEnds(t, r, elems);
        out := out + "]";
        Pop();
        Ended(t, was, below, r, if idx == 0 then "[]" else "]", out);
      } else {
        var on := r.(index := idx + 1);
        ArrayGoesOn(t, r, elems, on);
        if idx != 0 {
          out := out + ",";
        }
        stack := stack[n := on];
        Push(elems[idx]);
        WentOn(t, was, below, r, if idx == 0 then "[" else ",", elems[idx], on, out);
        assert stack == below + [on] + [Rec(elems[idx], 0, [])];
      }
      assert below + [r] == old(stack);
    }

    /** One turn for an object on top: its opening brace, the next member that is not undefined, or its end. */
    method ObjectTurn(members: seq<Member>)
      requires stack != [] && stack[|stack| - 1].value == Obj(members) && Good(stack)
      modifies this`out, this`stack
      ensures Turned(t, old(out), old(stack), out, stack)
    {
      hide RecText, RecWeight, KeyedOnce, Text, Weight, Keys, Lookup, MembersText, Good, GoodRec, RestText, RestWeight;
      var n := |stack| - 1;
      ghost var below, was, start := stack[..n], out, stack[n];
      var r := stack[n];
      var idx := r.index;
      TopGood(stack);
      IndexInObject(r, members);
      KeysLength(members);
      if idx == 0 {
        out := out + "{";
        r := r.(keys := Keys(members));
        stack := stack[n := r];
      }
      assert below + [start] == old(stack) && stack == below + [r];
      var savedIdx := idx;
      var val;
      idx, val := NextMember(members, r.keys, idx);
      if idx >= |r.keys| {
        ObjectEnds(t, start, members);
        out := out + "}";
        Pop();
        Ended(t, was, below, start, if savedIdx == 0 then "{}" else "}", out);
        assert stack == below;
        return;
      }
      if savedIdx != 0 {
        out := out + ",";
      }
      var on := r.(index := idx + 1);
      stack := stack[n := on];
      out := out + t.strText(r.keys[idx]);
      out := out + ":";
      Push(val);
      ObjectGoesOn(t, start, members, idx, on);
      WentOn(t, was, below, start, (if savedIdx == 0 then "{" else ",") + t.strText(members[idx].key) + ":", val, on, out);
      assert stack == below + [on] + [Rec(val, 0, [])];
    }

    /** The next member from idx on whose value is not undefined, by its key. */
    method NextMember(members: seq<Member>, keys: seq<JsString>, start: nat) returns (idx: nat, val: Value)
      requires start <= |members| && keys == Keys(members) && Distinct(members)
      ensures start <= idx <= |members| == |keys| && forall k :: start <= k < idx ==> members[k].value == Undefined
      ensures idx < |members| ==> val == members[idx].value != Undefined && keys[idx] == members[idx].key
    {
      hide Keys, Lookup;
      KeysLength(members);
      idx, val := start, Undefined;
      while idx < |keys|
        invariant start <= idx <= |members| && forall k :: start <= k < idx ==> members[k].value == Undefined
      {
        KeysAt(members, idx);
        LookupAt(members, idx);
        var prop := keys[idx];
        val := Lookup(members, prop);
        if val != Undefined { return; }
        idx := idx + 1;
      }
    }

    /** One turn for anything else: its text. */
    method ScalarTurn()
      requires stack != [] && !stack[|stack| - 1].value.Arr? && !stack[|stack| - 1].value.Obj? && Good(stack)
      modifies this`out, this`stack
      ensures Turned(t, old(out), old(stack), out, stack)
    {
      hide Text, Weight, RestText, RestWeight, GoodRec;
      var obj := stack[|stack| - 1].value;
      ghost var was := out;
      Scalar(t, stack);
      out := out + Text(t, obj);
      Pop();
      assert out + RestText(t, stack) == was + (Text(t, obj) + RestText(t, stack));
    }

    /** js_json_stringify: the text of the value, by one record after another. */
    method Stringify(v: Value)
      requires KeyedOnce(v)
      modifies this`out, this`stack
      ensures out == Text(t, v) && stack == []
    {
      hide RecText, RecWeight, KeyedOnce, Text, Weight, RestText, RestWeight, GoodRec, Good;
      out, stack := [], [];
      Push(v);
      FirstRec(t, v);
      while stack != []
        invariant Good(stack) && out + RestText(t, stack) == Text(t, v)
        decreases RestWeight(stack)
      {
        var obj := stack[|stack| - 1].value;
        match obj {
          case Arr(elems) => ArrayTurn(elems);
          case Obj(members) => ObjectTurn(members);
          case Number(_) | Bool(_) | Str(_) | Null | Undefined =>
            ScalarTurn();
        }
      }
      NothingLeft(t);
    }
  }

  lemma IndexInArray(r: Rec, elems: seq<Value>)
    requires GoodRec(r) && r.value == Arr(elems)
    ensures r.index <= |elems| && forall k :: 0 <= k < |elems| ==> KeyedOnce(elems[k])
  {}

  lemma IndexInObject(r: Rec, members: seq<Member>)
    requires GoodRec(r) && r.value == Obj(members)
    ensures r.index <= |members| && Distinct(members) && (r.index > 0 ==> r.keys == Keys(members))
    ensures forall k :: 0 <= k < |members| ==> KeyedOnce(members[k].value)
  {}

  /** The text printed and still to be printed stays the same, and there is less to do. */
  ghost predicate Turned(t: Tokens, out: string, stack: seq<Rec>, out': string, stack': seq<Rec>) {
    && Good(stack') && out' + RestText(t, stack') == out + RestText(t, stack) && RestWeight(stack') < RestWeight(stack)
  }

  lemma TopGood(stack: seq<Rec>)
    requires Good(stack) && stack != []
    ensures GoodRec(stack[|stack| - 1]) && Good(stack[..|stack| - 1])
    ensures stack == stack[..|stack| - 1] + [stack[|stack| - 1]]
  {}

  lemma RestSnoc(t: Tokens, below: seq<Rec>, r: Rec)
    ensures RestText(t, below + [r]) == RecText(t, r) + RestText(t, below)
    ensures RestWeight(below + [r]) == RecWeight(r) + RestWeight(below)
  {
    assert (below + [r])[..|below|] == below;
  }

  lemma Ended(t: Tokens, out: string, below: seq<Rec>, r: Rec, a: string, out': string)
    requires Good(below) && RecText(t, r) == a && RecWeight(r) > 0 && out' == out + a
    ensures Turned(t, out, below + [r], out', below)
  {
    hide RecText, RecWeight, Good, RestText, RestWeight;
    RestSnoc(t, below, r);
    assert out + a + RestText(t, below) == out + (a + RestText(t, below));
  }

  lemma WentOn(t: Tokens, out: string, below: seq<Rec>, r: Rec, a: string, v: Value, on: Rec, out': string)
    requires Good(below) && out' == out + a && RecText(t, r) == a + (Text(t, v) + RecText(t, on))
    requires RecWeight(r) > Weight(v) + RecWeight(on) && GoodRec(on) && KeyedOnce(v)
    ensures Turned(t, out, below + [r], out', below + [on] + [Rec(v, 0, [])])
  {
    hide RecText, RecWeight, GoodRec, RestText, RestWeight, Text, Weight, KeyedOnce;
    RestSnoc(t, below, r);
    RestSnoc(t, below, on);
    RestSnoc(t, below + [on], Rec(v, 0, []));
    FreshRec(t, v);
    var x, y, z := Text(t, v), RecText(t, on), RestText(t, below);
    assert out + a + (x + (y + z)) == out + (a + (x + y) + z);
  }

  lemma FreshRec(t: Tokens, v: Value)
    ensures RecText(t, Rec(v, 0, [])) == Text(t, v) && RecWeight(Rec(v, 0, [])) == Weight(v)
    ensures KeyedOnce(v) ==> GoodRec(Rec(v, 0, []))
  {}

  lemma FirstRec(t: Tokens, v: Value)
    requires KeyedOnce(v)
    ensures var s := [] + [Rec(v, 0, [])]; Good(s) && RestText(t, s) == Text(t, v)
  {
    hide Text, Weight, KeyedOnce, RecText, RecWeight, GoodRec;
    var s := [Rec(v, 0, [])];
    FreshRec(t, v);
    assert s[..0] == [] && [] + s == s;
  }

  lemma NothingLeft(t: Tokens)
    ensures RestText(t, []) == []
  {}

  lemma Scalar(t: Tokens, stack: seq<Rec>)
    requires stack != [] && !stack[|stack| - 1].value.Arr? && !stack[|stack| - 1].value.Obj?
    ensures RestText(t, stack) == Text(t, stack[|stack| - 1].value) + RestText(t, stack[..|stack| - 1])
    ensures RestWeight(stack[..|stack| - 1]) < RestWeight(stack)
  {}

  lemma ArrayEnds(t: Tokens, r: Rec, elems: seq<Value>)
    requires r.value == Arr(elems) && r.index == |elems|
    ensures RecText(t, r) == (if r.index == 0 then "[]" else "]") && RecWeight(r) > 0
  {
    assert elems[|elems|..] == [] && ElemsText(t, [], true) == [] && ElemsText(t, [], false) == [];
    assert "[" + [] + "]" == "[]" && [] + "]" == "]";
  }

  lemma ArrayGoesOn(t: Tokens, r: Rec, elems: seq<Value>, on: Rec)
    requires r.value == on.value == Arr(elems) && r.index < |elems| && on.index == r.index + 1
    requires forall k :: 0 <= k < |elems| ==> KeyedOnce(elems[k])
    ensures RecText(t, r) == (if r.index == 0 then "[" else ",") + (Text(t, elems[r.index]) + RecText(t, on))
    ensures RecWeight(r) > Weight(elems[r.index]) + RecWeight(on) && GoodRec(on)
  {
    hide Text, Weight;
    var rest := elems[r.index..];
    assert elems[0..] == elems && rest[1..] == elems[on.index..];
    var x, tail := Text(t, elems[r.index]), ElemsText(t, rest[1..], false);
    assert ElemsText(t, rest, r.index == 0) == (if r.index == 0 then [] else ",") + x + tail;
    assert RecText(t, on) == tail + "]";
    ArrText(t, elems);
    assert "[" + ([] + x + tail) + "]" == "[" + (x + (tail + "]"));
    assert "," + x + tail + "]" == "," + (x + (tail + "]"));
  }

  lemma ArrText(t: Tokens, elems: seq<Value>)
    ensures Text(t, Arr(elems)) == "[" + ElemsText(t, elems, true) + "]" && Weight(Arr(elems)) == 2 + ElemsWeight(elems)
  {}

  lemma ObjText(t: Tokens, members: seq<Member>)
    ensures Text(t, Obj(members)) == "{" + MembersText(t, members, true) + "}"
    ensures Weight(Obj(members)) == 2 + MembersWeight(members)
  {}

  lemma {:induction false} SkipUndefined(t: Tokens, members: seq<Member>, i: nat, j: nat, first: bool)
    requires i <= j <= |members| && forall k :: i <= k < j ==> members[k].value == Undefined
    ensures MembersText(t, members[i..], first) == MembersText(t, members[j..], first)
    ensures MembersWeight(members[i..]) >= MembersWeight(members[j..])
    decreases j - i
  {
    if i < j {
      assert members[i..][1..] == members[i + 1..];
      SkipUndefined(t, members, i + 1, j, first);
    }
  }

  lemma ObjectEnds(t: Tokens, r: Rec, members: seq<Member>)
    requires r.value == Obj(members) && r.index <= |members|
    requires forall k :: r.index <= k < |members| ==> members[k].value == Undefined
    ensures RecText(t, r) == (if r.index == 0 then "{}" else "}") && RecWeight(r) > 0
  {
    SkipUndefined(t, members, r.index, |members|, r.index == 0);
    assert members[0..] == members && members[|members|..] == [];
    assert MembersText(t, [], true) == [] && MembersText(t, [], false) == [];
    assert "{" + [] + "}" == "{}" && [] + "}" == "}";
  }

  lemma ObjectGoesOn(t: Tokens, r: Rec, members: seq<Member>, i: nat, on: Rec)
    requires r.value == on.value == Obj(members) && r.index <= i < |members| && on.index == i + 1
    requires members[i].value != Undefined && forall k :: r.index <= k < i ==> members[k].value == Undefined
    requires on.keys == Keys(members) && Distinct(members) && forall k :: 0 <= k < |members| ==> KeyedOnce(members[k].value)
    ensures var a := (if r.index == 0 then "{" else ",") + t.strText(members[i].key) + ":";
            RecText(t, r) == a + (Text(t, members[i].value) + RecText(t, on))
    ensures RecWeight(r) > Weight(members[i].value) + RecWeight(on) && GoodRec(on) && KeyedOnce(members[i].value)
  {
    hide Text, Weight, Keys, Distinct, MembersText, MembersWeight, KeyedOnce, RecText, RecWeight, GoodRec;
    ObjKeyed(members);
    GoodOn(on, members);
    SkipUndefined(t, members, r.index, i, r.index == 0);
    MembersStep(t, members[i..], r.index == 0);
    assert members[i..][1..] == members[on.index..];
    ObjRec(t, r, members);
    ObjRec(t, on, members);
    var k, x, tail := t.strText(members[i].key), Text(t, members[i].value), MembersText(t, members[on.index..], false);
    Regroup(k, x, tail);
  }

  lemma Regroup(k: string, x: string, tail: string)
    ensures "{" + ([] + k + ":" + x + tail) + "}" == "{" + k + ":" + (x + (tail + "}"))
    ensures "," + k + ":" + x + tail + "}" == "," + k + ":" + (x + (tail + "}"))
  {
    var a := k + ":";
    assert [] + k + ":" + x + tail == a + (x + tail);
    assert "{" + k + ":" == "{" + a && "," + k + ":" == "," + a;
    assert x + tail + "}" == x + (tail + "}");
  }

  lemma GoodOn(r: Rec, members: seq<Member>)
    requires r.value == Obj(members) && r.index <= |members| && r.keys == Keys(members) && KeyedOnce(Obj(members))
    ensures GoodRec(r)
  {}

  lemma ObjRec(t: Tokens, r: Rec, members: seq<Member>)
    requires r.value == Obj(members) && r.index <= |members|
    ensures RecText(t, r) == (if r.index == 0 then "{" + MembersText(t, members[r.index..], true) + "}"
                              else MembersText(t, members[r.index..], false) + "}")
    ensures RecWeight(r) == (if r.index == 0 then 2 else 1) + MembersWeight(members[r.index..])
  {
    hide MembersText, MembersWeight;
    assert members[0..] == members;
    ObjText(t, members);
  }

  lemma ObjKeyed(members: seq<Member>)
    ensures KeyedOnce(Obj(members)) <==> Distinct(members) && forall k :: 0 <= k < |members| ==> KeyedOnce(members[k].value)
  {}

  lemma MembersStep(t: Tokens, members: seq<Member>, first: bool)
    requires members != [] && members[0].value != Undefined
    ensures MembersText(t, members, first)
            == (if first then [] else ",") + t.strText(members[0].key) + ":" + Text(t, members[0].value)
               + MembersText(t, members[1..], false)
    ensures MembersWeight(members) == 1 + Weight(members[0].value) + MembersWeight(members[1..])
  {
    hide Text, Weight;
  }
}
