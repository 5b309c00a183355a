/** Members with equal keys: the first one's place, and the last one's value. */
module JsonMerge {
  import opened Options
  import opened Json
  import opened JsonGrammar

  /** The value of the last member with the key. */
  function LastOf(members: seq<Member>, key: JsString): Option<Value> {
    if members == [] then None
    else
      var n := |members| - 1;
      if members[n].key == key then Some(members[n].value) else LastOf(members[..n], key)
  }

  /** The keys in the order in which each comes first. */
  function FirstKeys(members: seq<Member>): seq<JsString> {
    if members == [] then []
    else
      var n := |members| - 1;
      var keys := FirstKeys(members[..n]);
      if members[n].key in keys then keys else keys + [members[n].key]
  }

  function KeysOf(members: seq<Member>): seq<JsString> { seq(|members|, k requires 0 <= k < |members| => members[k].key) }

  predicate Once(keys: seq<JsString>) { forall j, k :: 0 <= j < k < |keys| ==> keys[j] != keys[k] }

  lemma KeyAt(members: seq<Member>, k: nat)
    requires k < |members|
    ensures KeysOf(members)[k] == members[k].key
  {}

  lemma OnceRest(acc: seq<Member>)
    requires acc != [] && Once(KeysOf(acc))
    ensures Once(KeysOf(acc[1..])) && KeysOf(acc) == [acc[0].key] + KeysOf(acc[1..]) && acc[0].key !in KeysOf(acc[1..])
  {
    var keys := KeysOf(acc);
    assert KeysOf(acc[1..]) == keys[1..];
    forall k | 0 <= k < |keys| - 1 ensures keys[1..][k] != acc[0].key { assert keys[0] != keys[k + 1]; }
  }

  /** Defining a key that is there replaces its value, one that is not appends it. */
  lemma {:induction false} DefineOnce(acc: seq<Member>, key: JsString, v: Value)
    requires Once(KeysOf(acc))
    ensures var d := Define(acc, key, v);
            && KeysOf(d) == KeysOf(acc) + (if key in KeysOf(acc) then [] else [key])
            && forall k: nat :: k < |d| ==> d[k].value == if d[k].key == key then v else if k < |acc| then acc[k].value else v
    decreases acc
  {
    var d := Define(acc, key, v);
    if acc == [] {
      assert KeysOf(d) == [key];
    } else {
      OnceRest(acc);
      var rest := acc[1..];
      if acc[0].key != key {
        DefineOnce(rest, key, v);
        var e := Define(rest, key, v);
        assert d == [acc[0]] + e;
        assert KeysOf(d) == [acc[0].key] + KeysOf(e);
        forall k: nat | k < |d| ensures d[k].value == if d[k].key == key then v else if k < |acc| then acc[k].value else v {
          if k > 0 { assert d[k] == e[k - 1]; }
        }
      } else {
        assert KeysOf(d) == KeysOf(acc) by { assert d[1..] == rest; }
        assert KeysOf(acc)[0] == key;
        forall k: nat | k < |d| ensures d[k].value == if d[k].key == key then v else if k < |acc| then acc[k].value else v {
          if k > 0 { KeyAt(rest, k - 1); assert d[k] == rest[k - 1] && KeysOf(rest)[k - 1] in KeysOf(rest); }
        }
      }
    }
  }

  lemma {:induction false} FirstOnce(members: seq<Member>)
    ensures Once(FirstKeys(members))
    ensures forall key :: key in FirstKeys(members) <==> LastOf(members, key).Some?
  {
    if members != [] { FirstOnce(members[..|members| - 1]); }
  }

  /** acc is what the members done so far make. */
  ghost predicate Makes(done: seq<Member>, acc: seq<Member>) {
    && KeysOf(acc) == FirstKeys(done)
    && forall k: nat :: k < |acc| ==> LastOf(done, acc[k].key).Some? && acc[k].value == Merged(LastOf(done, acc[k].key).value)
  }

  lemma OneMore(done: seq<Member>, acc: seq<Member>, m: Member)
    requires Makes(done, acc)
    ensures Makes(done + [m], Define(acc, m.key, Merged(m.value)))
  {
    hide Merged, Define;
    var d, now := Define(acc, m.key, Merged(m.value)), done + [m];
    assert now[..|now| - 1] == done;
    FirstOnce(done);
    DefineOnce(acc, m.key, Merged(m.value));
    forall k: nat | k < |d| ensures LastOf(now, d[k].key).Some? && d[k].value == Merged(LastOf(now, d[k].key).value) {
      KeyAt(d, k);
      if k < |acc| {
        KeyAt(acc, k);
        assert KeysOf(d)[k] == KeysOf(acc)[k];
      }
    }
  }

  lemma {:induction false} MergedMakes(done: seq<Member>, members: seq<Member>, acc: seq<Member>)
    requires Makes(done, acc)
    ensures Makes(done + members, MergedMembers(members, acc))
    decreases members
  {
    hide Makes, Merged, Define;
    if members == [] {
      assert done + members == done;
    } else {
      OneMore(done, acc, members[0]);
      MergedMakes(done + [members[0]], members[1..], Define(acc, members[0].key, Merged(members[0].value)));
      assert done + [members[0]] + members[1..] == done + members;
    }
  }

  /** Parsing an object: its keys in the order in which they come first, each with the value that came last. */
  lemma LastValueWins(members: seq<Member>)
    ensures var r := MergedMembers(members, []);
            && KeysOf(r) == FirstKeys(members) && Once(KeysOf(r))
            && forall k: nat :: k < |r| ==> LastOf(members, r[k].key).Some? && r[k].value == Merged(LastOf(members, r[k].key).value)
  {
    hide MergedMembers, Merged;
    assert KeysOf([]) == [];
    MergedMakes([], members, []);
    assert [] + members == members;
    FirstOnce(members);
  }
}
