/** JSON values, the grammar the parser follows, and the text the printer makes. */
module Json {
  import opened Options
  import Binary64

  /** A number: the 64 bits of a double. */
  type Bits64 = n: nat | n < 0x1_0000_0000_0000_0000

  predicate IsFinite(n: Bits64) { n % Binary64.TWO63 < Binary64.INF }

  /** Minus zero is printed without its sign. */
  predicate IsMinusZero(n: Bits64) { n == Binary64.TWO63 }

  /** The characters of a string: code points, surrogates only where they stand alone. */
  type Point = c: nat | c < 0x110000

  type JsString = w: seq<Point> | Formed(w) witness []

  predicate IsHigh(c: nat) { 0xD800 <= c < 0xDC00 }

  predicate IsLow(c: nat) { 0xDC00 <= c < 0xE000 }

  predicate Formed(w: seq<Point>) { forall i :: 0 <= i < |w| - 1 && IsHigh(w[i]) ==> !IsLow(w[i + 1]) }

  datatype Value =
    | Undefined
    | Null
    | Bool(b: bool)
    | Number(n: Bits64)
    | Str(s: JsString)
    | Arr(elems: seq<Value>)
    | Obj(members: seq<Member>)

  datatype Member = Member(key: JsString, value: Value)

  /** How numbers and strings are written, and read back from a place in a text. */
  datatype Tokens = Tokens(numText: Bits64 -> string, readNum: (string, nat) -> Option<(Bits64, nat)>,
                           strText: JsString -> string, readStr: (string, nat) -> Option<(JsString, nat)>)

  /** Reading a token moves on, within the text. */
  ghost predicate Advancing(t: Tokens) {
    && (forall s, p: nat :: t.readNum(s, p).Some? ==> p < t.readNum(s, p).value.1 <= |s|)
    && (forall s, p: nat :: t.readStr(s, p).Some? ==> p < t.readStr(s, p).value.1 <= |s|)
  }

  // ---------- the grammar ----------

  /** The terminating zero, and what a truncated literal is taken to run into. */
  function At(s: string, i: nat): char { if i < |s| then s[i] else 0 as char }

  predicate IsSpace(c: char) { 9 as char <= c <= 13 as char || c == ' ' }

  function Skip(s: string, p: nat): (q: nat)
    ensures p <= q && (p <= |s| ==> q <= |s|) && !IsSpace(At(s, q))
    ensures forall k :: p <= k < q ==> IsSpace(At(s, k))
    decreases if p <= |s| then |s| - p else 0
  {
    if IsSpace(At(s, p)) then Skip(s, p + 1) else p
  }

  predicate IsNumberStart(c: char) { '0' <= c <= '9' || c == '-' }

  /** Defining a property again keeps its place. */
  function Define(members: seq<Member>, key: JsString, v: Value): seq<Member> {
    if members == [] then [Member(key, v)]
    else if members[0].key == key then [Member(key, v)] + members[1..]
    else [members[0]] + Define(members[1..], key, v)
  }

  function Left(s: string, p: nat): nat { if p <= |s| then |s| - p else 0 }

  /** A value at p, and where it ends.  Of true, false and null only the first letter is looked at. */
  ghost function ParseValue(t: Tokens, s: string, p: nat): (r: Option<(Value, nat)>)
    requires Advancing(t)
    ensures r.Some? ==> p < |s| && p < r.value.1 <= |s| + 4
    decreases Left(s, p), 0
  {
    var q := Skip(s, p);
    var c := At(s, q);
    if IsNumberStart(c) then
      var n := t.readNum(s, q);
      if n.None? then None else Some((Number(n.value.0), n.value.1))
    else if c == 't' then Some((Bool(true), q + 4))
    else if c == 'f' then Some((Bool(false), q + 5))
    else if c == 'n' then Some((Null, q + 4))
    else if c == '"' then
      var w := t.readStr(s, q + 1);
      if w.None? then None else Some((Str(w.value.0), w.value.1))
    else if c == '[' then
      var i := Skip(s, q + 1);
      if At(s, i) == ']' then Some((Arr([]), i + 1)) else ParseElems(t, s, i, [])
    else if c == '{' then
      var i := Skip(s, q + 1);
      if At(s, i) == '}' then Some((Obj([]), i + 1)) else ParseMembers(t, s, i, [])
    else None
  }

  /** One more element, then a comma and further ones, or the end. */
  ghost function ParseElems(t: Tokens, s: string, p: nat, elems: seq<Value>): (r: Option<(Value, nat)>)
    requires Advancing(t)
    ensures r.Some? ==> p < |s| && p < r.value.1 <= |s| + 4
    decreases Left(s, p), 1
  {
    var v := ParseValue(t, s, p);
    if v.None? then None else AfterElem(t, s, v.value.1, elems + [v.value.0])
  }

  ghost function AfterElem(t: Tokens, s: string, p: nat, elems: seq<Value>): (r: Option<(Value, nat)>)
    requires Advancing(t) && p > 0
    ensures r.Some? ==> p < |s| && p < r.value.1 <= |s| + 4
    decreases Left(s, p), 2
  {
    var q := Skip(s, p);
    if At(s, q) == ',' then ParseElems(t, s, q + 1, elems)
    else if At(s, q) == ']' then Some((Arr(elems), q + 1))
    else None
  }

  /** One more key and value, then a comma and further ones, or the end. */
  ghost function ParseMembers(t: Tokens, s: string, p: nat, members: seq<Member>): (r: Option<(Value, nat)>)
    requires Advancing(t)
    ensures r.Some? ==> p < |s| && p < r.value.1 <= |s| + 4
    decreases Left(s, p), 1
  {
    var k := ParseKey(t, s, p);
    if k.None? then None
    else
      var v := ParseValue(t, s, k.value.1);
      if v.None? then None else AfterMember(t, s, v.value.1, Define(members, k.value.0, v.value.0))
  }

  /** A key and its colon. */
  ghost function ParseKey(t: Tokens, s: string, p: nat): (r: Option<(JsString, nat)>)
    requires Advancing(t)
    ensures r.Some? ==> p < |s| && p < r.value.1 <= |s|
  {
    var q := Skip(s, p);
    if At(s, q) != '"' then None
    else
      var w := t.readStr(s, q + 1);
      if w.None? then None
      else
        var i := Skip(s, w.value.1);
        if At(s, i) != ':' then None else Some((w.value.0, i + 1))
  }

  ghost function AfterMember(t: Tokens, s: string, p: nat, members: seq<Member>): (r: Option<(Value, nat)>)
    requires Advancing(t) && p > 0
    ensures r.Some? ==> p < |s| && p < r.value.1 <= |s| + 4
    decreases Left(s, p), 2
  {
    var q := Skip(s, p);
    if At(s, q) == ',' then ParseMembers(t, s, q + 1, members)
    else if At(s, q) == '}' then Some((Obj(members), q + 1))
    else None
  }

  /** A whole document: one value, and nothing but spaces after it. */
  ghost function ParseText(t: Tokens, s: string): Option<Value>
    requires Advancing(t)
  {
    var v := ParseValue(t, s, 0);
    if v.None? || Skip(s, v.value.1) != |s| then None else Some(v.value.0)
  }

  // ---------- printing ----------

  function Text(t: Tokens, v: Value): string {
    match v
    case Undefined => "null"
    case Null => "null"
    case Bool(b) => if b then "true" else "false"
    case Number(n) => if IsFinite(n) then t.numText(n) else "null"
    case Str(s) => t.strText(s)
    case Arr(elems) => "[" + ElemsText(t, elems, true) + "]"
    case Obj(members) => "{" + MembersText(t, members, true) + "}"
  }

  function ElemsText(t: Tokens, elems: seq<Value>, first: bool): string {
    if elems == [] then []
    else (if first then [] else ",") + Text(t, elems[0]) + ElemsText(t, elems[1..], false)
  }

  /** Members whose value is undefined are left out. */
  function MembersText(t: Tokens, members: seq<Member>, first: bool): string {
    if members == [] then []
    else if members[0].value.Undefined? then MembersText(t, members[1..], first)
    else (if first then [] else ",") + t.strText(members[0].key) + ":" + Text(t, members[0].value)
         + MembersText(t, members[1..], false)
  }

  // ---------- parsing what was printed ----------

  predicate Here(s: string, p: nat, w: string) { p + |w| <= |s| && s[p..p + |w|] == w }

  /** A value may end here: at the end of the text, or before a comma or a closing bracket. */
  predicate EndsAt(s: string, p: nat) { p == |s| || (p < |s| && (s[p] == ',' || s[p] == ']' || s[p] == '}')) }

  /** Tokens read back as what was written; a string's text starts with its quote, and its reader after that. */
  ghost predicate RoundTripping(t: Tokens) {
    && Advancing(t)
    && (forall n: Bits64 :: IsFinite(n) ==> t.numText(n) != [] && IsNumberStart(t.numText(n)[0]))
    && (forall w: JsString :: t.strText(w) != [] && t.strText(w)[0] == '"')
    && (forall n: Bits64, s, p: nat ::
          IsFinite(n) && !IsMinusZero(n) && Here(s, p, t.numText(n)) && EndsAt(s, p + |t.numText(n)|) ==>
          var r := t.readNum(s, p); r.Some? && r.value.0 == n && r.value.1 == p + |t.numText(n)|)
    && (forall w: JsString, s, p: nat :: Here(s, p, t.strText(w)) ==>
          var r := t.readStr(s, p + 1); r.Some? && r.value.0 == w && r.value.1 == p + |t.strText(w)|)
  }

  predicate HasKey(members: seq<Member>, key: JsString) { exists k :: 0 <= k < |members| && members[k].key == key }

  /** A value JSON can express: nothing undefined, only finite numbers other than minus zero, no key twice. */
  predicate Plain(v: Value) {
    match v
    case Undefined => false
    case Number(n) => IsFinite(n) && !IsMinusZero(n)
    case Arr(elems) => forall k :: 0 <= k < |elems| ==> Plain(elems[k])
    case Obj(members) =>
      && (forall k :: 0 <= k < |members| ==> Plain(members[k].value))
      && (forall j, k :: 0 <= j < k < |members| ==> members[j].key != members[k].key)
    case _ => true
  }

  lemma HereParts(s: string, p: nat, a: string, b: string)
    requires Here(s, p, a + b)
    ensures Here(s, p, a) && Here(s, p + |a|, b)
  {
    var w := s[p..p + |a| + |b|];
    assert w[..|a|] == a && w[|a|..] == b;
    assert s[p..p + |a|] == w[..|a|] && s[p + |a|..p + |a| + |b|] == w[|a|..];
  }

  lemma HereFirst(s: string, p: nat, w: string)
    requires Here(s, p, w) && w != []
    ensures p < |s| && s[p] == w[0] == At(s, p)
  {
    assert s[p] == s[p..p + |w|][0];
  }

  /** Printed values do not start with a space, or with what closes or separates others. */
  lemma FirstChar(t: Tokens, v: Value)
    requires RoundTripping(t)
    ensures Text(t, v) != []
    ensures var c := Text(t, v)[0]; !IsSpace(c) && c != ']' && c != '}' && c != ','
  {
    if v.Number? && IsFinite(v.n) {
      assert IsNumberStart(t.numText(v.n)[0]);
    } else if v.Str? {
      assert t.strText(v.s)[0] == '"';
    }
  }

  lemma SkipNone(s: string, p: nat)
    requires !IsSpace(At(s, p))
    ensures Skip(s, p) == p
  {}

  /** Where a printed value stands, and a value may end behind it, it parses back. */
  lemma {:induction false} ParsesBack(t: Tokens, v: Value, s: string, p: nat)
    requires RoundTripping(t) && Plain(v) && Here(s, p, Text(t, v)) && EndsAt(s, p + |Text(t, v)|)
    ensures ParseValue(t, s, p) == Some((v, p + |Text(t, v)|))
    decreases v, 1
  {
    hide ParseElems, ParseMembers, ElemsText, MembersText, ParseValue;
    FirstChar(t, v);
    HereFirst(s, p, Text(t, v));
    SkipNone(s, p);
    match v
    case Arr(elems) =>
      ArrText(t, elems, s, p);
      SkipNone(s, p + 1);
      ParseBracket(t, s, p);
      if elems != [] {
        ElemsParseBack(t, elems, [], s, p + 1);
        assert [] + elems == elems;
      }
    case Obj(members) =>
      ObjText(t, members, s, p);
      SkipNone(s, p + 1);
      ParseBracket(t, s, p);
      if members != [] {
        MembersParseBack(t, members, [], s, p + 1);
        assert [] + members == members;
      }
    case _ => ScalarParsesBack(t, v, s, p);
  }

  lemma ScalarParsesBack(t: Tokens, v: Value, s: string, p: nat)
    requires RoundTripping(t) && Plain(v) && !v.Arr? && !v.Obj? && Here(s, p, Text(t, v)) && EndsAt(s, p + |Text(t, v)|)
    ensures ParseValue(t, s, p) == Some((v, p + |Text(t, v)|))
  {
    FirstChar(t, v);
    HereFirst(s, p, Text(t, v));
    SkipNone(s, p);
    if v.Number? {
      assert Here(s, p, t.numText(v.n));
    } else if v.Str? {
      assert Here(s, p, t.strText(v.s));
    }
  }

  lemma ParseBracket(t: Tokens, s: string, p: nat)
    requires Advancing(t)
    ensures var i := Skip(s, p + 1);
            && (At(s, p) == '[' ==>
                  ParseValue(t, s, p) == if At(s, i) == ']' then Some((Arr([]), i + 1)) else ParseElems(t, s, i, []))
            && (At(s, p) == '{' ==>
                  ParseValue(t, s, p) == if At(s, i) == '}' then Some((Obj([]), i + 1)) else ParseMembers(t, s, i, []))
  {
    hide ParseElems, ParseMembers;
    if !IsSpace(At(s, p)) { SkipNone(s, p); }
  }

  lemma ArrText(t: Tokens, elems: seq<Value>, s: string, p: nat)
    requires RoundTripping(t) && Here(s, p, Text(t, Arr(elems)))
    ensures Here(s, p + 1, ElemsText(t, elems, true) + "]") && !IsSpace(At(s, p + 1))
    ensures At(s, p + 1) == ']' <==> elems == []
    ensures |Text(t, Arr(elems))| == |ElemsText(t, elems, true)| + 2
    ensures elems == [] ==> |Text(t, Arr(elems))| == 2
  {
    var inner := ElemsText(t, elems, true) + "]";
    assert Text(t, Arr(elems)) == "[" + inner;
    HereParts(s, p, "[", inner);
    HereFirst(s, p + 1, inner);
    if elems != [] {
      FirstChar(t, elems[0]);
      assert inner[0] == Text(t, elems[0])[0];
    }
  }

  lemma ObjText(t: Tokens, members: seq<Member>, s: string, p: nat)
    requires RoundTripping(t) && Here(s, p, Text(t, Obj(members)))
    requires forall k :: 0 <= k < |members| ==> !members[k].value.Undefined?
    ensures Here(s, p + 1, MembersText(t, members, true) + "}") && !IsSpace(At(s, p + 1))
    ensures At(s, p + 1) == '}' <==> members == []
    ensures |Text(t, Obj(members))| == |MembersText(t, members, true)| + 2
    ensures members == [] ==> |Text(t, Obj(members))| == 2
  {
    var inner := MembersText(t, members, true) + "}";
    assert Text(t, Obj(members)) == "{" + inner;
    HereParts(s, p, "{", inner);
    HereFirst(s, p + 1, inner);
    if members != [] {
      assert inner[0] == t.strText(members[0].key)[0] == '"';
    }
  }

  lemma {:induction false} ElemsParseBack(t: Tokens, elems: seq<Value>, acc: seq<Value>, s: string, p: nat)
    requires RoundTripping(t) && elems != [] && (forall k :: 0 <= k < |elems| ==> Plain(elems[k]))
    requires Here(s, p, ElemsText(t, elems, true) + "]")
    ensures ParseElems(t, s, p, acc) == Some((Arr(acc + elems), p + |ElemsText(t, elems, true)| + 1))
    decreases elems, 0
  {
    hide Text, ParseValue, ParseElems, AfterElem, Here, Plain, ElemsText, RoundTripping;
    var x, rest := Text(t, elems[0]), elems[1..];
    var q := p + |x|;
    IsAdvancing(t);
    FirstElem(t, elems, s, p);
    TailOfElems(t, rest, s, q);
    ParsesBack(t, elems[0], s, p);
    SkipNone(s, q);
    ElemParsed(t, s, p, acc, elems[0], q);
    if rest == [] {
      assert acc + elems == acc + [elems[0]];
    } else {
      ElemsParseBack(t, rest, acc + [elems[0]], s, q + 1);
      assert acc + elems == acc + [elems[0]] + rest;
    }
  }

  lemma FirstElem(t: Tokens, elems: seq<Value>, s: string, p: nat)
    requires elems != [] && Here(s, p, ElemsText(t, elems, true) + "]")
    ensures var x := Text(t, elems[0]);
            && Here(s, p, x) && Here(s, p + |x|, ElemsText(t, elems[1..], false) + "]")
            && |ElemsText(t, elems, true)| == |x| + |ElemsText(t, elems[1..], false)|
  {
    hide Text;
    var x, tail := Text(t, elems[0]), ElemsText(t, elems[1..], false) + "]";
    assert ElemsText(t, elems, true) + "]" == x + tail;
    HereParts(s, p, x, tail);
  }

  lemma ElemParsed(t: Tokens, s: string, p: nat, acc: seq<Value>, v: Value, q: nat)
    requires Advancing(t) && ParseValue(t, s, p) == Some((v, q)) && Skip(s, q) == q
    ensures At(s, q) == ',' ==> ParseElems(t, s, p, acc) == ParseElems(t, s, q + 1, acc + [v])
    ensures At(s, q) == ']' ==> ParseElems(t, s, p, acc) == Some((Arr(acc + [v]), q + 1))
  {
    hide ParseValue;
  }

  lemma TailOfElems(t: Tokens, rest: seq<Value>, s: string, q: nat)
    requires Here(s, q, ElemsText(t, rest, false) + "]")
    ensures EndsAt(s, q) && At(s, q) == if rest == [] then ']' else ','
    ensures rest == [] ==> ElemsText(t, rest, false) == []
    ensures rest != [] ==> && Here(s, q + 1, ElemsText(t, rest, true) + "]")
                           && |ElemsText(t, rest, false)| == |ElemsText(t, rest, true)| + 1
  {
    hide Text;
    var tail := ElemsText(t, rest, false) + "]";
    HereFirst(s, q, tail);
    if rest == [] {
      assert tail == "]";
    } else {
      assert tail == "," + (ElemsText(t, rest, true) + "]") && tail[0] == ',';
      HereParts(s, q, ",", ElemsText(t, rest, true) + "]");
    }
  }

  lemma {:induction false} MembersParseBack(t: Tokens, members: seq<Member>, acc: seq<Member>, s: string, p: nat)
    requires RoundTripping(t) && members != [] && (forall k :: 0 <= k < |members| ==> Plain(members[k].value))
    requires forall j, k :: 0 <= j < k < |acc + members| ==> (acc + members)[j].key != (acc + members)[k].key
    requires Here(s, p, MembersText(t, members, true) + "}")
    ensures ParseMembers(t, s, p, acc) == Some((Obj(acc + members), p + |MembersText(t, members, true)| + 1))
    decreases members, 0
  {
    hide Text, ParseValue, ParseKey, Define, ParseMembers, AfterMember, Here, MembersText, RoundTripping, Plain;
    var m, rest := members[0], members[1..];
    var k, x, tail := t.strText(m.key), Text(t, m.value), MembersText(t, rest, false) + "}";
    var i := p + |k| + 1;
    var q := i + |x|;
    IsAdvancing(t);
    FirstMember(t, members, s, p);
    KeyParsesBack(t, m.key, s, p);
    TailOfMembers(t, rest, s, q);
    ParsesBack(t, m.value, s, i);
    MemberParsed(t, s, p, acc, m.key, i, m.value, q);
    forall j | 0 <= j < |acc| ensures acc[j].key != m.key {
      assert (acc + members)[j] == acc[j] && (acc + members)[|acc|] == m;
    }
    DefineNew(acc, m.key, m.value);
    assert acc + members == acc + [m] + rest;
    SkipNone(s, q);
    AfterMemberIs(t, s, q, acc + [m]);
    if rest == [] {
      assert acc + members == acc + [m];
    } else {
      MembersParseBack(t, rest, acc + [m], s, q + 1);
    }
  }

  /** The first member's key, value and what follows, in place. */
  lemma FirstMember(t: Tokens, members: seq<Member>, s: string, p: nat)
    requires RoundTripping(t) && members != [] && Plain(members[0].value)
    requires Here(s, p, MembersText(t, members, true) + "}")
    ensures var k, x := t.strText(members[0].key), Text(t, members[0].value);
            && Here(s, p, k + ":") && Here(s, p + |k| + 1, x)
            && Here(s, p + |k| + 1 + |x|, MembersText(t, members[1..], false) + "}")
            && |MembersText(t, members, true)| == |k| + 1 + |x| + |MembersText(t, members[1..], false)|
  {
    hide Text;
    var k, x, more := t.strText(members[0].key), Text(t, members[0].value), MembersText(t, members[1..], false);
    var tail := more + "}";
    assert MembersText(t, members, true) == [] + k + ":" + x + more;
    Parts(k, x, more);
    HereParts(s, p, k + ":", x + tail);
    HereParts(s, p + |k| + 1, x, tail);
  }

  lemma Parts(k: string, x: string, more: string)
    ensures [] + k + ":" + x + more + "}" == (k + ":") + (x + (more + "}"))
  {
    assert [] + k == k;
    assert x + more + "}" == x + (more + "}");
  }

  lemma IsAdvancing(t: Tokens)
    requires RoundTripping(t)
    ensures Advancing(t)
  {}

  lemma MemberParsed(t: Tokens, s: string, p: nat, acc: seq<Member>, key: JsString, i: nat, v: Value, q: nat)
    requires Advancing(t) && ParseKey(t, s, p) == Some((key, i)) && ParseValue(t, s, i) == Some((v, q))
    ensures ParseMembers(t, s, p, acc) == AfterMember(t, s, q, Define(acc, key, v))
  {
    hide ParseKey, ParseValue, AfterMember;
  }

  lemma AfterMemberIs(t: Tokens, s: string, p: nat, acc: seq<Member>)
    requires Advancing(t) && p > 0 && Skip(s, p) == p
    ensures At(s, p) == ',' ==> AfterMember(t, s, p, acc) == ParseMembers(t, s, p + 1, acc)
    ensures At(s, p) == '}' ==> AfterMember(t, s, p, acc) == Some((Obj(acc), p + 1))
  {
    hide ParseMembers;
  }

  lemma KeyParsesBack(t: Tokens, key: JsString, s: string, p: nat)
    requires RoundTripping(t) && Here(s, p, t.strText(key) + ":")
    ensures ParseKey(t, s, p) == Some((key, p + |t.strText(key)| + 1))
  {
    var k := t.strText(key);
    HereParts(s, p, k, ":");
    HereFirst(s, p, k);
    HereFirst(s, p + |k|, ":");
    SkipNone(s, p);
    SkipNone(s, p + |k|);
  }

  lemma TailOfMembers(t: Tokens, rest: seq<Member>, s: string, q: nat)
    requires Here(s, q, MembersText(t, rest, false) + "}")
    requires forall k :: 0 <= k < |rest| ==> Plain(rest[k].value)
    ensures EndsAt(s, q) && At(s, q) == if rest == [] then '}' else ','
    ensures rest == [] ==> MembersText(t, rest, false) == []
    ensures rest != [] ==> && Here(s, q + 1, MembersText(t, rest, true) + "}")
                           && |MembersText(t, rest, false)| == |MembersText(t, rest, true)| + 1
  {
    hide Text;
    var tail := MembersText(t, rest, false) + "}";
    HereFirst(s, q, tail);
    if rest == [] {
      assert tail == "}";
    } else {
      assert Plain(rest[0].value);
      assert tail == "," + (MembersText(t, rest, true) + "}") && tail[0] == ',';
      HereParts(s, q, ",", MembersText(t, rest, true) + "}");
    }
  }

  lemma {:induction false} DefineNew(members: seq<Member>, key: JsString, v: Value)
    requires forall j :: 0 <= j < |members| ==> members[j].key != key
    ensures Define(members, key, v) == members + [Member(key, v)]
  {
    if members != [] {
      DefineNew(members[1..], key, v);
    }
  }

  /** Parsing the printed text gives the same value. */
  lemma TextRoundTrip(t: Tokens, v: Value)
    requires RoundTripping(t) && Plain(v)
    ensures ParseText(t, Text(t, v)) == Some(v)
  {
    hide Text, ParseValue;
    var s := Text(t, v);
    assert s[0..|s|] == s;
    ParsesBack(t, v, s, 0);
    SkipNone(s, |s|);
  }

  // ---------- true, false and null ----------

  /** The literal that section 3 of RFC 8259 allows after its first letter. */
  function LiteralName(c: char): string {
    if c == 't' then "true" else if c == 'f' then "false" else "null"
  }

  /** A literal name at p, as RFC 8259 has it. */
  function StrictLiteral(s: string, p: nat): Option<(Value, nat)> {
    if Here(s, p, "true") then Some((Bool(true), p + 4))
    else if Here(s, p, "false") then Some((Bool(false), p + 5))
    else if Here(s, p, "null") then Some((Null, p + 4))
    else None
  }

  /** Only the first letter is looked at, so the parser agrees exactly where the whole name is there. */
  lemma LiteralExact(t: Tokens, s: string, p: nat)
    requires Advancing(t) && (At(s, p) == 't' || At(s, p) == 'f' || At(s, p) == 'n')
    ensures ParseValue(t, s, p) == StrictLiteral(s, p) <==> Here(s, p, LiteralName(At(s, p)))
  {
    SkipNone(s, p);
    if Here(s, p, "true") { HereFirst(s, p, "true"); }
    if Here(s, p, "false") { HereFirst(s, p, "false"); }
    if Here(s, p, "null") { HereFirst(s, p, "null"); }
  }

  lemma LooseLiteral(t: Tokens)
    requires Advancing(t)
    ensures ParseText(t, "txyz") == Some(Bool(true)) && StrictLiteral("txyz", 0) == None
  {
    var s := "txyz";
    SkipNone(s, 0);
    SkipNone(s, 4);
    assert s[0..4][0] == 't' && s[0..4][1] == 'x';
  }

}
