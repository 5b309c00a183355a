/** JSON texts as RFC 8259 derives them, and exactly which texts the parser reads as that grammar does. */
module JsonGrammar {
  import opened Options
  import opened Json
  import opened JsonTokens
  import opened RfcTokens
  import Dtoa
  import JsonNumbers
  import JsonStrings

  // ---------- the grammar of RFC 8259 ----------

  predicate IsBlank(c: char) { c == ' ' || c == 9 as char || c == 10 as char || c == 13 as char }

  /** Insignificant white space from p up to q. */
  predicate Blank(s: string, p: nat, q: nat) { p <= q <= |s| && forall k :: p <= k < q ==> IsBlank(s[k]) }

  /** The character c after white space from p on, ending at q. */
  predicate Mark(s: string, p: nat, c: char, q: nat) { 0 < q && Blank(s, p, q - 1) && q <= |s| && s[q - 1] == c }

  /** White space from p on, then a text of r that ends at q.  Objects keep every member, also of equal keys. */
  ghost predicate Derives(s: string, p: nat, r: Value, q: nat)
    decreases r, 2
  {
    exists i {:trigger Blank(s, p, i)} :: Blank(s, p, i) && Derived(s, i, r, q)
  }

  ghost predicate Derived(s: string, i: nat, r: Value, q: nat)
    decreases r, 1
  {
    && i < |s|
    && match r
       case Undefined => false
       case Null => Here(s, i, "null") && q == i + 4
       case Bool(b) => Here(s, i, if b then "true" else "false") && q == i + if b then 4 else 5
       case Number(n) => i < q <= |s| && NumberToken(s[i..q], n)
       case Str(w) => i < q <= |s| && StringToken(s[i..q], w)
       case Arr(elems) => s[i] == '[' && if elems == [] then Mark(s, i + 1, ']', q) else ElemsDerive(s, i + 1, elems, q)
       case Obj(members) =>
         s[i] == '{' && if members == [] then Mark(s, i + 1, '}', q) else MembersDerive(s, i + 1, members, q)
  }

  /** What stands after the first of n parts. */
  function After(n: nat, closing: char): char { if n == 1 then closing else ',' }

  /** Values with commas between them, and the closing bracket. */
  ghost predicate ElemsDerive(s: string, p: nat, elems: seq<Value>, q: nat)
    requires elems != []
    decreases elems, 0
  {
    exists m: nat, j: nat ::
      && Derives(s, p, elems[0], m)
      && Mark(s, m, After(|elems|, ']'), j)
      && if |elems| == 1 then q == j else ElemsDerive(s, j, elems[1..], q)
  }

  /** A string and a colon. */
  ghost predicate KeyDerives(s: string, p: nat, key: JsString, q: nat) {
    exists i: nat, m: nat {:trigger s[i..m], Mark(s, m, ':', q)} ::
      Blank(s, p, i) && i < m <= |s| && StringToken(s[i..m], key) && Mark(s, m, ':', q)
  }

  /** Members with commas between them, and the closing brace. */
  ghost predicate MembersDerive(s: string, p: nat, members: seq<Member>, q: nat)
    requires members != []
    decreases members, 0
  {
    exists i: nat, m: nat, j: nat ::
      && KeyDerives(s, p, members[0].key, i)
      && Derives(s, i, members[0].value, m)
      && Mark(s, m, After(|members|, '}'), j)
      && if |members| == 1 then q == j else MembersDerive(s, j, members[1..], q)
  }

  /** The text is one value, with white space around it. */
  ghost predicate IsDocument(s: string, r: Value) {
    exists q: nat :: Derives(s, 0, r, q) && Blank(s, q, |s|)
  }

  /** The value of a derived text: of equal keys, the first one's place and the last one's value. */
  function Merged(r: Value): Value {
    match r
    case Arr(elems) => Arr(MergedElems(elems))
    case Obj(members) => Obj(MergedMembers(members, []))
    case _ => r
  }

  function MergedElems(elems: seq<Value>): seq<Value> {
    if elems == [] then [] else [Merged(elems[0])] + MergedElems(elems[1..])
  }

  function MergedMembers(members: seq<Member>, acc: seq<Member>): seq<Member>
    decreases members
  {
    if members == [] then acc
    else MergedMembers(members[1..], Define(acc, members[0].key, Merged(members[0].value)))
  }

  // ---------- spelling ----------

  predicate IsLiteralStart(c: char) { c == 't' || c == 'f' || c == 'n' }

  /** Where the token that the engine's scanners read at i ends; what is no token counts as one character. */
  ghost function TokenEnd(s: string, i: nat): (q: nat)
    requires i < |s|
    ensures i < q <= |s|
  {
    if IsNumberStart(s[i]) && JsonNumbers.NumberAt(s, i).Some? then JsonNumbers.NumberAt(s, i).value.1
    else if s[i] == '"' && JsonStrings.Unquote(s, i + 1).Some? then JsonStrings.Unquote(s, i + 1).value.1
    else if IsLiteralStart(s[i]) && Here(s, i, LiteralName(s[i])) then i + |LiteralName(s[i])|
    else i + 1
  }

  /** The token at i is spelled as RFC 8259 has it: literal names in full, numbers and strings by its sections 6 and 7. */
  ghost predicate WellSpelled(s: string, i: nat)
    requires i < |s|
  {
    && (IsLiteralStart(s[i]) ==> Here(s, i, LiteralName(s[i])))
    && (IsNumberStart(s[i]) ==> IsNumberToken(s[i..TokenEnd(s, i)]))
    && (s[i] == '"' ==> IsStringToken(s[i..TokenEnd(s, i)]))
  }

  /** Token by token from p on: each is well spelled, and only blanks stand between them. */
  ghost predicate Spelled(s: string, p: nat)
    requires p <= |s|
    decreases |s| - p
  {
    var i := Skip(s, p);
    Blank(s, p, i) && (i < |s| ==> WellSpelled(s, i) && Spelled(s, TokenEnd(s, i)))
  }

  lemma {:induction false} SkipBlank(s: string, p: nat, i: nat)
    requires Blank(s, p, i) && !IsSpace(At(s, i))
    ensures Skip(s, p) == i
    decreases i - p
  {
    if p < i {
      assert IsBlank(s[p]);
      SkipBlank(s, p + 1, i);
    }
  }

  /** A mark is one token. */
  lemma MarkSpelled(s: string, p: nat, c: char, q: nat)
    requires Mark(s, p, c, q)
    requires c == ',' || c == ':' || c == ']' || c == '}'
    ensures p < q <= |s| && Skip(s, p) == q - 1 && At(s, q - 1) == c
    ensures Spelled(s, p) <==> Spelled(s, q)
  {
    hide Skip, Spelled, TokenEnd, WellSpelled, Blank;
    SkipBlank(s, p, q - 1);
    BlankGrows(s, p, q - 1);
    OneCharacter(s, q - 1);
    TokenSpelled(s, p, q - 1);
  }

  /** The parser skips spaces itself wherever a value or a key may stand. */
  lemma SkipFirst(t: Tokens, s: string, p: nat)
    requires Advancing(t)
    ensures ParseValue(t, s, Skip(s, p)) == ParseValue(t, s, p)
    ensures forall acc: seq<Value> :: ParseElems(t, s, Skip(s, p), acc) == ParseElems(t, s, p, acc)
    ensures forall acc: seq<Member> :: ParseMembers(t, s, Skip(s, p), acc) == ParseMembers(t, s, p, acc)
  {
    SkipNone(s, Skip(s, p));
    ValueFromSkip(t, s, p, Skip(s, p));
    assert ParseKey(t, s, Skip(s, p)) == ParseKey(t, s, p);
    hide ParseValue, ParseKey, AfterElem, AfterMember, Skip;
    forall acc: seq<Value> ensures ParseElems(t, s, Skip(s, p), acc) == ParseElems(t, s, p, acc) {}
    forall acc: seq<Member> ensures ParseMembers(t, s, Skip(s, p), acc) == ParseMembers(t, s, p, acc) {}
  }

  lemma ValueFromSkip(t: Tokens, s: string, p: nat, q: nat)
    requires Advancing(t) && Skip(s, p) == Skip(s, q)
    ensures ParseValue(t, s, p) == ParseValue(t, s, q)
  {
    hide ParseElems, ParseMembers;
  }

  // ---------- what the grammar derives, the parser reads ----------

  ghost predicate ByEngine(t: Tokens) { Advancing(t) && ReadByEngine(t) }

  /** A token may end here. */
  predicate EndsHere(s: string, q: nat) { q <= |s| && (q == |s| || IsBlank(s[q]) || s[q] == ',' || s[q] == ']' || s[q] == '}') }

  lemma EndsStops(s: string, q: nat)
    requires EndsHere(s, q)
    ensures Dtoa.Stops(s[q..])
  {}

  lemma MarkEnds(s: string, p: nat, c: char, q: nat)
    requires Mark(s, p, c, q) && (c == ',' || c == ']' || c == '}')
    ensures EndsHere(s, p)
  {
    if p < q - 1 { assert IsBlank(s[p]); }
  }

  lemma BlankEnds(s: string, p: nat)
    requires Blank(s, p, |s|)
    ensures EndsHere(s, p)
  {
    if p < |s| { assert IsBlank(s[p]); }
  }

  lemma {:induction false} DerivesParses(t: Tokens, s: string, p: nat, r: Value, q: nat)
    requires ByEngine(t) && Derives(s, p, r, q) && EndsHere(s, q)
    ensures p < q <= |s| && ParseValue(t, s, p) == Some((Merged(r), q))
    ensures Spelled(s, p) <==> Spelled(s, q)
    decreases r, 2
  {
    hide Spelled, ParseElems, ParseMembers, ElemsDerive, MembersDerive, MergedElems, MergedMembers, ParseValue;
    var i: nat :| Blank(s, p, i) && Derived(s, i, r, q);
    match r
    case Arr(elems) =>
      BracketParses(t, s, p, i);
      if elems == [] {
        MarkSpelled(s, i + 1, ']', q);
        NothingMerged();
      } else {
        ElemsDeriveParses(t, s, i + 1, elems, [], q);
        assert [] + MergedElems(elems) == MergedElems(elems);
      }
    case Obj(members) =>
      BracketParses(t, s, p, i);
      if members == [] {
        MarkSpelled(s, i + 1, '}', q);
        NothingMerged();
      } else {
        MembersDeriveParses(t, s, i + 1, members, [], q);
      }
    case _ => ScalarParses(t, s, p, i, r, q);
  }

  lemma NothingMerged()
    ensures MergedElems([]) == [] && MergedMembers([], []) == []
  {}

  lemma ScalarParses(t: Tokens, s: string, p: nat, i: nat, r: Value, q: nat)
    requires ByEngine(t) && Blank(s, p, i) && Derived(s, i, r, q) && EndsHere(s, q) && !r.Arr? && !r.Obj?
    ensures p < q <= |s| && ParseValue(t, s, p) == Some((r, q))
    ensures Spelled(s, p) <==> Spelled(s, q)
  {
    hide Spelled, Derived, TokenEnd, ParseValue, Skip;
    ScalarToken(t, s, i, r, q);
    SkipBlank(s, p, i);
    SkipNone(s, i);
    ValueFromSkip(t, s, p, i);
    TokenSpelled(s, p, i);
  }

  lemma ScalarToken(t: Tokens, s: string, i: nat, r: Value, q: nat)
    requires ByEngine(t) && Derived(s, i, r, q) && EndsHere(s, q) && !r.Arr? && !r.Obj?
    ensures !IsSpace(At(s, i)) && WellSpelled(s, i)
    ensures TokenEnd(s, i) == q && ParseValue(t, s, i) == Some((r, q))
  {
    hide EndsHere, ReadByEngine, NumberToken, StringToken, ParseElems, ParseMembers, JsonNumbers.NumberAt, JsonStrings.Unquote,
         Here, Dtoa.Stops;
    match r
    case Number(n) => NumberThere(t, s, i, n, q);
    case Str(w) => StringThere(t, s, i, w, q);
    case _ =>
      if Here(s, i, "true") { HereFirst(s, i, "true"); }
      if Here(s, i, "false") { HereFirst(s, i, "false"); }
      if Here(s, i, "null") { HereFirst(s, i, "null"); }
      if !IsSpace(At(s, i)) { SkipNone(s, i); }
  }

  lemma NumberThere(t: Tokens, s: string, i: nat, n: Bits64, q: nat)
    requires ByEngine(t) && i < q <= |s| && NumberToken(s[i..q], n) && EndsHere(s, q)
    ensures !IsSpace(At(s, i)) && WellSpelled(s, i)
    ensures TokenEnd(s, i) == q && ParseValue(t, s, i) == Some((Number(n), q))
  {
    hide EndsHere, ReadByEngine, NumberToken, ParseElems, ParseMembers, JsonNumbers.NumberAt, Dtoa.Stops;
    var w := s[i..q];
    EndsStops(s, q);
    assert i + |w| == q;
    NumberReads(w, n, s, i);
    TokenStarts(w, n);
    assert w[0] == s[i];
    EngineReads(t, s, i);
    SkipNone(s, i);
    IsToken(w, n);
  }

  lemma IsToken(w: string, n: Bits64)
    requires NumberToken(w, n)
    ensures IsNumberToken(w)
  {
    hide NumberMeans;
  }

  lemma EngineReads(t: Tokens, s: string, p: nat)
    requires ByEngine(t)
    ensures t.readNum(s, p) == JsonNumbers.NumberAt(s, p) && t.readStr(s, p) == JsonStrings.Unquote(s, p)
  {
    hide JsonNumbers.NumberAt, JsonStrings.Unquote;
  }

  lemma StringThere(t: Tokens, s: string, i: nat, w: JsString, q: nat)
    requires ByEngine(t) && i < q <= |s| && StringToken(s[i..q], w)
    ensures At(s, i) == '"' && WellSpelled(s, i)
    ensures TokenEnd(s, i) == q && ParseValue(t, s, i) == Some((Str(w), q)) && t.readStr(s, i + 1) == Some((w, q))
  {
    hide ReadByEngine, StringToken, ParseElems, ParseMembers, JsonNumbers.NumberAt, JsonStrings.Unquote;
    StringReads(s[i..q], w, s, i);
    EngineReads(t, s, i + 1);
    SkipNone(s, i);
  }

  /** Spelling goes on behind the next token. */
  lemma TokenSpelled(s: string, p: nat, i: nat)
    requires Blank(s, p, i) && Skip(s, p) == i < |s| && WellSpelled(s, i)
    ensures Spelled(s, p) <==> Spelled(s, TokenEnd(s, i))
  {
    hide Skip, TokenEnd, Here, Blank, WellSpelled;
  }

  /** After an opening bracket at i the parser either closes it at once or goes on to the first part. */
  lemma BracketParses(t: Tokens, s: string, p: nat, i: nat)
    requires ByEngine(t) && Blank(s, p, i) && i < |s| && (s[i] == '[' || s[i] == '{')
    ensures var j := Skip(s, i + 1);
            && (s[i] == '[' ==>
                  ParseValue(t, s, p) == if At(s, j) == ']' then Some((Arr([]), j + 1)) else ParseElems(t, s, i + 1, []))
            && (s[i] == '{' ==>
                  ParseValue(t, s, p) == if At(s, j) == '}' then Some((Obj([]), j + 1)) else ParseMembers(t, s, i + 1, []))
    ensures Spelled(s, p) <==> Spelled(s, i + 1)
  {
    hide ParseValue, ParseElems, ParseMembers, Spelled, TokenEnd, WellSpelled, ReadByEngine, Skip;
    SkipBlank(s, p, i);
    SkipNone(s, i);
    ValueFromSkip(t, s, p, i);
    ParseBracket(t, s, i);
    SkipFirst(t, s, i + 1);
    OneCharacter(s, i);
    TokenSpelled(s, p, i);
  }

  lemma OneCharacter(s: string, i: nat)
    requires i < |s| && !IsNumberStart(s[i]) && s[i] != '"' && !IsLiteralStart(s[i])
    ensures TokenEnd(s, i) == i + 1 && WellSpelled(s, i)
  {}

  /** Values begin with none of the closing characters. */
  lemma DerivesStart(s: string, p: nat, r: Value, q: nat)
    requires Derives(s, p, r, q)
    ensures At(s, Skip(s, p)) != ']'
  {
    hide ElemsDerive, MembersDerive, Skip, NumberToken;
    var i: nat :| Blank(s, p, i) && Derived(s, i, r, q);
    if Here(s, i, "true") { HereFirst(s, i, "true"); }
    if Here(s, i, "false") { HereFirst(s, i, "false"); }
    if Here(s, i, "null") { HereFirst(s, i, "null"); }
    if r.Number? { TokenStarts(s[i..q], r.n); }
    SkipBlank(s, p, i);
  }

  lemma {:induction false} ElemsDeriveParses(t: Tokens, s: string, p: nat, elems: seq<Value>, acc: seq<Value>, q: nat)
    requires ByEngine(t) && elems != [] && ElemsDerive(s, p, elems, q)
    ensures p < q <= |s| && At(s, Skip(s, p)) != ']'
    ensures ParseElems(t, s, p, acc) == Some((Arr(acc + MergedElems(elems)), q))
    ensures Spelled(s, p) <==> Spelled(s, q)
    decreases elems, 0
  {
    hide Spelled, Derives, ParseValue, ParseElems, AfterElem, Mark, Merged, Skip;
    var m: nat, j: nat :|
      && Derives(s, p, elems[0], m)
      && Mark(s, m, After(|elems|, ']'), j)
      && if |elems| == 1 then q == j else ElemsDerive(s, j, elems[1..], q);
    DerivesStart(s, p, elems[0], m);
    MarkEnds(s, m, After(|elems|, ']'), j);
    DerivesParses(t, s, p, elems[0], m);
    MarkSpelled(s, m, After(|elems|, ']'), j);
    ElemTaken(t, s, p, acc, Merged(elems[0]), m);
    var more := acc + [Merged(elems[0])];
    if |elems| == 1 {
      assert elems[1..] == [];
      assert acc + MergedElems(elems) == more;
    } else {
      ElemsDeriveParses(t, s, j, elems[1..], more, q);
      assert acc + MergedElems(elems) == more + MergedElems(elems[1..]);
    }
  }

  /** One turn of the parser over the elements of an array. */
  lemma ElemTaken(t: Tokens, s: string, p: nat, acc: seq<Value>, v: Value, m: nat)
    requires ByEngine(t) && ParseValue(t, s, p) == Some((v, m))
    ensures var j := Skip(s, m);
            ParseElems(t, s, p, acc) == if At(s, j) == ',' then ParseElems(t, s, j + 1, acc + [v])
                                        else if At(s, j) == ']' then Some((Arr(acc + [v]), j + 1))
                                        else None
  {
    hide ParseValue;
  }

  lemma {:induction false} MembersDeriveParses(t: Tokens, s: string, p: nat, members: seq<Member>, acc: seq<Member>,
                                               q: nat)
    requires ByEngine(t) && members != [] && MembersDerive(s, p, members, q)
    ensures p < q <= |s| && At(s, Skip(s, p)) != '}'
    ensures ParseMembers(t, s, p, acc) == Some((Obj(MergedMembers(members, acc)), q))
    ensures Spelled(s, p) <==> Spelled(s, q)
    decreases members, 0
  {
    hide Spelled, Derives, KeyDerives, ParseValue, ParseKey, ParseMembers, AfterMember, Mark, Merged, Define, Skip;
    var m0, rest := members[0], members[1..];
    var i: nat, m: nat, j: nat :|
      && KeyDerives(s, p, m0.key, i)
      && Derives(s, i, m0.value, m)
      && Mark(s, m, After(|members|, '}'), j)
      && if |members| == 1 then q == j else MembersDerive(s, j, rest, q);
    KeyDerivesParses(t, s, p, m0.key, i);
    assert m0 in members;
    MarkEnds(s, m, After(|members|, '}'), j);
    DerivesParses(t, s, i, m0.value, m);
    MarkSpelled(s, m, After(|members|, '}'), j);
    MemberTaken(t, s, p, acc, m0.key, i, Merged(m0.value), m);
    var more := Define(acc, m0.key, Merged(m0.value));
    if |members| == 1 {
      assert rest == [];
      assert MergedMembers(members, acc) == more;
    } else {
      MembersDeriveParses(t, s, j, rest, more, q);
    }
  }

  /** One turn of the parser over the members of an object. */
  lemma MemberTaken(t: Tokens, s: string, p: nat, acc: seq<Member>, key: JsString, i: nat, v: Value, m: nat)
    requires ByEngine(t) && ParseKey(t, s, p) == Some((key, i)) && ParseValue(t, s, i) == Some((v, m))
    ensures var j := Skip(s, m);
            ParseMembers(t, s, p, acc) == if At(s, j) == ',' then ParseMembers(t, s, j + 1, Define(acc, key, v))
                                          else if At(s, j) == '}' then Some((Obj(Define(acc, key, v)), j + 1))
                                          else None
  {
    hide ParseValue, ParseKey, Define;
  }

  lemma KeyDerivesParses(t: Tokens, s: string, p: nat, key: JsString, q: nat)
    requires ByEngine(t) && KeyDerives(s, p, key, q)
    ensures p < q <= |s| && ParseKey(t, s, p) == Some((key, q)) && At(s, Skip(s, p)) == '"'
    ensures Spelled(s, p) <==> Spelled(s, q)
  {
    hide Spelled, Skip, Blank, Here, StringToken, WellSpelled, TokenEnd, ReadByEngine;
    var i: nat, m: nat :| Blank(s, p, i) && i < m <= |s| && StringToken(s[i..m], key) && Mark(s, m, ':', q);
    StringThere(t, s, i, key, m);
    SkipBlank(s, p, i);
    BlankGrows(s, p, i);
    MarkSpelled(s, m, ':', q);
    TokenSpelled(s, p, i);
  }

  lemma BlankGrows(s: string, p: nat, i: nat)
    requires Blank(s, p, i)
    ensures p <= i <= |s|
  {}

  // ---------- what the parser reads of a text spelled in full, the grammar derives ----------

  lemma {:induction false} ParsedDerives(t: Tokens, s: string, p: nat) returns (r: Value)
    requires ByEngine(t) && p <= |s| && Spelled(s, p) && ParseValue(t, s, p).Some?
    ensures var (v, q) := ParseValue(t, s, p).value;
            q <= |s| && Spelled(s, q) && Derives(s, p, r, q) && Merged(r) == v
    decreases Left(s, p), 0
  {
    hide ParseElems, ParseMembers, ElemsDerive, MembersDerive, MergedElems, MergedMembers, ParseValue, Spelled;
    var i := Skip(s, p);
    SpelledHere(s, p);
    var q := ParseValue(t, s, p).value.1;
    if At(s, i) == '[' {
      BracketParses(t, s, p, i);
      if At(s, Skip(s, i + 1)) == ']' {
        r := Arr([]);
        NothingMerged();
        MarkFound(s, i + 1, ']');
      } else {
        var elems := ParsedElemsDerive(t, s, i + 1, []);
        r := Arr(elems);
        assert [] + MergedElems(elems) == MergedElems(elems);
      }
    } else if At(s, i) == '{' {
      BracketParses(t, s, p, i);
      if At(s, Skip(s, i + 1)) == '}' {
        r := Obj([]);
        NothingMerged();
        MarkFound(s, i + 1, '}');
      } else {
        var members := ParsedMembersDerive(t, s, i + 1, []);
        r := Obj(members);
      }
    } else {
      ParsedScalar(t, s, p);
      r := ParseValue(t, s, p).value.0;
    }
    assert Derived(s, i, r, q);
  }

  lemma SpelledHere(s: string, p: nat)
    requires p <= |s| && Spelled(s, p)
    ensures Blank(s, p, Skip(s, p))
  {}

  lemma ParsedScalar(t: Tokens, s: string, p: nat)
    requires ByEngine(t) && p <= |s| && Spelled(s, p) && ParseValue(t, s, p).Some?
    requires At(s, Skip(s, p)) != '[' && At(s, Skip(s, p)) != '{'
    ensures var (v, q) := ParseValue(t, s, p).value;
            && q <= |s| && Spelled(s, q) && Skip(s, p) < |s|
            && Derived(s, Skip(s, p), v, q) && Merged(v) == v
  {
    hide ElemsDerive, MembersDerive, ParseElems, ParseMembers, Skip, Here, Blank, NumberToken, StringToken, IsNumberToken,
         IsStringToken, JsonNumbers.NumberAt, JsonStrings.Unquote, ReadByEngine;
    var i := Skip(s, p);
    var (v, q) := ParseValue(t, s, p).value;
    SpelledHere(s, p);
    TokenAfter(s, p);
    EngineReads(t, s, i);
    EngineReads(t, s, i + 1);
    if v.Number? { NumberRead(s, i, v.n, q); }
    if v.Str? { StringRead(s, i, v.s, q); }
  }

  lemma TokenAfter(s: string, p: nat)
    requires p <= |s| && Spelled(s, p) && Skip(s, p) < |s|
    ensures var i := Skip(s, p); Spelled(s, TokenEnd(s, i)) && WellSpelled(s, i)
  {
    hide Skip, TokenEnd, Here, Blank, WellSpelled;
  }

  lemma MarkFound(s: string, p: nat, c: char)
    requires p <= |s| && Spelled(s, p) && At(s, Skip(s, p)) == c
    requires c == ',' || c == ':' || c == ']' || c == '}'
    ensures Skip(s, p) < |s| && Mark(s, p, c, Skip(s, p) + 1) && Spelled(s, Skip(s, p) + 1)
  {
    hide Skip, Spelled, TokenEnd, WellSpelled, Blank;
    SpelledHere(s, p);
    TokenAfter(s, p);
    OneCharacter(s, Skip(s, p));
  }

  lemma {:induction false} ParsedElemsDerive(t: Tokens, s: string, p: nat, acc: seq<Value>) returns (elems: seq<Value>)
    requires ByEngine(t) && p <= |s| && Spelled(s, p) && ParseElems(t, s, p, acc).Some?
    ensures var (v, q) := ParseElems(t, s, p, acc).value;
            && elems != [] && q <= |s| && Spelled(s, q)
            && ElemsDerive(s, p, elems, q) && v == Arr(acc + MergedElems(elems))
    decreases Left(s, p), 1
  {
    hide Spelled, Derives, ParseValue, ParseElems, AfterElem, Mark, Merged, MergedElems, ElemsDerive, Skip;
    ElemsNeedValue(t, s, p, acc);
    var r := ParsedDerives(t, s, p);
    var m := ParseValue(t, s, p).value.1;
    ElemTaken(t, s, p, acc, Merged(r), m);
    var j := Skip(s, m);
    MarkFound(s, m, At(s, j));
    if At(s, j) == ',' {
      var rest := ParsedElemsDerive(t, s, j + 1, acc + [Merged(r)]);
      elems := [r] + rest;
      ElemsStand(s, p, r, m, j + 1, rest, ParseElems(t, s, p, acc).value.1);
      FirstMerged(acc, r, rest);
    } else {
      elems := [r];
      LastStands(s, p, r, m, j + 1);
      LastMerged(acc, r);
    }
  }

  lemma ElemsStand(s: string, p: nat, r: Value, m: nat, j: nat, rest: seq<Value>, q: nat)
    requires Derives(s, p, r, m) && Mark(s, m, ',', j) && rest != [] && ElemsDerive(s, j, rest, q)
    ensures ElemsDerive(s, p, [r] + rest, q)
  {
    hide Derives, Mark;
    var elems := [r] + rest;
    assert elems[0] == r && elems[1..] == rest;
  }

  lemma LastStands(s: string, p: nat, r: Value, m: nat, j: nat)
    requires Derives(s, p, r, m) && Mark(s, m, ']', j)
    ensures ElemsDerive(s, p, [r], j)
  {
    hide Derives, Mark;
    assert [r][0] == r && Derives(s, p, [r][0], m) && Mark(s, m, After(1, ']'), j);
  }

  lemma FirstMerged(acc: seq<Value>, r: Value, rest: seq<Value>)
    ensures acc + MergedElems([r] + rest) == acc + [Merged(r)] + MergedElems(rest)
  {
    hide Merged;
    assert ([r] + rest)[1..] == rest;
    assert MergedElems([r] + rest) == [Merged(r)] + MergedElems(rest);
  }

  lemma LastMerged(acc: seq<Value>, r: Value)
    ensures acc + MergedElems([r]) == acc + [Merged(r)]
  {
    hide Merged;
    assert [r][1..] == [];
  }

  lemma ElemsNeedValue(t: Tokens, s: string, p: nat, acc: seq<Value>)
    requires ByEngine(t) && ParseElems(t, s, p, acc).Some?
    ensures ParseValue(t, s, p).Some?
  {}

  lemma {:induction false} ParsedMembersDerive(t: Tokens, s: string, p: nat, acc: seq<Member>)
    returns (members: seq<Member>)
    requires ByEngine(t) && p <= |s| && Spelled(s, p) && ParseMembers(t, s, p, acc).Some?
    ensures var (v, q) := ParseMembers(t, s, p, acc).value;
            && members != [] && q <= |s| && Spelled(s, q)
            && MembersDerive(s, p, members, q) && v == Obj(MergedMembers(members, acc))
    decreases Left(s, p), 1
  {
    hide Spelled, Derives, KeyDerives, ParseValue, ParseKey, ParseMembers, AfterMember, Mark, Merged, Define, Skip;
    MembersNeedValue(t, s, p, acc);
    var (key, i) := ParseKey(t, s, p).value;
    ParsedKeyDerives(t, s, p);
    var r := ParsedDerives(t, s, i);
    var m := ParseValue(t, s, i).value.1;
    MemberTaken(t, s, p, acc, key, i, Merged(r), m);
    var j := Skip(s, m);
    var more := Define(acc, key, Merged(r));
    MarkFound(s, m, At(s, j));
    if At(s, j) == ',' {
      var rest := ParsedMembersDerive(t, s, j + 1, more);
      members := [Member(key, r)] + rest;
      assert members[1..] == rest;
    } else {
      members := [Member(key, r)];
      assert members[1..] == [];
    }
    assert KeyDerives(s, p, members[0].key, i) && Derives(s, i, members[0].value, m)
        && Mark(s, m, After(|members|, '}'), j + 1);
  }

  lemma MembersNeedValue(t: Tokens, s: string, p: nat, acc: seq<Member>)
    requires ByEngine(t) && ParseMembers(t, s, p, acc).Some?
    ensures ParseKey(t, s, p).Some? && ParseValue(t, s, ParseKey(t, s, p).value.1).Some?
  {}

  lemma ParsedKeyDerives(t: Tokens, s: string, p: nat)
    requires ByEngine(t) && p <= |s| && Spelled(s, p) && ParseKey(t, s, p).Some?
    ensures var (key, q) := ParseKey(t, s, p).value;
            q <= |s| && Spelled(s, q) && KeyDerives(s, p, key, q)
  {
    hide Skip, Blank, StringToken, Spelled, Mark, ParseKey, At, KeyDerives, ReadByEngine;
    var (key, q) := ParseKey(t, s, p).value;
    var m := KeyParts(t, s, p);
    KeySpelled(s, p, key, m);
    SpelledHere(s, p);
    MarkFound(s, m, ':');
    KeyStands(s, p, Skip(s, p), m, key, q);
  }

  /** The token of a key that is spelled in full. */
  lemma KeySpelled(s: string, p: nat, key: JsString, m: nat)
    requires p <= |s| && Spelled(s, p)
    requires Skip(s, p) < |s| && s[Skip(s, p)] == '"' && JsonStrings.Unquote(s, Skip(s, p) + 1) == Some((key, m))
    ensures Skip(s, p) < m <= |s| && StringToken(s[Skip(s, p)..m], key) && Spelled(s, m)
  {
    hide Skip, StringToken, IsStringToken, Spelled, JsonStrings.Unquote, TokenEnd, WellSpelled;
    TokenAfter(s, p);
    StringEnds(s, Skip(s, p), key, m);
    StringRead(s, Skip(s, p), key, m);
  }

  lemma KeyStands(s: string, p: nat, i: nat, m: nat, key: JsString, q: nat)
    requires Blank(s, p, i) && i < m <= |s| && StringToken(s[i..m], key) && Mark(s, m, ':', q)
    ensures KeyDerives(s, p, key, q)
  {
    hide Blank, StringToken, Mark;
  }

  lemma KeyParts(t: Tokens, s: string, p: nat) returns (m: nat)
    requires ByEngine(t) && ParseKey(t, s, p).Some?
    ensures var (key, q) := ParseKey(t, s, p).value;
            var i := Skip(s, p);
            && i < |s| && s[i] == '"' && JsonStrings.Unquote(s, i + 1) == Some((key, m)) && m <= |s|
            && At(s, Skip(s, m)) == ':' && q == Skip(s, m) + 1
  {
    hide JsonStrings.Unquote, ReadByEngine, Advancing, Skip;
    EngineReads(t, s, Skip(s, p) + 1);
    m := t.readStr(s, Skip(s, p) + 1).value.1;
  }

  lemma StringEnds(s: string, i: nat, w: JsString, q: nat)
    requires i < |s| && s[i] == '"' && JsonStrings.Unquote(s, i + 1) == Some((w, q)) && WellSpelled(s, i)
    ensures TokenEnd(s, i) == q && IsStringToken(s[i..q])
  {
    hide JsonStrings.Unquote, IsStringToken, IsNumberToken;
  }

  // ---------- documents ----------

  /** The parser of the engine reads a text as RFC 8259 does exactly where every token is spelled as RFC 8259 has it and
      only blanks stand between tokens; any other text it accepts is no document. */
  lemma DocumentExact(t: Tokens, s: string, v: Value)
    requires ReadByEngine(t)
    ensures Advancing(t)
    ensures (exists r :: IsDocument(s, r) && Merged(r) == v) <==> ParseText(t, s) == Some(v) && Spelled(s, 0)
  {
    hide ParseValue, Derives, Spelled, ReadByEngine;
    ReaderAdvances(t);
    if r :| IsDocument(s, r) && Merged(r) == v {
      var q: nat :| Derives(s, 0, r, q) && Blank(s, q, |s|);
      BlankEnds(s, q);
      DerivesParses(t, s, 0, r, q);
      SkipBlank(s, q, |s|);
      SpelledToEnd(s, q);
    }
    if ParseText(t, s) == Some(v) && Spelled(s, 0) {
      var r := ParsedDerives(t, s, 0);
      var q := ParseValue(t, s, 0).value.1;
      SpelledToEnd(s, q);
      assert IsDocument(s, r);
    }
  }

  lemma SpelledToEnd(s: string, q: nat)
    requires q <= |s| && Skip(s, q) == |s|
    ensures Spelled(s, q) <==> Blank(s, q, |s|)
  {}

  // ---------- texts that the engine takes for documents ----------

  /** The engine reads the text, but as no document. */
  ghost predicate Accepted(t: Tokens, s: string)
    requires Advancing(t)
  {
    ParseText(t, s).Some? && forall r :: !IsDocument(s, r)
  }

  lemma NoDocument(t: Tokens, s: string)
    requires ReadByEngine(t) && !Spelled(s, 0)
    ensures Advancing(t) && forall r :: !IsDocument(s, r)
  {
    hide Spelled, IsDocument, ReadByEngine, Advancing, ParseText;
    ReaderAdvances(t);
    forall r ensures !IsDocument(s, r) { DocumentExact(t, s, Merged(r)); }
  }

  /** A text that is one token of the engine's, but none of RFC 8259. */
  lemma OneNumber(t: Tokens, s: string, n: Bits64)
    requires ReadByEngine(t) && s != [] && IsNumberStart(s[0]) && JsonNumbers.NumberAt(s, 0) == Some((n, |s|)) && !IsNumberToken(s)
    ensures Advancing(t) && ParseText(t, s) == Some(Number(n)) && Accepted(t, s)
  {
    hide ReadByEngine, IsNumberToken, JsonNumbers.NumberAt, ParseElems, ParseMembers;
    ReaderAdvances(t);
    EngineReads(t, s, 0);
    SkipNone(s, 0);
    SkipNone(s, |s|);
    assert s[0..|s|] == s;
    assert !Spelled(s, 0);
    NoDocument(t, s);
  }

  lemma OneString(t: Tokens, s: string, w: JsString)
    requires ReadByEngine(t) && s != [] && s[0] == '"' && JsonStrings.Unquote(s, 1) == Some((w, |s|)) && !IsStringToken(s)
    ensures Advancing(t) && ParseText(t, s) == Some(Str(w)) && Accepted(t, s)
  {
    hide ReadByEngine, IsStringToken, JsonStrings.Unquote, ParseElems, ParseMembers;
    ReaderAdvances(t);
    EngineReads(t, s, 1);
    SkipNone(s, 0);
    SkipNone(s, |s|);
    assert s[0..|s|] == s;
    assert !Spelled(s, 0);
    NoDocument(t, s);
  }

  /** A zero before other digits, a point without decimals, and a word for infinity are numbers to js_atod. */
  lemma LooseNumbers(t: Tokens)
    requires ReadByEngine(t)
    ensures Advancing(t) && Accepted(t, "01") && Accepted(t, "1.") && Accepted(t, "-Infinity")
  {
    hide ReadByEngine, Accepted, IsNumberToken, JsonNumbers.NumberAt, Spelled, Advancing, ParseText;
    var n, m, k := LooseReads();
    LooseSpelled();
    OneNumber(t, "01", n);
    OneNumber(t, "1.", m);
    OneNumber(t, "-Infinity", k);
  }

  /** So are an escape JSON does not know, a raw tab, and a line that goes on after a backslash, in strings. */
  lemma LooseStrings(t: Tokens)
    requires ReadByEngine(t)
    ensures Advancing(t) && Accepted(t, "\"\\q\"") && Accepted(t, "\"\t\"") && Accepted(t, "\"\\\n\"")
  {
    hide ReadByEngine, Accepted, IsStringToken, JsonStrings.Unquote, Spelled, Advancing, ParseText;
    LooseQuoted();
    LooseQuotes();
    OneString(t, "\"\\q\"", JsonStrings.Alone(113));
    OneString(t, "\"\t\"", JsonStrings.Alone(9));
    OneString(t, "\"\\\n\"", JsonStrings.EMPTY);
  }

  /** The parser skips the blanks of RFC 8259, vertical tabs and form feeds, and nothing else. */
  lemma BlanksExact(t: Tokens, c: char)
    requires ReadByEngine(t)
    ensures Advancing(t)
    ensures ParseText(t, "null" + [c]).Some? <==> IsBlank(c) || c == 11 as char || c == 12 as char
    ensures ParseText(t, "null" + [c]).Some? ==> ParseText(t, "null" + [c]) == Some(Null)
  {
    hide ReadByEngine, ParseElems, ParseMembers;
    ReaderAdvances(t);
    var s := "null" + [c];
    SkipNone(s, 0);
    assert s[4] == c && Skip(s, 5) == 5;
  }
}
