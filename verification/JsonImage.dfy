/** What JSON keeps of a value: the value that printing it and parsing the text gives. */
module JsonImage {
  import opened Options
  import opened Json
  import opened JsonPrinter
  import Binary64

  /** Nothing undefined is left, no NaN or infinity, and no sign of a zero. */
  function Image(v: Value): Value {
    match v
    case Undefined => Null
    case Number(n) => if !IsFinite(n) then Null else if IsMinusZero(n) then Number(0) else v
    case Arr(elems) => Arr(ImageElems(elems))
    case Obj(members) => Obj(ImageMembers(members))
    case _ => v
  }

  function ImageElems(elems: seq<Value>): seq<Value> {
    if elems == [] then [] else [Image(elems[0])] + ImageElems(elems[1..])
  }

  /** Members whose value is undefined are left out. */
  function ImageMembers(members: seq<Member>): seq<Member> {
    if members == [] then []
    else if members[0].value.Undefined? then ImageMembers(members[1..])
    else [Member(members[0].key, Image(members[0].value))] + ImageMembers(members[1..])
  }

  // ---------- the image is printed alike ----------

  lemma {:induction false} ImageText(t: Tokens, v: Value)
    requires t.numText(Binary64.TWO63) == t.numText(0)
    ensures Text(t, Image(v)) == Text(t, v)
    decreases v, 1
  {
    hide ImageElems, ImageMembers, ElemsText, MembersText;
    match v
    case Arr(elems) => ImageElemsText(t, elems, true);
    case Obj(members) => ImageMembersText(t, members, true);
    case _ =>
  }

  lemma {:induction false} ImageElemsText(t: Tokens, elems: seq<Value>, first: bool)
    requires t.numText(Binary64.TWO63) == t.numText(0)
    ensures ElemsText(t, ImageElems(elems), first) == ElemsText(t, elems, first)
    decreases elems, 0
  {
    hide Image, Text;
    if elems != [] {
      ImageText(t, elems[0]);
      ImageElemsText(t, elems[1..], false);
      assert ImageElems(elems)[1..] == ImageElems(elems[1..]);
    }
  }

  lemma {:induction false} ImageMembersText(t: Tokens, members: seq<Member>, first: bool)
    requires t.numText(Binary64.TWO63) == t.numText(0)
    ensures MembersText(t, ImageMembers(members), first) == MembersText(t, members, first)
    decreases members, 0
  {
    hide Image, Text;
    if members != [] {
      var m, rest := members[0], members[1..];
      if m.value.Undefined? {
        ImageMembersText(t, rest, first);
      } else {
        assert m in members;
        ImageText(t, m.value);
        ImageDefined(m.value);
        ImageMembersText(t, rest, false);
        assert ImageMembers(members)[1..] == ImageMembers(rest);
      }
    }
  }

  lemma ImageDefined(v: Value)
    ensures !Image(v).Undefined?
  {}

  // ---------- the image is plain ----------

  lemma {:induction false} ImagePlain(v: Value)
    requires KeyedOnce(v)
    ensures Plain(Image(v)) && (Image(v) == v <==> Plain(v))
    decreases v, 1
  {
    hide ImageElems, ImageMembers;
    match v
    case Arr(elems) => ImageElemsPlain(elems);
    case Obj(members) => ImageMembersPlain(members);
    case _ =>
  }

  ghost predicate PlainElems(elems: seq<Value>) { forall k :: 0 <= k < |elems| ==> Plain(elems[k]) }

  ghost predicate PlainMembers(members: seq<Member>) { forall k :: 0 <= k < |members| ==> Plain(members[k].value) }

  lemma {:induction false} ImageElemsPlain(elems: seq<Value>)
    requires forall k :: 0 <= k < |elems| ==> KeyedOnce(elems[k])
    ensures PlainElems(ImageElems(elems)) && (ImageElems(elems) == elems <==> PlainElems(elems))
    decreases elems, 0
  {
    hide Image, Plain, KeyedOnce;
    if elems != [] {
      var image := ImageElems(elems[1..]);
      ImagePlain(elems[0]);
      ImageElemsPlain(elems[1..]);
      assert ImageElems(elems) == [Image(elems[0])] + image;
      assert elems == [elems[0]] + elems[1..];
      assert ImageElems(elems)[1..] == image;
      assert PlainElems(elems) <==> Plain(elems[0]) && PlainElems(elems[1..]);
    }
  }

  lemma {:induction false} ImageMembersPlain(members: seq<Member>)
    requires Distinct(members) && forall k :: 0 <= k < |members| ==> KeyedOnce(members[k].value)
    ensures PlainMembers(ImageMembers(members)) && Distinct(ImageMembers(members))
    ensures forall key :: HasKey(ImageMembers(members), key) ==> HasKey(members, key)
    ensures |ImageMembers(members)| <= |members|
    ensures ImageMembers(members) == members <==> PlainMembers(members)
    decreases members, 0
  {
    hide Image, Plain, KeyedOnce;
    if members != [] {
      var m, rest := members[0], members[1..];
      var image := ImageMembers(rest);
      assert m in members;
      ImageMembersPlain(rest);
      ImagePlain(m.value);
      assert members == [m] + rest;
      assert forall key :: HasKey(rest, key) ==> HasKey(members, key);
      if m.value.Undefined? {
        UndefinedNotPlain(m.value);
      } else {
        var head := Member(m.key, Image(m.value));
        assert ImageMembers(members) == [head] + image;
        assert ImageMembers(members)[1..] == image;
        assert !HasKey(rest, m.key);
        assert PlainMembers(members) <==> Plain(m.value) && PlainMembers(rest);
      }
    }
  }

  lemma UndefinedNotPlain(v: Value)
    requires v.Undefined?
    ensures !Plain(v)
  {}

  /** Whatever is printed, its image is parsed. */
  lemma TextGivesImage(t: Tokens, v: Value)
    requires RoundTripping(t) && t.numText(Binary64.TWO63) == t.numText(0) && KeyedOnce(v)
    ensures ParseText(t, Text(t, v)) == Some(Image(v))
  {
    hide *;
    ImageText(t, v);
    ImagePlain(v);
    TextRoundTrip(t, Image(v));
  }

  /** Printing a value and parsing what was printed gives its image. */
  method PrintAndParse(t: Tokens, v: Value) returns (out: string, ghost back: Option<Value>)
    requires RoundTripping(t) && t.numText(Binary64.TWO63) == t.numText(0) && KeyedOnce(v)
    ensures out == Text(t, v) && back == ParseText(t, out) == Some(Image(v))
    ensures Plain(v) ==> back == Some(v)
  {
    hide RoundTripping, Text, KeyedOnce, Image, Plain, ParseText;
    var p := new Printer(t);
    p.Stringify(v);
    out := p.out;
    TextGivesImage(t, v);
    ImagePlain(v);
    IsAdvancing(t);
    back := ParseText(t, out);
  }
}
