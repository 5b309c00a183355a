/** Subjects as the code points they encode: what the engine reads in bytes, said of characters. */
module RegexpText {
  import opened Bytes
  import opened Options
  import opened RegexpCode
  import opened RegexpPattern
  import opened RegexpProgram

  // ---------- UTF-8 ----------

  type CodePoint = c: nat | c < 0x110000

  /** Section 3 of RFC 3629; surrogates are encoded like any other code point. */
  function Utf8(c: CodePoint): (u: seq<byte>)
    ensures 1 <= |u| <= 4
  {
    if c < 0x80 then [c]
    else if c < 0x800 then [0xC0 + c / 0x40, 0x80 + c % 0x40]
    else if c < 0x10000 then [0xE0 + c / 0x1000, 0x80 + c / 0x40 % 0x40, 0x80 + c % 0x40]
    else [0xF0 + c / 0x40000, 0x80 + c / 0x1000 % 0x40, 0x80 + c / 0x40 % 0x40, 0x80 + c % 0x40]
  }

  /** Where an encoded character stands, it is what the engine reads. */
  lemma CharAtReads(s: seq<byte>, i: nat, c: CodePoint)
    requires i + |Utf8(c)| <= |s| && s[i..i + |Utf8(c)|] == Utf8(c)
    ensures CharAt(s, i) == (c, |Utf8(c)|)
  {
    hide CharAt, ByteAt;
    var u := Utf8(c);
    BytesOf(s, i, u);
    if c < 0x80 {
      ReadOne(s, i, c);
    } else if c < 0x800 {
      ReadTwo(s, i, c);
    } else if c < 0x10000 {
      ReadThree(s, i, c);
    } else {
      ReadFour(s, i, c);
    }
  }

  lemma BytesOf(s: seq<byte>, i: nat, u: seq<byte>)
    requires i + |u| <= |s| && s[i..i + |u|] == u
    ensures |u| > 0 ==> ByteAt(s, i) == u[0]
    ensures |u| > 1 ==> ByteAt(s, i + 1) == u[1]
    ensures |u| > 2 ==> ByteAt(s, i + 2) == u[2]
    ensures |u| > 3 ==> ByteAt(s, i + 3) == u[3]
  {
    forall k | 0 <= k < |u| ensures s[i + k] == u[k] { assert s[i..i + |u|][k] == s[i + k]; }
  }

  lemma ReadOne(s: seq<byte>, i: nat, c: nat)
    requires c < 0x80 && ByteAt(s, i) == c
    ensures CharAt(s, i) == (c, 1)
  {
    hide ByteAt;
  }

  lemma ReadTwo(s: seq<byte>, i: nat, c: nat)
    requires 0x80 <= c < 0x800 && ByteAt(s, i) == 0xC0 + c / 0x40 && ByteAt(s, i + 1) == 0x80 + c % 0x40
    ensures CharAt(s, i) == (c, 2)
  {
    hide ByteAt;
    Continued(c % 0x40);
  }

  lemma ReadThree(s: seq<byte>, i: nat, c: nat)
    requires 0x800 <= c < 0x10000 && ByteAt(s, i) == 0xE0 + c / 0x1000
    requires ByteAt(s, i + 1) == 0x80 + c / 0x40 % 0x40 && ByteAt(s, i + 2) == 0x80 + c % 0x40
    ensures CharAt(s, i) == (c, 3)
  {
    hide ByteAt;
    Continued(c % 0x40);
    Continued(c / 0x40 % 0x40);
    ThreeParts(c);
    Leading(c / 0x1000, 16, 0xE0);
  }

  lemma ReadFour(s: seq<byte>, i: nat, c: nat)
    requires 0x10000 <= c < 0x110000 && ByteAt(s, i) == 0xF0 + c / 0x40000 && ByteAt(s, i + 1) == 0x80 + c / 0x1000 % 0x40
    requires ByteAt(s, i + 2) == 0x80 + c / 0x40 % 0x40 && ByteAt(s, i + 3) == 0x80 + c % 0x40
    ensures CharAt(s, i) == (c, 4)
  {
    hide ByteAt;
    Continued(c % 0x40);
    Continued(c / 0x40 % 0x40);
    Continued(c / 0x1000 % 0x40);
    FourParts(c);
    Leading(c / 0x40000, 8, 0xF0);
  }

  lemma Continued(x: nat)
    requires x < 0x40
    ensures (0x80 + x) % 64 == x
  {}

  lemma Leading(x: nat, m: nat, base: nat)
    requires x < m && ((m == 8 && base == 0xF0) || (m == 16 && base == 0xE0))
    ensures (base + x) % m == x
  {}

  lemma ThreeParts(c: nat)
    ensures c / 0x1000 * 0x1000 + c / 0x40 % 0x40 * 0x40 + c % 0x40 == c
  {
    assert c / 0x1000 == c / 0x40 / 0x40;
  }

  lemma FourParts(c: nat)
    ensures c / 0x40000 * 0x40000 + c / 0x1000 % 0x40 * 0x1000 + c / 0x40 % 0x40 * 0x40 + c % 0x40 == c
  {
    assert c / 0x40000 == c / 0x1000 / 0x40 && c / 0x1000 == c / 0x40 / 0x40;
  }

  /** The first byte of a character continues none, the others do. */
  lemma Continuing(c: CodePoint)
    ensures Utf8(c)[0] / 64 != 2 && forall k :: 1 <= k < |Utf8(c)| ==> Utf8(c)[k] / 64 == 2
  {}

  // ---------- texts ----------

  function Encoded(cs: seq<CodePoint>): seq<byte> {
    if cs == [] then [] else Utf8(cs[0]) + Encoded(cs[1..])
  }

  /** The byte where character k starts, or the end. */
  function Offset(cs: seq<CodePoint>, k: nat): (o: nat)
    requires k <= |cs|
  {
    if k == 0 then 0 else |Utf8(cs[0])| + Offset(cs[1..], k - 1)
  }

  lemma OffsetZero(cs: seq<CodePoint>)
    ensures Offset(cs, 0) == 0
  {}

  lemma {:induction false} OffsetEnd(cs: seq<CodePoint>)
    ensures Offset(cs, |cs|) == |Encoded(cs)|
  {
    if cs != [] { OffsetEnd(cs[1..]); }
  }

  /** Character k stands at its offset. */
  lemma {:induction false} StandsAt(cs: seq<CodePoint>, k: nat)
    requires k < |cs|
    ensures var o, u := Offset(cs, k), Utf8(cs[k]);
            && o + |u| <= |Encoded(cs)| && Encoded(cs)[o..o + |u|] == u && Offset(cs, k + 1) == o + |u|
  {
    hide Utf8;
    var u0, rest := Utf8(cs[0]), Encoded(cs[1..]);
    if k == 0 {
      assert (u0 + rest)[..|u0|] == u0;
      assert Offset(cs[1..], 0) == 0;
    } else {
      StandsAt(cs[1..], k - 1);
      var o, u := Offset(cs[1..], k - 1), Utf8(cs[k]);
      assert cs[1..][k - 1] == cs[k];
      assert (u0 + rest)[|u0| + o..|u0| + o + |u|] == rest[o..o + |u|];
    }
  }

  lemma {:induction false} OffsetsGrow(cs: seq<CodePoint>, j: nat, k: nat)
    requires j <= k <= |cs|
    ensures Offset(cs, j) + (k - j) <= Offset(cs, k) <= |Encoded(cs)|
    decreases k - j
  {
    hide Utf8, Encoded, Offset;
    if j < k {
      StandsAt(cs, j);
      OffsetsGrow(cs, j + 1, k);
    } else if k < |cs| {
      StandsAt(cs, k);
    } else {
      OffsetEnd(cs);
    }
  }

  /** Reading at character k gives it, and the next one starts where it ends. */
  lemma CharAtOffset(cs: seq<CodePoint>, k: nat)
    requires k < |cs|
    ensures var o := Offset(cs, k);
            o < |Encoded(cs)| && CharAt(Encoded(cs), o) == (cs[k], |Utf8(cs[k])|) && o + CharAt(Encoded(cs), o).1 == Offset(cs, k + 1)
  {
    hide Utf8, Encoded, Offset, CharAt;
    StandsAt(cs, k);
    CharAtReads(Encoded(cs), Offset(cs, k), cs[k]);
  }

  lemma OffsetSame(cs: seq<CodePoint>, j: nat, k: nat)
    requires j <= |cs| && k <= |cs|
    ensures Offset(cs, j) == Offset(cs, k) <==> j == k
    ensures Offset(cs, j) < Offset(cs, k) <==> j < k
  {
    hide Offset;
    if j <= k { OffsetsGrow(cs, j, k); } else { OffsetsGrow(cs, k, j); }
  }

  /** Every byte of the text belongs to a character. */
  lemma {:induction false} InsideCharacter(cs: seq<CodePoint>, i: nat, k: nat) returns (j: nat)
    requires k <= |cs| && Offset(cs, k) <= i < |Encoded(cs)|
    ensures k <= j < |cs| && Offset(cs, j) <= i < Offset(cs, j + 1)
    decreases |cs| - k
  {
    hide Utf8, Encoded, Offset;
    if k == |cs| { OffsetEnd(cs); }
    if i < Offset(cs, k + 1) { j := k; } else { j := InsideCharacter(cs, i, k + 1); }
  }

  /** A byte within a character. */
  lemma ByteInside(cs: seq<CodePoint>, j: nat, i: nat)
    requires j < |cs| && Offset(cs, j) <= i < Offset(cs, j + 1)
    ensures i < |Encoded(cs)| && Encoded(cs)[i] / 64 == 2 <==> i != Offset(cs, j)
  {
    hide Utf8, Encoded, Offset;
    StandsAt(cs, j);
    Continuing(cs[j]);
    var o := Offset(cs, j);
    assert Encoded(cs)[o..o + |Utf8(cs[j])|][i - o] == Encoded(cs)[i];
  }

  /** No character of such a text is cut off. */
  lemma EncodedWhole(cs: seq<CodePoint>)
    ensures WholeChars(Encoded(cs))
  {
    hide Utf8, Encoded, Offset;
    var s := Encoded(cs);
    forall i | 0 <= i < |s| ensures i + CharAt(s, i).1 <= |s| {
      assert Offset(cs, 0) == 0 by { OffsetZero(cs); }
      var j := InsideCharacter(cs, i, 0);
      if i == Offset(cs, j) {
        CharAtOffset(cs, j);
        OffsetsGrow(cs, j + 1, |cs|);
        OffsetEnd(cs);
      } else {
        ByteInside(cs, j, i);
      }
    }
  }

  // ---------- going from character to character ----------

  /** From a character on, the boundaries are where characters start, and the end. */
  lemma {:induction false} BoundaryReads(cs: seq<CodePoint>, j: nat, d: nat)
    requires j <= |cs|
    ensures Boundary(Encoded(cs), Offset(cs, j), d) <==> exists k :: j <= k <= |cs| && d == Offset(cs, k)
    decreases |cs| - j
  {
    hide Utf8, Encoded, Offset, CharAt;
    if j == |cs| {
      OffsetEnd(cs);
    } else {
      CharAtOffset(cs, j);
      BoundaryReads(cs, j + 1, d);
    }
  }

  /** Back from anywhere in a character, or from its end, to its start. */
  lemma {:induction false} PreviousInside(cs: seq<CodePoint>, k: nat, i: nat)
    requires k < |cs| && Offset(cs, k) < i <= Offset(cs, k + 1)
    ensures Previous(Encoded(cs), i) == Offset(cs, k)
    decreases i
  {
    hide Utf8, Encoded, Offset;
    if i > 1 {
      ByteInside(cs, k, i - 1);
      OffsetsGrow(cs, k + 1, |cs|);
      OffsetEnd(cs);
      if i - 1 != Offset(cs, k) { PreviousInside(cs, k, i - 1); }
    }
  }

  /** Before character k stands the one before it. */
  lemma PreviousReads(cs: seq<CodePoint>, k: nat)
    requires 0 < k <= |cs|
    ensures Previous(Encoded(cs), Offset(cs, k)) == Offset(cs, k - 1)
    ensures CharAt(Encoded(cs), Previous(Encoded(cs), Offset(cs, k))).0 == cs[k - 1]
  {
    hide Utf8, Encoded, Offset, CharAt, Previous;
    OffsetsGrow(cs, k - 1, k);
    PreviousInside(cs, k - 1, Offset(cs, k));
    CharAtOffset(cs, k - 1);
  }

  // ---------- symbols ----------

  /** Section 7.3 of ECMA-262. */
  predicate LineEnd(c: nat) { c in {0x0A, 0x0D, 0x2028, 0x2029} }

  /** Sections 7.2 and 7.3: tab, vertical tab, form feed, the spaces of Unicode, the byte order mark, and line ends. */
  predicate White(c: nat) {
    LineEnd(c) || c in {0x09, 0x0B, 0x0C, 0x20, 0xA0, 0x1680, 0x202F, 0x205F, 0x3000, 0xFEFF} || 0x2000 <= c <= 0x200A
  }

  /** Section 15.10.2.6: letters and digits of ASCII, and the underscore. */
  predicate Word(c: nat) {
    c < 0x80 && var d := c as char; 'a' <= d <= 'z' || 'A' <= d <= 'Z' || '0' <= d <= '9' || d == '_'
  }

  function Next(ok: bool, k: nat): Option<nat> { if ok then Some(k) else None }

  /** What a symbol found before character k matches: the character after which it goes on. */
  function SymbolMeans(sym: Sym, cs: seq<CodePoint>, k: nat): (r: Option<nat>)
    requires k <= |cs|
    ensures r.Some? ==> k <= r.value <= |cs|
  {
    match sym
    case NoLineEnd => Next(k < |cs| && !LineEnd(cs[k]), k + 1)
    case AnyChar => Next(k < |cs|, k + 1)
    case Space => Next(k < |cs| && White(cs[k]), k + 1)
    case NoSpace => Next(k < |cs| && !White(cs[k]), k + 1)
    case AtStart => Next(k == 0, k)
    case AtLineStart => Next(k == 0 || LineEnd(cs[k - 1]), k)
    case AtEnd => Next(k == |cs|, k)
    case AtLineEnd => Next(k == |cs| || LineEnd(cs[k]), k)
    case WordEdge => Next((k > 0 && Word(cs[k - 1])) != (k < |cs| && Word(cs[k])), k)
    case NoWordEdge => Next((k > 0 && Word(cs[k - 1])) == (k < |cs| && Word(cs[k])), k)
  }

  function OffsetOf(cs: seq<CodePoint>, k: Option<nat>): Option<nat>
    requires k.Some? ==> k.value <= |cs|
  {
    if k.Some? then Some(Offset(cs, k.value)) else None
  }

  lemma SameKinds(c: nat)
    ensures IsLineTerminator(c) <==> LineEnd(c)
    ensures IsWordChar(c) <==> Word(c)
    ensures White(c) <==> if c < 128 then 9 <= c <= 13 || c == 32 else IsSpaceBeyondAscii(c)
  {}

  /** The first byte is a character of ASCII, or belongs to one beyond it. */
  lemma FirstByte(cs: seq<CodePoint>, k: nat)
    requires k < |cs|
    ensures var b := ByteAt(Encoded(cs), Offset(cs, k)); if cs[k] < 128 then b == cs[k] else b >= 128
  {
    hide Encoded, Offset;
    StandsAt(cs, k);
    var o, u := Offset(cs, k), Utf8(cs[k]);
    assert Encoded(cs)[o..o + |u|][0] == Encoded(cs)[o];
  }

  /** Symbols match what they mean of the characters. */
  lemma SymbolReads(sym: Sym, cs: seq<CodePoint>, k: nat)
    requires k <= |cs|
    ensures SymbolEnd(sym, Encoded(cs), Offset(cs, k)) == OffsetOf(cs, SymbolMeans(sym, cs, k))
  {
    hide Utf8, Encoded, Offset, CharAt, Previous, ByteAt, IsLineTerminator, LineEnd, White, IsSpaceBeyondAscii, IsWordChar, Word;
    OffsetEnd(cs);
    OffsetZero(cs);
    OffsetSame(cs, 0, k);
    OffsetSame(cs, k, |cs|);
    if k > 0 {
      PreviousReads(cs, k);
      SameKinds(cs[k - 1]);
    }
    if k < |cs| {
      CharAtOffset(cs, k);
      SameKinds(cs[k]);
      FirstByte(cs, k);
      SameKinds(ByteAt(Encoded(cs), Offset(cs, k)));
    }
  }

  // ---------- characters, classes and back references ----------

  /** An encoded character in a pattern matches that character and no other. */
  lemma CharReads(c: CodePoint, cs: seq<CodePoint>, k: nat, caps: seq<nat>)
    requires k <= |cs|
    ensures Matches(Chars(Utf8(c)), Encoded(cs), Offset(cs, k), caps)
            == if k < |cs| && cs[k] == c then [Way(Offset(cs, k + 1), caps)] else []
  {
    hide Utf8, Encoded, Offset, CharAt;
    var s, o, u := Encoded(cs), Offset(cs, k), Utf8(c);
    if k < |cs| {
      StandsAt(cs, k);
      CharAtOffset(cs, k);
      if o + |u| <= |s| && s[o..o + |u|] == u { CharAtReads(s, o, c); }
    } else {
      OffsetEnd(cs);
    }
  }

  /** A class matches a character that it holds. */
  lemma ClassReads(t: seq<nat>, cs: seq<CodePoint>, k: nat, caps: seq<nat>)
    requires k <= |cs|
    ensures Matches(Class(t), Encoded(cs), Offset(cs, k), caps)
            == if k < |cs| && InClass(t, cs[k]) then [Way(Offset(cs, k + 1), caps)] else []
  {
    hide Utf8, Encoded, Offset, CharAt, InClass;
    if k < |cs| { CharAtOffset(cs, k); } else { OffsetEnd(cs); }
  }

  predicate Alike(a: nat, b: nat, fold: bool) { if fold then Canonical(a) == Canonical(b) else a == b }

  predicate SameRun(a: seq<CodePoint>, b: seq<CodePoint>, fold: bool) {
    |a| == |b| && forall m :: 0 <= m < |a| ==> Alike(a[m], b[m], fold)
  }

  /** The characters i to j stand again from k on. */
  predicate Again(cs: seq<CodePoint>, i: nat, j: nat, k: nat, fold: bool)
    requires i <= j <= |cs|
  {
    k + (j - i) <= |cs| && SameRun(cs[i..j], cs[k..k + (j - i)], fold)
  }

  /** A back reference matches the characters captured, wherever they stand again. */
  lemma {:induction false} SameTextReads(cs: seq<CodePoint>, i: nat, j: nat, k: nat, fold: bool)
    requires i <= j <= |cs| && k <= |cs|
    ensures SameText(Encoded(cs), Offset(cs, i), Offset(cs, j), Offset(cs, k), fold)
            == if Again(cs, i, j, k, fold) then Some(Offset(cs, k + (j - i))) else None
    decreases j - i
  {
    hide Utf8, Encoded, Offset, CharAt, Canonical;
    OffsetSame(cs, i, j);
    OffsetEnd(cs);
    OffsetSame(cs, k, |cs|);
    if i < j && k < |cs| {
      CharAtOffset(cs, i);
      CharAtOffset(cs, k);
      SameTextReads(cs, i + 1, j, k + 1, fold);
      AgainFirst(cs, i, j, k, fold);
    }
  }

  lemma AgainFirst(cs: seq<CodePoint>, i: nat, j: nat, k: nat, fold: bool)
    requires i < j <= |cs| && k < |cs|
    ensures Again(cs, i, j, k, fold) <==> Alike(cs[i], cs[k], fold) && Again(cs, i + 1, j, k + 1, fold)
  {
    hide Alike, SameRun;
    if k + (j - i) <= |cs| {
      var a, b := cs[i..j], cs[k..k + (j - i)];
      assert a[0] == cs[i] && b[0] == cs[k];
      assert a[1..] == cs[i + 1..j] && b[1..] == cs[k + 1..k + 1 + (j - (i + 1))];
      RunFirst(a, b, fold);
    }
  }

  lemma RunFirst(a: seq<CodePoint>, b: seq<CodePoint>, fold: bool)
    requires |a| == |b| > 0
    ensures SameRun(a, b, fold) <==> Alike(a[0], b[0], fold) && SameRun(a[1..], b[1..], fold)
  {
    hide Alike;
    var c, d := a[1..], b[1..];
    if SameRun(a, b, fold) {
      forall m | 0 <= m < |c| ensures Alike(c[m], d[m], fold) { assert c[m] == a[m + 1] && d[m] == b[m + 1]; }
    }
    if Alike(a[0], b[0], fold) && SameRun(c, d, fold) {
      forall m | 0 <= m < |a| ensures Alike(a[m], b[m], fold) { if m > 0 { assert a[m] == c[m - 1] && b[m] == d[m - 1]; } }
    }
  }
}
