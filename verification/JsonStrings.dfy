/** Quoted strings: how the printer escapes them, and how the scanner of string literals reads them. */
module JsonStrings {
  import opened Options
  import opened Json

  // ---------- surrogates ----------

  const EMPTY: JsString := []

  function Alone(c: Point): JsString { [c] }

  predicate IsSurrogate(c: nat) { 0xD800 <= c < 0xE000 }

  /** The code point that a pair of surrogates stands for. */
  function Astral(high: Point, low: Point): (c: Point)
    requires IsHigh(high) && IsLow(low)
    ensures c >= 0x10000
  {
    (high - 0xD800) * 0x400 + (low - 0xDC00) + 0x10000
  }

  predicate Meet(a: seq<Point>, b: seq<Point>) { a != [] && b != [] && IsHigh(a[|a| - 1]) && IsLow(b[0]) }

  /** string_buffer_concat_str: two halves of a pair that meet become one code point. */
  function Concat(a: JsString, b: JsString): (w: JsString)
    ensures !Meet(a, b) ==> w == a + b
  {
    if Meet(a, b) then
      var w := a[..|a| - 1] + [Astral(a[|a| - 1], b[0])] + b[1..];
      ConcatFormed(a, b, w);
      w
    else a + b
  }

  lemma ConcatFormed(a: JsString, b: JsString, w: seq<Point>)
    requires Meet(a, b) && w == a[..|a| - 1] + [Astral(a[|a| - 1], b[0])] + b[1..]
    ensures Formed(w)
  {
    var n := |a| - 1;
    forall i | 0 <= i < |w| - 1 && IsHigh(w[i]) ensures !IsLow(w[i + 1]) {
      if i + 1 < n { assert w[i] == a[i] && w[i + 1] == a[i + 1]; }
      if i > n { assert w[i] == b[i - n] && w[i + 1] == b[i - n + 1]; }
    }
  }

  /** The order in which single code points are joined does not matter. */
  lemma ConcatOne(a: JsString, c: Point, b: JsString)
    ensures Formed([c])
    ensures Concat(a, Concat([c], b)) == Concat(Concat(a, [c]), b)
  {
    if Meet(a, [c]) {
      assert !Meet([c], b);
      assert ([c] + b)[1..] == b;
      assert Concat(a, [c] + b) == a[..|a| - 1] + [Astral(a[|a| - 1], c)] + b;
      assert Concat(a, [c]) == a[..|a| - 1] + [Astral(a[|a| - 1], c)] + [];
    } else if Meet([c], b) {
      assert Concat([c], b) == [Astral(c, b[0])] + b[1..];
      assert (a + [c])[..|a|] == a;
      assert Concat(a + [c], b) == a + [Astral(c, b[0])] + b[1..];
      assert a + ([Astral(c, b[0])] + b[1..]) == a + [Astral(c, b[0])] + b[1..];
    } else {
      assert a + ([c] + b) == a + [c] + b;
    }
  }

  // ---------- printing ----------

  function HexDigit(n: nat): char
    requires n < 16
  {
    if n < 10 then '0' + n as char else 'a' + (n - 10) as char
  }

  /** Four hexadecimal digits. */
  function Hex4(n: nat): string
    requires n < 0x10000
  {
    [HexDigit(n / 16 / 16 / 16), HexDigit(n / 16 / 16 % 16), HexDigit(n / 16 % 16), HexDigit(n % 16)]
  }

  /** The character that stands behind a backslash for c, if there is one. */
  function EscapeLetter(c: Point): Option<char> {
    if c == 9 then Some('t')
    else if c == 13 then Some('r')
    else if c == 10 then Some('n')
    else if c == 8 then Some('b')
    else if c == 12 then Some('f')
    else if c == 34 then Some('"')
    else if c == 92 then Some('\\')
    else None
  }

  function CharText(c: Point): (r: string)
    ensures r != []
  {
    if EscapeLetter(c).Some? then ['\\', EscapeLetter(c).value]
    else if c < 32 || IsSurrogate(c) then ['\\', 'u'] + Hex4(c)
    else [c as char]
  }

  /** The characters of w and the closing quote. */
  function Quote(w: seq<Point>): string {
    if w == [] then "\"" else CharText(w[0]) + Quote(w[1..])
  }

  /** to_quoted_string. */
  method QuotedString(w: JsString) returns (out: string)
    ensures out == "\"" + Quote(w)
  {
    out := "\"";
    var i := 0;
    while i < |w|
      invariant i <= |w| && out + Quote(w[i..]) == "\"" + Quote(w)
    {
      var c := w[i];
      assert w[i..][1..] == w[i + 1..];
      assert out + (CharText(c) + Quote(w[i + 1..])) == (out + CharText(c)) + Quote(w[i + 1..]);
      if EscapeLetter(c).Some? {
        out := out + ['\\', EscapeLetter(c).value];
      } else if c < 32 || IsSurrogate(c) {
        out := out + (['\\', 'u'] + Hex4(c));
      } else {
        out := out + [c as char];
      }
      i := i + 1;
    }
    out := out + "\"";
  }

  // ---------- escapes ----------

  /** What follows a backslash: nothing valid, no escape, or a code point and how many characters it took. */
  datatype Escape = Malformed | Unknown | Escaped(code: Point, len: nat)

  function HexValue(c: char): int {
    if '0' <= c <= '9' then c as int - '0' as int
    else if 'a' <= c <= 'f' then c as int - 'a' as int + 10
    else if 'A' <= c <= 'F' then c as int - 'A' as int + 10
    else -1
  }

  function Sixteens(n: nat): nat {
    if n == 0 then 1 else if n == 1 then 16 else if n == 2 then 0x100 else if n == 3 then 0x1000 else 0x10000
  }

  /** n more hexadecimal digits from i, after those worth c. */
  function HexRun(s: string, i: nat, n: nat, c: nat): (r: Option<nat>)
    ensures r.Some? && n > 0 ==> i + n <= |s|
    ensures r.Some? && n <= 4 && c < Sixteens(4 - n) ==> r.value < 0x10000
    decreases n
  {
    if n == 0 then Some(c)
    else if HexValue(At(s, i)) < 0 then None
    else HexRun(s, i + 1, n - 1, 16 * c + HexValue(At(s, i)))
  }

  /** Hexadecimal digits from i up to a closing brace, after those worth c; the place behind it. */
  function Braced(s: string, i: nat, c: nat): (r: Option<(nat, nat)>)
    ensures r.Some? ==> i < r.value.1 <= |s| && r.value.0 <= 0x10FFFF
    decreases Left(s, i)
  {
    var h := HexValue(At(s, i));
    if h < 0 || 16 * c + h > 0x10FFFF then None
    else if At(s, i + 1) == '}' then Some((16 * c + h, i + 2))
    else Braced(s, i + 1, 16 * c + h)
  }

  /** The escape at i, after its backslash. */
  function EscapeAt(s: string, i: nat): (r: Escape)
    ensures r.Escaped? ==> 0 < r.len && i + r.len <= |s|
  {
    var c := At(s, i);
    if c == 'b' then Escaped(8, 1)
    else if c == 'f' then Escaped(12, 1)
    else if c == 'n' then Escaped(10, 1)
    else if c == 'r' then Escaped(13, 1)
    else if c == 't' then Escaped(9, 1)
    else if c == 'v' then Escaped(11, 1)
    else if c == '\'' || c == '"' || c == '\\' then Escaped(c as nat, 1)
    else if c == 'x' then
      var h := HexRun(s, i + 1, 2, 0);
      if h.None? then Malformed else Escaped(h.value, 3)
    else if c == 'u' then
      if At(s, i + 1) == '{' then
        var b := Braced(s, i + 2, 0);
        if b.None? then Malformed else Escaped(b.value.0, b.value.1 - i)
      else
        var h := HexRun(s, i + 1, 4, 0);
        if h.None? then Malformed else Escaped(h.value, 5)
    else if c == '0' then
      if '0' <= At(s, i + 1) <= '9' then Malformed else Escaped(0, 1)
    else Unknown
  }

  /** js_parse_escape. */
  method ParseEscape(s: string, start: nat) returns (r: Escape)
    ensures r == EscapeAt(s, start)
  {
    hide HexRun, Braced, Sixteens, HexValue;
    var i, c := start + 1, At(s, start);
    match c
    case 'b' => return Escaped(8, 1);
    case 'f' => return Escaped(12, 1);
    case 'n' => return Escaped(10, 1);
    case 'r' => return Escaped(13, 1);
    case 't' => return Escaped(9, 1);
    case 'v' => return Escaped(11, 1);
    case '\'' | '"' | '\\' => return Escaped(c as nat, 1);
    case 'x' =>
      var h := HexDigits(s, i, 2);
      return if h.None? then Malformed else Escaped(h.value, 3);
    case 'u' =>
      if At(s, i) == '{' {
        var b := BracedDigits(s, i + 1);
        return if b.None? then Malformed else Escaped(b.value.0, b.value.1 - start);
      }
      var h := HexDigits(s, i, 4);
      return if h.None? then Malformed else Escaped(h.value, 5);
    case '0' =>
      if '0' <= At(s, i) <= '9' { return Malformed; }
      return Escaped(0, 1);
    case _ => return Unknown;
  }

  method HexDigits(s: string, i: nat, n: nat) returns (r: Option<nat>)
    requires 0 < n <= 4
    ensures r == HexRun(s, i, n, 0) && (r.Some? ==> r.value < 0x10000)
  {
    hide Sixteens, HexValue;
    var code: nat := 0;
    FourFit(s, i, n);
    for k := 0 to n
      invariant HexRun(s, i, n, 0) == HexRun(s, i + k, n - k, code)
    {
      var h := HexValue(At(s, i + k));
      if h < 0 { return None; }
      code := 16 * code + h;
    }
    r := Some(code);
  }

  lemma FourFit(s: string, i: nat, n: nat)
    requires 0 < n <= 4
    ensures var r := HexRun(s, i, n, 0); r.Some? ==> r.value < 0x10000
  {
    assert 0 < Sixteens(4 - n);
  }

  method BracedDigits(s: string, start: nat) returns (r: Option<(nat, nat)>)
    ensures r == Braced(s, start, 0)
  {
    var i: nat, code: nat := start, 0;
    while true
      invariant start <= i && Braced(s, start, 0) == Braced(s, i, code)
      decreases Left(s, i)
    {
      var h := HexValue(At(s, i));
      if h < 0 || 16 * code + h > 0x10FFFF { return None; }
      code := 16 * code + h;
      i := i + 1;
      if At(s, i) == '}' { return Some((code, i + 1)); }
    }
  }

  // ---------- reading ----------

  /** w in front of what is read further on. */
  function Before(w: JsString, rest: Option<(JsString, nat)>): Option<(JsString, nat)> {
    if rest.None? then None else Some((Concat(w, rest.value.0), rest.value.1))
  }

  /** The rest of a string literal from p: its characters, and the place behind its closing quote. */
  function Unquote(s: string, p: nat): (r: Option<(JsString, nat)>)
    ensures r.Some? ==> p < r.value.1 <= |s|
    decreases Left(s, p)
  {
    var c := At(s, p);
    if c == 0 as char || c == '\n' || c == '\r' then None
    else if c == '"' then Some((EMPTY, p + 1))
    else if c == '\\' then
      if At(s, p + 1) == '\n' then Unquote(s, p + 2)
      else
        match EscapeAt(s, p + 1)
        case Malformed => None
        case Unknown => Unquote(s, p + 1)
        case Escaped(code, len) => Before([code], Unquote(s, p + 1 + len))
    else Before([c as nat], Unquote(s, p + 1))
  }

  /** js_parse_string, for the quote that JSON uses. */
  method ParseString(s: string, p: nat) returns (r: Option<(JsString, nat)>)
    ensures r == Unquote(s, p)
  {
    hide Unquote, EscapeAt, Concat, Before;
    var out: JsString, pos := [], p;
    BehindNothing(Unquote(s, p));
    while true
      invariant p <= pos && Unquote(s, p) == Before(out, Unquote(s, pos))
      decreases Left(s, pos)
    {
      var c := At(s, pos);
      UnquoteStep(s, pos);
      NothingBefore(out);
      if c == 0 as char || c == '\n' || c == '\r' { return None; }
      pos := pos + 1;
      if c == '"' {
        Finished(out, pos);
        return Some((out, pos));
      }
      if c != '\\' {
        Behind(out, c as nat, Unquote(s, pos));
        out := Concat(out, [c as nat]);
      } else if At(s, pos) == '\n' {
        pos := pos + 1;
      } else {
        var e := ParseEscape(s, pos);
        match e
        case Malformed => return None;
        case Unknown =>
        case Escaped(code, len) =>
          pos := pos + len;
          Behind(out, code, Unquote(s, pos));
          out := Concat(out, [code]);
      }
    }
  }

  /** What the next character of a literal does. */
  lemma UnquoteStep(s: string, p: nat)
    ensures var c := At(s, p);
            Unquote(s, p)
            == if c == 0 as char || c == '\n' || c == '\r' then None
               else if c == '"' then Some((EMPTY, p + 1))
               else if c != '\\' then Before([c as nat], Unquote(s, p + 1))
               else if At(s, p + 1) == '\n' then Unquote(s, p + 2)
               else match EscapeAt(s, p + 1)
                    case Malformed => None
                    case Unknown => Unquote(s, p + 1)
                    case Escaped(code, len) => Before([code], Unquote(s, p + 1 + len))
  {
    hide Before, EscapeAt;
  }

  lemma NothingBefore(w: JsString)
    ensures Before(w, None) == None
  {}

  lemma Finished(w: JsString, p: nat)
    ensures Before(w, Some((EMPTY, p))) == Some((w, p))
  {
    assert w + EMPTY == w;
  }

  lemma BehindNothing(rest: Option<(JsString, nat)>)
    ensures Before([], rest) == rest
  {
    if rest.Some? { assert [] + rest.value.0 == rest.value.0; }
  }

  lemma Behind(a: JsString, c: Point, rest: Option<(JsString, nat)>)
    ensures Before(a, Before([c], rest)) == Before(Concat(a, [c]), rest)
  {
    if rest.Some? { ConcatOne(a, c, rest.value.0); }
  }

  // ---------- the round trip ----------

  /** Every string, whatever its characters, is read back from where it was printed. */
  lemma {:induction false} UnquoteQuoted(w: JsString, s: string, p: nat)
    requires Here(s, p, Quote(w))
    ensures Unquote(s, p) == Some((w, p + |Quote(w)|))
    decreases |w|
  {
    hide Here, CharText, Unquote;
    if w == [] {
      HereFirst(s, p, Quote(w));
      QuoteEnds(s, p);
    } else {
      var c := w[0];
      HereParts(s, p, CharText(c), Quote(w[1..]));
      TailFormed(w);
      UnquoteQuoted(w[1..], s, p + |CharText(c)|);
      CharReadBack(c, s, p);
      assert [c] + w[1..] == w;
    }
  }

  lemma TailFormed(w: JsString)
    requires w != []
    ensures Formed(w[1..]) && Formed([w[0]]) && !Meet([w[0]], w[1..])
  {}

  lemma QuoteEnds(s: string, p: nat)
    requires At(s, p) == '"'
    ensures Unquote(s, p) == Some((EMPTY, p + 1))
  {}

  lemma CharReadBack(c: Point, s: string, p: nat)
    requires Here(s, p, CharText(c))
    ensures Unquote(s, p) == Before([c], Unquote(s, p + |CharText(c)|))
  {
    hide Before, EscapeAt, Unquote;
    var t := CharText(c);
    UnquoteStep(s, p);
    HereAt(s, p, t, 0);
    if EscapeLetter(c).Some? {
      HereAt(s, p, t, 1);
      LetterRead(c, s, p + 1);
    } else if c < 32 || IsSurrogate(c) {
      HereAt(s, p, t, 1);
      forall k | 0 <= k < 4 ensures At(s, p + 1 + 1 + k) == Hex4(c)[k] { HereAt(s, p, t, 2 + k); }
      HexRead(c, s, p + 1);
    }
  }

  lemma HereAt(s: string, p: nat, w: string, k: nat)
    requires Here(s, p, w) && k < |w|
    ensures At(s, p + k) == w[k]
  {
    assert s[p..p + |w|][k] == s[p + k];
  }

  lemma LetterRead(c: Point, s: string, i: nat)
    requires EscapeLetter(c).Some? && At(s, i) == EscapeLetter(c).value
    ensures EscapeAt(s, i) == Escaped(c, 1) && At(s, i) != '\n'
  {}

  lemma HexRead(n: nat, s: string, i: nat)
    requires n < 0x10000 && At(s, i) == 'u' && forall k :: 0 <= k < 4 ==> At(s, i + 1 + k) == Hex4(n)[k]
    ensures EscapeAt(s, i) == Escaped(n, 5)
  {
    var h := Hex4(n);
    assert HexValue(At(s, i + 1 + 0)) == HexValue(h[0]) && HexValue(At(s, i + 1 + 1)) == HexValue(h[1]);
    assert HexValue(At(s, i + 1 + 2)) == HexValue(h[2]) && HexValue(At(s, i + 1 + 3)) == HexValue(h[3]);
    Hex4Value(n);
    hide HexDigit, HexValue, HexRun, Hex4, Braced;
    HexFour(s, i + 1, HexValue(h[0]), HexValue(h[1]), HexValue(h[2]), HexValue(h[3]));
    assert At(s, i + 1) == h[0];
  }

  lemma Hex4Value(n: nat)
    requires n < 0x10000
    ensures var h := Hex4(n);
            && HexValue(h[0]) >= 0 && HexValue(h[1]) >= 0 && HexValue(h[2]) >= 0 && HexValue(h[3]) >= 0 && h[0] != '{'
            && 16 * (16 * (16 * HexValue(h[0]) + HexValue(h[1])) + HexValue(h[2])) + HexValue(h[3]) == n
  {
    var a, b, c, d := n / 16 / 16 / 16, n / 16 / 16 % 16, n / 16 % 16, n % 16;
    HexDigitValue(a);
    HexDigitValue(b);
    HexDigitValue(c);
    HexDigitValue(d);
    FourDigits(n);
    hide HexDigit, HexValue;
  }

  lemma FourDigits(n: nat)
    ensures 16 * (16 * (16 * (n / 16 / 16 / 16) + n / 16 / 16 % 16) + n / 16 % 16) + n % 16 == n
  {}

  lemma HexFour(s: string, i: nat, a: nat, b: nat, c: nat, d: nat)
    requires HexValue(At(s, i)) == a && HexValue(At(s, i + 1)) == b
    requires HexValue(At(s, i + 2)) == c && HexValue(At(s, i + 3)) == d
    ensures HexRun(s, i, 4, 0) == Some(16 * (16 * (16 * a + b) + c) + d)
  {
    hide HexValue;
    var x := 16 * a + b;
    assert HexRun(s, i, 4, 0) == HexRun(s, i + 1, 3, a) == HexRun(s, i + 2, 2, x);
    assert HexRun(s, i + 2, 2, x) == HexRun(s, i + 3, 1, 16 * x + c) == HexRun(s, i + 4, 0, 16 * (16 * x + c) + d);
  }

  lemma HexDigitValue(n: nat)
    requires n < 16
    ensures HexValue(HexDigit(n)) == n && HexDigit(n) != '{'
  {}
}
