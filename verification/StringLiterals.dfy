/** The string literals js_parse_string reads, as section 7.8.4 of ECMA-262 has them but for what is noted. */
module StringLiterals {
  import opened Options
  import opened Json
  import opened JsonStrings
  import opened RfcTokens

  /** SingleEscapeCharacter. */
  function SingleEscape(c: char): Option<Point> {
    match c
    case 'b' => Some(0x08)
    case 't' => Some(0x09)
    case 'n' => Some(0x0A)
    case 'v' => Some(0x0B)
    case 'f' => Some(0x0C)
    case 'r' => Some(0x0D)
    case '"' => Some(0x22)
    case '\'' => Some(0x27)
    case '\\' => Some(0x5C)
    case _ => None
  }

  const NUL: char := 0 as char

  /** Neither the quote nor a backslash, and no line end or NUL; other control characters and U+2028 may stand as they are. */
  predicate IsPlain(c: char) { c != '"' && c != '\\' && c != '\n' && c != '\r' && c != NUL }

  /** A character that a backslash leaves as it is. */
  predicate IsIdentity(c: char) {
    SingleEscape(c).None? && c != 'x' && c != 'u' && c != '0' && c != '\n' && c != '\r' && c != NUL
  }

  /** One piece of a literal, what follows it, and the codes it stands for; a line continuation stands for none. */
  ghost predicate Piece(w: string, next: char, codes: seq<Point>) {
    || (|w| == 1 && IsPlain(w[0]) && codes == [w[0] as nat])
    || (w == ['\\', '\n'] && codes == [])
    || (|w| == 2 && w[0] == '\\' && SingleEscape(w[1]).Some? && codes == [SingleEscape(w[1]).value])
    || (|w| == 2 && w[0] == '\\' && IsIdentity(w[1]) && codes == [w[1] as nat])
    || (w == "\\0" && !('0' <= next <= '9') && codes == [0])
    || (|w| == 4 && w[0] == '\\' && w[1] == 'x' && IsHex(w[2..]) && [HexNumber(w[2..])] == codes)
    || (|w| == 6 && w[0] == '\\' && w[1] == 'u' && IsHex(w[2..]) && [HexNumber(w[2..])] == codes)
    || (|w| >= 5 && w[0] == '\\' && w[1] == 'u' && w[2] == '{' && w[|w| - 1] == '}' && IsHex(w[3..|w| - 1])
        && [HexNumber(w[3..|w| - 1])] == codes)
  }

  /** Pieces from p up to q. */
  ghost predicate Pieces(s: string, p: nat, q: nat, codes: seq<Point>)
    decreases q - p
  {
    && p <= q <= |s|
    && if p == q then codes == []
       else exists m: nat, n: nat {:trigger s[p..m], codes[..n]} ::
              p < m <= q && n <= |codes| && Piece(s[p..m], At(s, m), codes[..n]) && Pieces(s, m, q, codes[n..])
  }

  // ---------- hexadecimal digits ----------

  lemma HexJoin(a: string, b: string)
    ensures IsHex(a + b) <==> IsHex(a) && IsHex(b)
  {
    hide HexOf;
    if IsHex(a + b) {
      forall k | 0 <= k < |a| ensures HexOf(a[k]).Some? { assert (a + b)[k] == a[k]; }
      forall k | 0 <= k < |b| ensures HexOf(b[k]).Some? { assert (a + b)[|a| + k] == b[k]; }
    }
  }

  lemma HexSnoc(w: string, c: char)
    requires IsHex(w) && HexOf(c).Some?
    ensures IsHex(w + [c]) && HexNumber(w + [c]) == 16 * HexNumber(w) + HexValue(c) && HexValue(c) >= 0
  {
    hide HexOf, HexValue;
    HexAgrees(c);
    assert (w + [c])[..|w|] == w;
  }

  lemma HexOne(c: char)
    ensures IsHex([c]) <==> HexOf(c).Some?
    ensures HexOf(c).Some? <==> HexValue(c) >= 0
  {
    hide HexOf, HexValue;
    HexAgrees(c);
    assert IsHex([c]) ==> HexOf([c][0]).Some?;
  }

  /** n hexadecimal digits behind those of w. */
  lemma {:induction false} HexRunReads(s: string, i: nat, n: nat, w: string)
    requires i <= |s| && IsHex(w)
    ensures HexRun(s, i, n, HexNumber(w)).Some? <==> i + n <= |s| && IsHex(s[i..i + n])
    ensures i + n <= |s| && IsHex(s[i..i + n]) ==>
              IsHex(w + s[i..i + n]) && HexRun(s, i, n, HexNumber(w)) == Some(HexNumber(w + s[i..i + n]))
    decreases n
  {
    hide HexValue, HexOf, IsHex, HexNumber;
    if n == 0 {
      assert s[i..i] == [] && w + [] == w;
      NoHex();
    } else {
      NulNotHex();
      HexOne(At(s, i));
      if i + n <= |s| {
        assert s[i..i + n] == [s[i]] + s[i + 1..i + n];
        HexJoin([s[i]], s[i + 1..i + n]);
      }
      if i < |s| && HexOf(s[i]).Some? {
        HexSnoc(w, s[i]);
        HexRunReads(s, i + 1, n - 1, w + [s[i]]);
        if i + n <= |s| { assert w + s[i..i + n] == w + [s[i]] + s[i + 1..i + n]; }
      }
    }
  }

  lemma NoHex()
    ensures IsHex([]) && HexNumber([]) == 0
  {}

  lemma NulNotHex()
    ensures HexOf(NUL).None? && HexOf('}').None?
  {}

  /** Digits up to a closing brace, their number being a code point. */
  lemma {:induction false} BracedReads(s: string, i: nat, w: string)
    requires i <= |s| && IsHex(w)
    ensures var r := Braced(s, i, HexNumber(w));
            r.Some? ==> var e := r.value.1 - 1;
                        && i < e < |s| && s[e] == '}' && IsHex(s[i..e]) && IsHex(w + s[i..e]) && HexNumber(w + s[i..e]) == r.value.0
    decreases |s| - i
  {
    hide HexValue, HexOf, IsHex, HexNumber;
    NulNotHex();
    HexOne(At(s, i));
    var r := Braced(s, i, HexNumber(w));
    if r.Some? {
      HexSnoc(w, s[i]);
      var e := r.value.1 - 1;
      if At(s, i + 1) == '}' {
        assert s[i..e] == [s[i]];
      } else {
        BracedReads(s, i + 1, w + [s[i]]);
        assert s[i..e] == [s[i]] + s[i + 1..e];
        HexJoin([s[i]], s[i + 1..e]);
        assert w + s[i..e] == w + [s[i]] + s[i + 1..e];
      }
    }
  }

  lemma {:induction false} HexGrows(a: string, b: string)
    requires IsHex(a + b)
    ensures IsHex(a) && HexNumber(a) <= HexNumber(a + b)
    decreases |b|
  {
    hide HexOf, IsHex, HexNumber, HexValue;
    HexJoin(a, b);
    if b == [] {
      assert a + b == a;
    } else {
      var d := b[..|b| - 1];
      assert (a + b)[..|a + b| - 1] == a + d && a + b == a + d + [b[|b| - 1]];
      HexJoin(a + d, [b[|b| - 1]]);
      HexOne(b[|b| - 1]);
      HexSnoc(a + d, b[|b| - 1]);
      HexGrows(a, d);
    }
  }

  lemma {:induction false} BracedFound(s: string, i: nat, e: nat, w: string)
    requires i < e < |s| && s[e] == '}' && IsHex(w) && IsHex(s[i..e]) && IsHex(w + s[i..e]) && HexNumber(w + s[i..e]) <= 0x10FFFF
    ensures Braced(s, i, HexNumber(w)) == Some((HexNumber(w + s[i..e]), e + 1))
    decreases e - i
  {
    hide HexValue, HexOf, IsHex, HexNumber;
    assert s[i..e] == [s[i]] + s[i + 1..e];
    HexJoin([s[i]], s[i + 1..e]);
    HexOne(s[i]);
    HexSnoc(w, s[i]);
    assert w + s[i..e] == w + [s[i]] + s[i + 1..e];
    HexGrows(w + [s[i]], s[i + 1..e]);
    NulNotHex();
    if i + 1 < e {
      assert s[i + 1..e] == [s[i + 1]] + s[i + 2..e];
      HexJoin([s[i + 1]], s[i + 2..e]);
      HexOne(s[i + 1]);
      BracedFound(s, i + 1, e, w + [s[i]]);
    } else {
      assert s[i + 1..e] == [] && w + [s[i]] + [] == w + [s[i]];
    }
  }

  // ---------- escapes ----------

  /** An escape read is a piece that stands there. */
  lemma EscapedIsPiece(s: string, p: nat)
    requires At(s, p) == '\\' && EscapeAt(s, p + 1).Escaped?
    ensures var e := EscapeAt(s, p + 1); p + 1 + e.len <= |s| && Piece(s[p..p + 1 + e.len], At(s, p + 1 + e.len), [e.code])
  {
    hide HexRun, Braced, HexNumber, IsHex;
    var e, c := EscapeAt(s, p + 1), At(s, p + 1);
    var q := p + 1 + e.len;
    var w := s[p..q];
    assert w[0] == s[p] && w[1] == s[p + 1];
    NoHex();
    if c == 'x' {
      HexRunReads(s, p + 2, 2, []);
      SliceOf(s, p, q, 2, 4);
    } else if c == 'u' && At(s, p + 2) == '{' {
      BracedReads(s, p + 3, []);
      SliceOf(s, p, q, 3, |w| - 1);
      assert w[2] == s[p + 2] && w[|w| - 1] == s[q - 1];
    } else if c == 'u' {
      HexRunReads(s, p + 2, 4, []);
      SliceOf(s, p, q, 2, 6);
    } else {
      EscapedSingle(s, p + 1);
      assert w == [s[p], s[p + 1]];
    }
  }

  lemma EscapedSingle(s: string, i: nat)
    requires EscapeAt(s, i).Escaped? && At(s, i) != 'x' && At(s, i) != 'u'
    ensures var e, c := EscapeAt(s, i), At(s, i);
            && e.len == 1 && i < |s|
            && (SingleEscape(c) == Some(e.code) || (c == '0' && e.code == 0 && !('0' <= At(s, i + 1) <= '9')))
  {
    hide HexRun, Braced;
  }

  lemma UnknownIsIdentity(s: string, i: nat)
    ensures EscapeAt(s, i).Unknown? <==> IsIdentity(At(s, i)) || At(s, i) == '\n' || At(s, i) == '\r' || At(s, i) == NUL
    ensures SingleEscape(At(s, i)).Some? ==> EscapeAt(s, i) == Escaped(SingleEscape(At(s, i)).value, 1)
  {
    hide HexRun, Braced;
  }

  /** A piece that stands there is read. */
  lemma PieceIsRead(s: string, p: nat, m: nat, codes: seq<Point>)
    requires p < m <= |s| && Piece(s[p..m], At(s, m), codes)
    ensures |codes| <= 1
    ensures codes == [] ==> Unquote(s, p) == Unquote(s, m)
    ensures codes != [] ==> Unquote(s, p) == Before([codes[0]], Unquote(s, m))
  {
    hide Before, Unquote, EscapeAt, SingleEscape, IsHex, HexNumber;
    var w := s[p..m];
    assert w[0] == s[p];
    UnquoteStep(s, p);
    if |w| > 1 {
      assert w[1] == s[p + 1];
      LettersNotSingle();
      UnknownIsIdentity(s, p + 1);
      if SingleEscape(w[1]).Some? || w[1] == '\n' {
      } else if |w| == 2 && IsIdentity(w[1]) {
        assert IsPlain(w[1]) by { IdentityPlain(w[1]); }
        UnquoteStep(s, p + 1);
      } else {
        LongEscape(s, p, m, codes);
      }
    }
  }

  lemma LettersNotSingle()
    ensures SingleEscape('x').None? && SingleEscape('u').None? && SingleEscape('0').None? && SingleEscape('\n').None?
  {}

  lemma IdentityPlain(c: char)
    requires IsIdentity(c)
    ensures IsPlain(c)
  {}

  lemma LongEscape(s: string, p: nat, m: nat, codes: seq<Point>)
    requires p + 1 < m <= |s| && Piece(s[p..m], At(s, m), codes) && s[p] == '\\'
    requires SingleEscape(s[p + 1]).None? && !IsIdentity(s[p + 1]) && s[p + 1] != '\n'
    ensures |codes| == 1 && EscapeAt(s, p + 1) == Escaped(codes[0], m - p - 1)
  {
    hide HexRun, Braced, HexNumber, IsHex;
    var w := s[p..m];
    assert w[1] == s[p + 1];
    NoHex();
    if |w| > 2 && w[1] == 'x' {
      HexRunReads(s, p + 2, 2, []);
      SliceOf(s, p, m, 2, |w|);
    } else if |w| > 2 {
      assert w[2] == s[p + 2];
      if w[2] == '{' {
        BraceNoDigit(w[2..]);
        SliceOf(s, p, m, 3, |w| - 1);
        assert w[|w| - 1] == s[m - 1];
        assert IsHex(w[3..|w| - 1]) && codes[0] == HexNumber(w[3..|w| - 1]);
        BracedFound(s, p + 3, m - 1, []);
      } else {
        SliceOf(s, p, m, 2, |w|);
        HexRunReads(s, p + 2, 4, []);
      }
    }
  }

  lemma SliceOf(s: string, p: nat, m: nat, i: nat, j: nat)
    requires p <= m <= |s| && i <= j <= m - p
    ensures s[p..m][i..j] == s[p + i..p + j] && [] + s[p + i..p + j] == s[p + i..p + j]
    ensures j == m - p ==> s[p..m][i..] == s[p + i..p + j]
  {
    var w := s[p..m];
    forall k | i <= k < j ensures w[k] == s[p + k] {}
    assert w[i..j] == s[p + i..p + j];
    assert j == m - p ==> w[i..] == w[i..j];
  }

  lemma BraceNoDigit(w: string)
    requires w != [] && w[0] == '{'
    ensures !IsHex(w)
  {
    assert HexOf(w[0]).None?;
  }

  // ---------- literals ----------

  lemma {:induction false} PiecesRead(s: string, p: nat, q: nat, codes: seq<Point>)
    requires Pieces(s, p, q, codes) && At(s, q) == '"'
    ensures Unquote(s, p) == Some((Paired(codes), q + 1))
    decreases q - p
  {
    hide Unquote, Piece, Before, Concat;
    if p == q {
      QuoteEnds(s, p);
    } else {
      var m: nat, n: nat :| p < m <= q && n <= |codes| && Piece(s[p..m], At(s, m), codes[..n]) && Pieces(s, m, q, codes[n..]);
      PieceIsRead(s, p, m, codes[..n]);
      PiecesRead(s, m, q, codes[n..]);
      if n == 0 {
        assert codes[n..] == codes;
      } else {
        assert codes[..n][0] == codes[0];
        BeforeSome(codes[0], Paired(codes[1..]), q + 1);
      }
    }
  }

  lemma BeforeSome(c: Point, w: JsString, q: nat)
    ensures Before([c], Some((w, q))) == Some((Concat([c], w), q))
  {
    hide Concat;
  }

  lemma OnePiece(s: string, p: nat, m: nat, q: nat, first: seq<Point>, rest: seq<Point>)
    requires p < m <= q && Pieces(s, m, q, rest) && Piece(s[p..m], At(s, m), first)
    ensures Pieces(s, p, q, first + rest)
  {
    hide Piece;
    var codes, n := first + rest, |first|;
    assert codes[..n] == first && codes[n..] == rest;
  }

  lemma {:induction false} ReadIsPieces(s: string, p: nat) returns (codes: seq<Point>)
    requires Unquote(s, p).Some?
    ensures var (v, e) := Unquote(s, p).value; 0 < e <= |s| && s[e - 1] == '"' && Pieces(s, p, e - 1, codes) && v == Paired(codes)
    decreases Left(s, p)
  {
    hide Unquote, Piece, Before, Concat, EscapeAt;
    var c := At(s, p);
    UnquoteStep(s, p);
    NoneBefore();
    if c == '"' {
      codes := [];
    } else if c != '\\' {
      codes := ReadIsPieces(s, p + 1);
      PlainPiece(s, p);
      var (v, e) := Unquote(s, p + 1).value;
      BeforeSome(c as nat, v, e);
      OnePiece(s, p, p + 1, e - 1, [c as nat], codes);
      PairedFirst(c as nat, codes);
      codes := [c as nat] + codes;
    } else if At(s, p + 1) == '\n' {
      codes := ReadIsPieces(s, p + 2);
      ContinuedPiece(s, p);
      OnePiece(s, p, p + 2, Unquote(s, p).value.1 - 1, [], codes);
      assert [] + codes == codes;
    } else if EscapeAt(s, p + 1).Unknown? {
      codes := ReadUnknown(s, p);
    } else {
      var x := EscapeAt(s, p + 1);
      codes := ReadIsPieces(s, p + 1 + x.len);
      EscapedIsPiece(s, p);
      var (v, e) := Unquote(s, p + 1 + x.len).value;
      BeforeSome(x.code, v, e);
      OnePiece(s, p, p + 1 + x.len, e - 1, [x.code], codes);
      PairedFirst(x.code, codes);
      codes := [x.code] + codes;
    }
  }

  /** A backslash that is dropped, and the character behind it. */
  lemma {:induction false} ReadUnknown(s: string, p: nat) returns (codes: seq<Point>)
    requires At(s, p) == '\\' && At(s, p + 1) != '\n' && EscapeAt(s, p + 1).Unknown? && Unquote(s, p).Some?
    ensures var (v, e) := Unquote(s, p).value; 0 < e <= |s| && s[e - 1] == '"' && Pieces(s, p, e - 1, codes) && v == Paired(codes)
    decreases Left(s, p), 0
  {
    hide Unquote, Piece, Before, Concat, EscapeAt;
    var c := At(s, p + 1);
    UnquoteStep(s, p);
    UnquoteStep(s, p + 1);
    UnknownIsIdentity(s, p + 1);
    NoneBefore();
    IdentityPlain(c);
    codes := ReadIsPieces(s, p + 2);
    IdentityPiece(s, p);
    var (v, e) := Unquote(s, p + 2).value;
    BeforeSome(c as nat, v, e);
    OnePiece(s, p, p + 2, e - 1, [c as nat], codes);
    PairedFirst(c as nat, codes);
    codes := [c as nat] + codes;
  }

  lemma NoneBefore()
    ensures forall w :: Before(w, None) == None
  {}

  lemma PairedFirst(c: Point, rest: seq<Point>)
    ensures Paired([c] + rest) == Concat([c], Paired(rest))
  {
    hide Concat;
    assert ([c] + rest)[1..] == rest;
  }

  lemma PlainPiece(s: string, p: nat)
    requires IsPlain(At(s, p))
    ensures p < |s| && Piece(s[p..p + 1], At(s, p + 1), [At(s, p) as nat])
  {}

  lemma ContinuedPiece(s: string, p: nat)
    requires At(s, p) == '\\' && At(s, p + 1) == '\n'
    ensures p + 1 < |s| && Piece(s[p..p + 2], At(s, p + 2), [])
  {
    assert s[p..p + 2] == [s[p], s[p + 1]];
  }

  lemma IdentityPiece(s: string, p: nat)
    requires At(s, p) == '\\' && IsIdentity(At(s, p + 1))
    ensures p + 1 < |s| && Piece(s[p..p + 2], At(s, p + 2), [At(s, p + 1) as nat])
  {
    assert s[p..p + 2] == [s[p], s[p + 1]];
  }

  /** js_parse_string reads exactly these literals, each as the string its pieces stand for. */
  lemma LiteralsExact(s: string, p: nat, v: JsString, e: nat)
    ensures Unquote(s, p) == Some((v, e))
            <==> 0 < e <= |s| && s[e - 1] == '"' && exists codes :: Pieces(s, p, e - 1, codes) && v == Paired(codes)
  {
    hide Unquote, Pieces, Paired;
    if Unquote(s, p) == Some((v, e)) { var codes := ReadIsPieces(s, p); }
    if 0 < e <= |s| && s[e - 1] == '"' && exists codes :: Pieces(s, p, e - 1, codes) && v == Paired(codes) {
      var codes :| Pieces(s, p, e - 1, codes) && v == Paired(codes);
      PiecesRead(s, p, e - 1, codes);
    }
  }
}
