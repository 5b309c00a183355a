/**
 The regexp bytecode, and the backtracking machine it is meant for: every frame holds a snapshot of
 all captures and registers, and backtracking puts the snapshot back.
 */
module RegexpCode {
  import opened Bytes
  import opened Options

  const SPLIT: nat := 0
  const LOOKAHEAD: nat := 1
  const NEGATIVE_LOOKAHEAD: nat := 2

  /** What one-byte instructions look for: a character of some kind, or a place between two. */
  datatype Sym = NoLineEnd | AnyChar | Space | NoSpace | AtStart | AtLineStart | AtEnd | AtLineEnd | WordEdge | NoWordEdge

  /** What a capture that took no part holds. */
  const UNSET: nat := 0xffff_ffff

  /** One instruction; offsets count from the end of the instruction. */
  datatype Instr =
    | Match
    | Literal(bytes: seq<byte>)
    | Symbol(sym: Sym)
    | Range(intervals: seq<nat>)
    | SmallRange(ends: seq<nat>)
    | BackReference(group: nat, fold: bool)
    | Split(nextFirst: bool, offset: int)
    | Lookahead(negative: bool, offset: int)
    | Goto(offset: int)
    | LookaheadMatch
    | NegativeLookaheadMatch
    | Save(index: nat)
    | SaveReset(first: nat, last: nat)
    | SetRegister(reg: nat, value: nat)
    | Loop(reg: nat, offset: int)
    | LoopSplit(reg: nat, limit: nat, offset: int, nextFirst: bool, checkAdvance: bool)
    | SetCharPos(reg: nat)
    | CheckAdvance(reg: nat)
    | Invalid

  // ---------- decoding ----------

  /** A jump distance is a signed 32-bit word. */
  function S32(b: seq<byte>, i: nat): int
    requires i + 4 <= |b|
  {
    if U32(b, i) < 0x8000_0000 then U32(b, i) else U32(b, i) - WORD
  }

  /** The interval ends of a range instruction whose table starts at i. */
  function Table(b: seq<byte>, i: nat, n: nat): seq<nat>
    requires i + 8 * n <= |b|
  {
    seq(2 * n, (k: nat) requires k < 2 * n => U32(b, i + 4 * k))
  }

  /** Size of the instruction with opcode op, its interval table not counted; 0 for an opcode outside this model. */
  function Size(op: byte): nat {
    match op
    case 1 => 2
    case 2 => 3
    case 3 => 4
    case 4 => 5
    case 5 | 6 | 7 | 8 | 9 | 10 | 11 | 12 | 16 | 17 | 18 | 28 | 29 => 1
    case 13 | 14 | 15 | 34 | 35 => 5
    case 19 | 20 | 30 | 31 | 32 => 2
    case 21 => 3
    case 22 | 27 => 6
    case 23 | 24 | 25 | 26 => 10
    case 33 => 3
    case 36 | 37 => 2
    case _ => 0
  }

  function SymOf(op: byte): Sym {
    match op
    case 5 => NoLineEnd
    case 6 => AnyChar
    case 7 => Space
    case 8 => NoSpace
    case 9 => AtStart
    case 10 => AtLineStart
    case 11 => AtEnd
    case 12 => AtLineEnd
    case 28 => WordEdge
    case _ => NoWordEdge
  }

  /** The instruction at pc, and where the next one starts. */
  function Fetch(b: seq<byte>, pc: int): (r: (Instr, int))
    ensures r.0 != Invalid ==> r.1 > pc
  {
    if !(0 <= pc < |b|) || Size(b[pc]) == 0 || pc + Size(b[pc]) > |b| then (Invalid, pc)
    else
      var op, i, next := b[pc], pc + 1, pc + Size(b[pc]);
      if op <= 4 then (Literal(b[i..next]), next)
      else if op <= 12 || op == 28 || op == 29 then (Symbol(SymOf(op)), next)
      else if op == 13 then (Goto(S32(b, i)), next)
      else if op == 14 || op == 15 then (Split(op == 15, S32(b, i)), next)
      else if op == 16 then (Match, next)
      else if op == 17 then (LookaheadMatch, next)
      else if op == 18 then (NegativeLookaheadMatch, next)
      else if op == 19 || op == 20 then (Save(2 * b[i] as int + op as int - 19), next)
      else if op == 21 then (SaveReset(b[i], b[i + 1]), next)
      else if op == 22 then (Loop(b[i], S32(b, i + 1)), next)
      else if op <= 26 then
        (LoopSplit(b[i], U32(b, i + 1), S32(b, i + 5), op == 24 || op == 26, op >= 25), next)
      else if op == 27 then (SetRegister(b[i], U32(b, i + 1)), next)
      else if op == 34 || op == 35 then (Lookahead(op == 35, S32(b, i)), next)
      else if op == 30 || op == 31 then (BackReference(b[i], op == 31), next)
      else if op == 32 then
        var n: nat := b[i];
        if 0 < n && next + 2 * n <= |b| then (SmallRange(b[next..next + 2 * n]), next + 2 * n) else (Invalid, pc)
      else if op == 36 then (SetCharPos(b[i]), next)
      else if op == 37 then (CheckAdvance(b[i]), next)
      else
        var n := U16(b, i);
        if i + 2 + 8 * n <= |b| then (Range(Table(b, i + 2, n)), next + 8 * n) else (Invalid, pc)
  }

  // ---------- reading the subject ----------

  /** Byte i of the subject; the one after the last is zero, as is what a truncated sequence would read. */
  function ByteAt(s: seq<byte>, i: nat): byte { if i < |s| then s[i] else 0 }

  /** The code point at i and its length in bytes. */
  function CharAt(s: seq<byte>, i: nat): (r: (nat, nat))
    ensures 1 <= r.1 <= 4
  {
    var c, c1, c2, c3 := ByteAt(s, i), ByteAt(s, i + 1) % 64, ByteAt(s, i + 2) % 64, ByteAt(s, i + 3) % 64;
    if c < 0xc0 then (c, 1)
    else if c < 0xe0 then (c % 32 * 64 + c1, 2)
    else if c < 0xf0 then (c % 16 * 4096 + c1 * 64 + c2, 3)
    else if c < 0xf8 then (c % 8 * 262144 + c1 * 4096 + c2 * 64 + c3, 4)
    else (c, 1)
  }

  predicate IsLineTerminator(c: nat) { c == 10 || c == 13 || c == 0x2028 || c == 0x2029 }

  predicate IsWordChar(c: nat) { 0x30 <= c <= 0x39 || 0x61 <= c <= 0x7a || 0x41 <= c <= 0x5a || c == 0x5f }

  predicate IsSpaceBeyondAscii(c: nat) {
    c in {0xA0, 0x1680, 0x2028, 0x2029, 0x202F, 0x205F, 0x3000, 0xFEFF} || 0x2000 <= c <= 0x200A
  }

  predicate IsSpaceAt(s: seq<byte>, i: nat) {
    var c := ByteAt(s, i);
    if c < 128 then 9 <= c <= 13 || c == 32 else IsSpaceBeyondAscii(CharAt(s, i).0)
  }

  /** Where the character before i starts: back over continuation bytes, within the subject. */
  function Previous(s: seq<byte>, i: nat): nat {
    if i <= 1 then 0
    else if ByteAt(s, i - 1) / 64 == 2 then Previous(s, i - 1)
    else i - 1
  }

  predicate WordBefore(s: seq<byte>, i: nat) { i > 0 && IsWordChar(CharAt(s, Previous(s, i)).0) }

  predicate WordAfter(s: seq<byte>, i: nat) { i < |s| && IsWordChar(CharAt(s, i).0) }

  /** Where a symbol found at c ends. */
  function SymbolEnd(sym: Sym, s: seq<byte>, c: nat): Option<nat> {
    var next := c + CharAt(s, c).1;
    match sym
    case NoLineEnd => if c < |s| && !IsLineTerminator(CharAt(s, c).0) then Some(next) else None
    case AnyChar => if c < |s| then Some(next) else None
    case Space => if c < |s| && IsSpaceAt(s, c) then Some(next) else None
    case NoSpace => if c < |s| && !IsSpaceAt(s, c) then Some(next) else None
    case AtStart => if c == 0 then Some(c) else None
    case AtLineStart => if c == 0 || IsLineTerminator(CharAt(s, Previous(s, c)).0) then Some(c) else None
    case AtEnd => if c == |s| then Some(c) else None
    case AtLineEnd => if c == |s| || IsLineTerminator(CharAt(s, c).0) then Some(c) else None
    case WordEdge => if WordBefore(s, c) != WordAfter(s, c) then Some(c) else None
    case NoWordEdge => if WordBefore(s, c) == WordAfter(s, c) then Some(c) else None
  }

  predicate TakesChar(sym: Sym) { sym.NoLineEnd? || sym.AnyChar? || sym.Space? || sym.NoSpace? }

  /** Letters of ASCII without their case. */
  function Canonical(c: nat): nat { if 0x41 <= c <= 0x5a then c + 0x20 else c }

  /** Where the characters from..to, found again at c, end. */
  function SameText(s: seq<byte>, from: nat, to: nat, c: nat, fold: bool): (r: Option<nat>)
    ensures r.Some? ==> c <= r.value
    decreases if from < to then to - from else 0
  {
    if from >= to then Some(c)
    else if c >= |s| then None
    else
      var a, b := CharAt(s, from), CharAt(s, c);
      var same := if fold then Canonical(a.0) == Canonical(b.0) else a.0 == b.0;
      if same then SameText(s, from + a.1, to, c + b.1, fold) else None
  }

  /** Where a back reference found at c ends; a capture that took no part, so holds the greatest word, is found anywhere. */
  function Repeated(s: seq<byte>, caps: seq<nat>, group: nat, c: nat, fold: bool): (r: Option<nat>)
    requires 2 * group + 1 < |caps|
    ensures r.Some? ==> c <= r.value
  {
    var from, to := caps[2 * group], caps[2 * group + 1];
    if from >= UNSET || to >= UNSET then Some(c) else SameText(s, from, to, c, fold)
  }

  /** What an eight-bit range instruction decides: intervals one after another, the last one open if it ends at 255. */
  function SmallMatches(t: seq<nat>, c: nat): bool
    requires |t| % 2 == 0
    decreases |t|
  {
    if t == [] then false
    else (t[0] <= c && (c < t[1] || (|t| == 2 && t[1] == 0xff))) || SmallMatches(t[2..], c)
  }

  /** Binary search among intervals lo..hi. */
  function Search(t: seq<nat>, c: nat, lo: nat, hi: int): bool
    requires hi < |t| / 2
    decreases hi - lo + 1
  {
    if lo > hi then false
    else
      var mid := (lo + hi) / 2;
      if c < t[2 * mid] then Search(t, c, lo, mid - 1)
      else if c >= t[2 * mid + 1] then Search(t, c, mid + 1, hi)
      else true
  }

  /** What a range instruction decides about a code point. */
  function RangeMatches(t: seq<nat>, c: nat): bool {
    var n := |t| / 2;
    n > 0 && t[0] <= c < t[2 * n - 1] && Search(t, c, 0, n - 1)
  }

  // ---------- the machine ----------

  datatype Frame = Frame(pc: int, kind: nat, cptr: nat, caps: seq<nat>)

  datatype Snapshot = Snapshot(pc: int, cptr: nat, caps: seq<nat>, frames: seq<Frame>)

  /** Stuck: the code does something no compiled regexp does. */
  datatype Status = Running(at: Snapshot) | Matched(caps: seq<nat>) | NoMatch | Stuck

  /** Resume the latest alternative; a failed lookahead body passes the failure on. */
  function Backtrack(frames: seq<Frame>): (r: Status)
    ensures r.Running? || r == NoMatch
  {
    if frames == [] then NoMatch
    else if frames[0].kind == LOOKAHEAD then Backtrack(frames[1..])
    else Running(Snapshot(frames[0].pc, frames[0].cptr, frames[0].caps, frames[1..]))
  }

  /** Position of the latest frame of a kind. */
  function Latest(frames: seq<Frame>, kind: nat): (k: nat)
    ensures k <= |frames| && (k < |frames| ==> frames[k].kind == kind)
  {
    if frames == [] then 0
    else if frames[0].kind == kind then 0
    else 1 + Latest(frames[1..], kind)
  }

  function ResetCaptures(caps: seq<nat>, first: nat, last: nat): (r: seq<nat>)
    requires first <= last ==> 2 * last + 1 < |caps|
    ensures |r| == |caps|
    decreases last + 1 - first
  {
    if first > last then caps
    else ResetCaptures(caps[2 * first := 0][2 * first + 1 := 0], first + 1, last)
  }

  function Decrement(v: nat): nat { if v == 0 then WORD - 1 else v - 1 }

  function Push(s: Snapshot, pc: int, kind: nat, alternative: int): Snapshot {
    Snapshot(pc, s.cptr, s.caps, [Frame(alternative, kind, s.cptr, s.caps)] + s.frames)
  }

  function MoveOn(s: Snapshot, ok: bool, next: int, cptr: nat): Status {
    if ok then Running(s.(pc := next, cptr := cptr)) else Backtrack(s.frames)
  }

  function GoTo(s: Snapshot, cptr: Option<nat>, next: int): Status {
    if cptr.Some? then MoveOn(s, true, next, cptr.value) else Backtrack(s.frames)
  }

  /** One instruction. */
  function Step(code: seq<byte>, text: seq<byte>, count: nat, s: Snapshot): Status {
    var ins, next := Fetch(code, s.pc).0, Fetch(code, s.pc).1;
    match ins
    case Match => Matched(s.caps)
    case Literal(bytes) =>
      var end := s.cptr + |bytes|;
      MoveOn(s, end <= |text| && text[s.cptr..end] == bytes, next, end)
    case Symbol(sym) => GoTo(s, SymbolEnd(sym, text, s.cptr), next)
    case Range(t) =>
      var c := CharAt(text, s.cptr);
      MoveOn(s, s.cptr < |text| && RangeMatches(t, c.0), next, s.cptr + c.1)
    case SmallRange(t) =>
      var c := CharAt(text, s.cptr);
      MoveOn(s, s.cptr < |text| && |t| % 2 == 0 && SmallMatches(t, c.0), next, s.cptr + c.1)
    case BackReference(group, fold) =>
      if 2 * group + 1 >= |s.caps| then Stuck else GoTo(s, Repeated(text, s.caps, group, s.cptr, fold), next)
    case Goto(offset) => Running(s.(pc := next + offset))
    case Split(nextFirst, offset) =>
      Running(if nextFirst then Push(s, next, SPLIT, next + offset) else Push(s, next + offset, SPLIT, next))
    case Lookahead(negative, offset) =>
      Running(Push(s, next, if negative then NEGATIVE_LOOKAHEAD else LOOKAHEAD, next + offset))
    case LookaheadMatch =>
      var k := Latest(s.frames, LOOKAHEAD);
      if k == |s.frames| then Stuck
      else Running(Snapshot(s.frames[k].pc, s.frames[k].cptr, s.caps, s.frames[k + 1..]))
    case NegativeLookaheadMatch =>
      var k := Latest(s.frames, NEGATIVE_LOOKAHEAD);
      if k == |s.frames| then Stuck else Backtrack(s.frames[k + 1..])
    case Save(index) =>
      if index >= |s.caps| then Stuck else Running(s.(pc := next, caps := s.caps[index := s.cptr]))
    case SaveReset(first, last) =>
      if first <= last && 2 * last + 1 >= |s.caps| then Stuck
      else Running(s.(pc := next, caps := ResetCaptures(s.caps, first, last)))
    case SetRegister(reg, value) =>
      var r := 2 * count + reg;
      if r >= |s.caps| then Stuck else Running(s.(pc := next, caps := s.caps[r := value]))
    case Loop(reg, offset) =>
      var r := 2 * count + reg;
      if r >= |s.caps| then Stuck
      else
        var v := Decrement(s.caps[r]);
        Running(s.(pc := if v != 0 then next + offset else next, caps := s.caps[r := v]))
    case LoopSplit(reg, limit, offset, nextFirst, checkAdvance) =>
      var r := 2 * count + reg;
      if r >= |s.caps| || (checkAdvance && r + 1 >= |s.caps|) then Stuck
      else
        var v := Decrement(s.caps[r]);
        var t := s.(pc := next, caps := s.caps[r := v]);
        if v > limit then Running(t.(pc := next + offset))
        else if checkAdvance && t.caps[r + 1] == s.cptr && v != limit then Backtrack(s.frames)
        else if v == 0 then Running(t)
        else if nextFirst then Running(Push(t, next, SPLIT, next + offset))
        else Running(Push(t, next + offset, SPLIT, next))
    case SetCharPos(reg) =>
      var r := 2 * count + reg;
      if r >= |s.caps| then Stuck else Running(s.(pc := next, caps := s.caps[r := s.cptr]))
    case CheckAdvance(reg) =>
      var r := 2 * count + reg;
      if r >= |s.caps| then Stuck else MoveOn(s, s.caps[r] != s.cptr, next, s.cptr)
    case Invalid => Stuck
  }

  /** Where n instructions lead. */
  function Run(code: seq<byte>, text: seq<byte>, count: nat, s: Status, n: nat): Status
    decreases n
  {
    if n == 0 || !s.Running? then s else Run(code, text, count, Step(code, text, count, s.at), n - 1)
  }

  lemma {:induction false} RunStep(code: seq<byte>, text: seq<byte>, count: nat, s: Status, n: nat)
    ensures var t := Run(code, text, count, s, n);
            Run(code, text, count, s, n + 1) == if t.Running? then Step(code, text, count, t.at) else t
    decreases n
  {
    hide Step;
    if n > 0 && s.Running? {
      RunStep(code, text, count, Step(code, text, count, s.at), n - 1);
    }
  }

  /** A machine that has stopped stays where it is. */
  lemma {:induction false} RunStays(code: seq<byte>, text: seq<byte>, count: nat, s: Status, m: nat, n: nat)
    requires m <= n && !Run(code, text, count, s, m).Running?
    ensures Run(code, text, count, s, n) == Run(code, text, count, s, m)
  {
    if m < n {
      RunStays(code, text, count, s, m, n - 1);
      RunStep(code, text, count, s, n - 1);
    }
  }
}
