/** Patterns, the matches they have in order of preference, and the bytecode the compiler lays down for them. */
module RegexpPattern {
  import opened Bytes
  import opened Options
  import opened RegexpCode

  /** A pattern after parsing; captures by index, registers by their place among all saved words. */
  datatype Pattern =
    | Empty
    | Chars(bytes: seq<byte>)
    | Symbol(sym: Sym)
    | Class(intervals: seq<nat>)
    | BackRef(group: nat, fold: bool)
    | Concat(first: Pattern, second: Pattern)
    | Either(left: Pattern, right: Pattern)
    | Group(index: nat, body: Pattern)
    | Forget(low: nat, high: nat, value: nat)
    | Look(negative: bool, body: Pattern)
    | Optional(body: Pattern, greedy: bool)
    | Repeat(body: Pattern, greedy: bool)
    | Plus(body: Pattern, greedy: bool)
    | Counted(body: Pattern, min: nat, max: nat, greedy: bool, check: bool, slot: nat, mark: nat)
    | Guarded(slot: nat, body: Pattern)

  /** A way to match: where it ends, and the captures then. */
  datatype Way = Way(at: nat, caps: seq<nat>)

  datatype Program = Program(code: seq<byte>, text: seq<byte>, count: nat)

  // ---------- meaning ----------

  function Put(caps: seq<nat>, i: nat, v: nat): (r: seq<nat>)
    ensures |r| == |caps|
  {
    if i < |caps| then caps[i := v] else caps
  }

  /** Both entries of the captures low to high, replaced by value. */
  function Blank(caps: seq<nat>, low: nat, high: nat, value: nat): (r: seq<nat>)
    ensures |r| == |caps|
  {
    seq(|caps|, i requires 0 <= i < |caps| => if 2 * low <= i <= 2 * high + 1 then value else caps[i])
  }

  function PutAll(l: seq<Way>, i: nat): seq<Way> {
    if l == [] then [] else [Way(l[0].at, Put(l[0].caps, i, l[0].at))] + PutAll(l[1..], i)
  }

  /** Matches that do not end where they began. */
  function Moved(l: seq<Way>, c: nat): seq<Way> {
    if l == [] then []
    else if l[0].at == c then Moved(l[1..], c)
    else [l[0]] + Moved(l[1..], c)
  }

  function One(ok: bool, at: nat, caps: seq<nat>): seq<Way> { if ok then [Way(at, caps)] else [] }

  function Perhaps(at: Option<nat>, caps: seq<nat>): seq<Way> { if at.Some? then [Way(at.value, caps)] else [] }

  /** The form a class takes in eight bits each, if all of it fits: fewer than 16 intervals below 254, the last perhaps open. */
  predicate IsSmall(t: seq<nat>) {
    var n := |t| / 2;
    && |t| % 2 == 0 && 0 < n < 16 && (forall k :: 0 <= k < |t| - 1 ==> t[k] < 254)
    && (t[|t| - 1] < 254 || t[|t| - 1] == 0x110000)
  }

  function Shortened(t: seq<nat>): (r: seq<nat>)
    requires IsSmall(t)
    ensures |r| == |t| && forall k :: 0 <= k < |r| ==> r[k] < 256
  {
    if t[|t| - 1] == 0x110000 then t[..|t| - 1] + [0xff] else t
  }

  /** What the code of a class decides; for the tables the compiler makes it is membership, in Ranges. */
  predicate InClass(t: seq<nat>, c: nat) {
    if IsSmall(t) then SmallMatches(Shortened(t), c) else RangeMatches(t, c)
  }

  function Left(text: seq<byte>, c: nat): nat { if c <= |text| then |text| - c else 0 }

  /** What decreases when a pattern goes on with itself: the text left, or the rounds a counted loop has left. */
  function Measure(p: Pattern, text: seq<byte>, c: nat): nat { if p.Counted? then p.max + 1 else Left(text, c) }

  function ThenMeasure(p: Pattern, text: seq<byte>): nat { |text| + 1 + if p.Counted? then p.max + 1 else 0 }

  /** Rounds left when the loop becomes optional. */
  function Limit(p: Pattern): nat
    requires p.Counted?
  {
    if p.min <= p.max then p.max - p.min else 0
  }

  /**
   All matches of p from c, the preferred first, as section 15.10.2 of ECMA-262 orders them: each way to
   match the first part is followed by all ways to go on before the next one is tried.
   */
  function Matches(p: Pattern, text: seq<byte>, c: nat, caps: seq<nat>): seq<Way>
    decreases p, Measure(p, text, c), 1, 0
  {
    match p
    case Empty => [Way(c, caps)]
    case Chars(bytes) => One(c + |bytes| <= |text| && text[c..c + |bytes|] == bytes, c + |bytes|, caps)
    case Symbol(sym) => Perhaps(SymbolEnd(sym, text, c), caps)
    case Class(t) => One(c < |text| && InClass(t, CharAt(text, c).0), c + CharAt(text, c).1, caps)
    case BackRef(i, fold) => if 2 * i + 1 < |caps| then Perhaps(Repeated(text, caps, i, c, fold), caps) else []
    case Concat(a, b) => Then(b, text, Matches(a, text, c, caps))
    case Either(a, b) => Matches(a, text, c, caps) + Matches(b, text, c, caps)
    case Group(i, b) => PutAll(Matches(b, text, c, Put(caps, 2 * i, c)), 2 * i + 1)
    case Forget(low, high, value) => [Way(c, if high * 2 + 1 < |caps| then Blank(caps, low, high, value) else caps)]
    case Look(negative, b) =>
      var l := Matches(b, text, c, caps);
      if negative then One(l == [], c, caps)
      else if l == [] then [] else [Way(c, l[0].caps)]
    case Optional(b, greedy) =>
      var l := Matches(b, text, c, caps);
      if greedy then l + [Way(c, caps)] else [Way(c, caps)] + l
    case Repeat(b, greedy) =>
      var l := Again(p, text, c, Matches(b, text, c, caps));
      if greedy then l + [Way(c, caps)] else [Way(c, caps)] + l
    case Plus(b, greedy) => More(p, text, c, Matches(b, text, c, caps))
    case Counted(b, min, max, greedy, check, slot, mark) =>
      var l := if max == 0 then []
               else Rounds(p, max, text, c, Matches(b, text, c, RoundCaps(p, c, Put(caps, slot, max))));
      if min > 0 then l else if greedy then l + [Way(c, caps)] else [Way(c, caps)] + l
    case Guarded(slot, b) => Moved(Matches(b, text, c, Put(caps, slot, c)), c)
  }

  /** Go on with p from each match. */
  function Then(p: Pattern, text: seq<byte>, l: seq<Way>): seq<Way>
    decreases p, ThenMeasure(p, text), 0, |l|
  {
    if l == [] then [] else Matches(p, text, l[0].at, l[0].caps) + Then(p, text, l[1..])
  }

  /** Repeat p from each match that has moved on from c. */
  function Again(p: Pattern, text: seq<byte>, c: nat, l: seq<Way>): seq<Way>
    requires p.Repeat?
    decreases p, Left(text, c), 0, |l|
  {
    if l == [] then []
    else
      (if c < l[0].at <= |text| then Matches(p, text, l[0].at, l[0].caps) else []) + Again(p, text, c, l[1..])
  }

  /** After each match of the body, the loop once more and the way out, in the order it prefers. */
  function More(p: Pattern, text: seq<byte>, c: nat, l: seq<Way>): seq<Way>
    requires p.Plus?
    decreases p, Left(text, c), 0, |l|
  {
    if l == [] then []
    else
      var again := if c < l[0].at <= |text| then Matches(p, text, l[0].at, l[0].caps) else [];
      (if p.greedy then again + [l[0]] else [l[0]] + again) + More(p, text, c, l[1..])
  }

  /** Registers at the start of a round. */
  function RoundCaps(p: Pattern, c: nat, caps: seq<nat>): (r: seq<nat>)
    requires p.Counted?
    ensures |r| == |caps|
  {
    if p.check then Put(caps, p.mark, c) else caps
  }

  /** Up to k more rounds of a counted loop, as RepeatMatcher of section 15.10.2.5 of ECMA-262 has them; the loop may end once at most Limit are left. */
  function Times(p: Pattern, k: nat, text: seq<byte>, c: nat, caps: seq<nat>): seq<Way>
    requires p.Counted?
    decreases p, k, 1, 0
  {
    var l := if k == 0 then [] else Rounds(p, k, text, c, Matches(p.body, text, c, RoundCaps(p, c, caps)));
    if k > Limit(p) then l else if p.greedy then l + [Way(c, caps)] else [Way(c, caps)] + l
  }

  /** After each match of the body from c, the rounds still to come; a round that need not be must not match nothing. */
  function Rounds(p: Pattern, k: nat, text: seq<byte>, c: nat, l: seq<Way>): seq<Way>
    requires p.Counted? && 0 < k
    decreases p, k, 0, |l|
  {
    if l == [] then []
    else
      (if k <= Limit(p) && l[0].at == c then []
       else Times(p, k - 1, text, l[0].at, Put(l[0].caps, p.slot, k - 1)))
      + Rounds(p, k, text, c, l[1..])
  }

  // ---------- which registers a pattern writes ----------

  predicate WritesTo(p: Pattern, i: nat) {
    match p
    case Concat(a, b) => WritesTo(a, i) || WritesTo(b, i)
    case Either(a, b) => WritesTo(a, i) || WritesTo(b, i)
    case Group(g, b) => WritesTo(b, i) || i == 2 * g || i == 2 * g + 1
    case Forget(low, high, _) => 2 * low <= i <= 2 * high + 1
    case Look(_, b) => WritesTo(b, i)
    case Optional(b, _) => WritesTo(b, i)
    case Repeat(b, _) => WritesTo(b, i)
    case Plus(b, _) => WritesTo(b, i)
    case Counted(b, _, _, _, check, slot, mark) => WritesTo(b, i) || i == slot || (check && i == mark)
    case Guarded(slot, b) => WritesTo(b, i) || i == slot
    case _ => false
  }

  /** Every match of p moves on: what the compiler requires of a loop body it does not guard. */
  predicate Advances(p: Pattern) {
    match p
    case Chars(_) | Class(_) | Guarded(_, _) => true
    case Symbol(sym) => TakesChar(sym)
    case Concat(a, b) => Advances(a) || Advances(b)
    case Either(a, b) => Advances(a) && Advances(b)
    case Group(_, b) => Advances(b)
    case Plus(b, _) => Advances(b)
    case Counted(b, min, _, _, _, _, _) => min > 0 && Advances(b)
    case _ => false
  }

  /** What `{n,}` and the like set as the greatest count. */
  const JS_SHORTINT_MAX: nat := 0x3fff_ffff

  /** The counts for which the compiler uses a counter: the others become a split, with or without a jump back, or nothing. */
  predicate IsLoop(min: nat, max: nat, check: bool) {
    && min <= max <= JS_SHORTINT_MAX && (min == 0 ==> 1 < max < JS_SHORTINT_MAX)
    && !(min == 1 && max == JS_SHORTINT_MAX && !check) && (min == max ==> !check)
  }

  predicate IsTable(t: seq<nat>) { |t| % 2 == 0 && |t| / 2 < 0x1_0000 && forall k :: 0 <= k < |t| ==> t[k] < WORD }

  /** Operands fit their bytes. */
  predicate Encodable(p: Pattern, count: nat) {
    match p
    case Chars(bytes) => 1 <= |bytes| <= 4
    case Class(t) => IsTable(t)
    case BackRef(i, _) => i < 256
    case Concat(a, b) => Encodable(a, count) && Encodable(b, count)
    case Either(a, b) => Encodable(a, count) && Encodable(b, count)
    case Group(i, b) => i < 256 && Encodable(b, count)
    case Forget(low, high, value) => low <= high < 256 && value == 0
    case Look(_, b) => Encodable(b, count)
    case Optional(b, _) => Encodable(b, count)
    case Repeat(b, _) => Encodable(b, count)
    case Plus(b, _) => Encodable(b, count)
    case Counted(b, min, max, _, check, slot, mark) =>
      && Encodable(b, count) && IsLoop(min, max, check)
      && 2 * count <= slot < 2 * count + 256 && (check ==> 2 * count <= mark < 2 * count + 256)
    case Guarded(slot, b) => Encodable(b, count) && 2 * count <= slot < 2 * count + 256
    case _ => true
  }

  /** Also, registers exist, loops advance, and the registers of a loop are its own. */
  predicate Compilable(p: Pattern, count: nat, n: nat): (r: bool)
    ensures r ==> Encodable(p, count)
  {
    match p
    case Chars(bytes) => 1 <= |bytes| <= 4
    case Class(t) => IsTable(t)
    case BackRef(i, _) => i < 256 && 2 * i + 1 < n
    case Concat(a, b) => Compilable(a, count, n) && Compilable(b, count, n)
    case Either(a, b) => Compilable(a, count, n) && Compilable(b, count, n)
    case Group(i, b) => i < 256 && 2 * i + 1 < n && Compilable(b, count, n)
    case Forget(low, high, value) => low <= high < 256 && 2 * high + 1 < n && value == 0
    case Look(_, b) => Compilable(b, count, n)
    case Optional(b, _) => Compilable(b, count, n)
    case Repeat(b, _) => Compilable(b, count, n) && Advances(b)
    case Plus(b, _) => Compilable(b, count, n) && Advances(b)
    case Counted(b, min, max, _, check, slot, mark) =>
      && Compilable(b, count, n) && IsLoop(min, max, check)
      && 2 * count <= slot < n && slot < 2 * count + 256 && !WritesTo(b, slot)
      && (check ==> mark == slot + 1 && mark < n && mark < 2 * count + 256 && !WritesTo(b, mark))
      && (check || min == max || Advances(b))
    case Guarded(slot, b) =>
      2 * count <= slot < n && slot - 2 * count < 256 && Compilable(b, count, n) && !WritesTo(b, slot)
    case _ => true
  }

  // ---------- code ----------

  function WordBytes(v: nat): (r: seq<byte>)
    requires v < WORD
    ensures |r| == 4
  {
    [v % 256, v / 256 % 256, v / 65536 % 256, v / 16777216]
  }

  predicate IsOffset(v: int) { -0x8000_0000 <= v < 0x8000_0000 }

  /** A jump: opcode and distance from its end. */
  function Jump(op: byte, offset: int): (r: seq<byte>)
    requires IsOffset(offset)
    ensures |r| == 5
  {
    [op] + WordBytes(if offset < 0 then offset + WORD else offset)
  }

  function CodeSize(p: Pattern): nat {
    match p
    case Empty => 0
    case Chars(bytes) => |bytes| + 1
    case Concat(a, b) => CodeSize(a) + CodeSize(b)
    case Either(a, b) => CodeSize(a) + CodeSize(b) + 10
    case Group(_, b) => CodeSize(b) + 4
    case Forget(_, _, _) => 3
    case Look(_, b) => CodeSize(b) + 6
    case Optional(b, _) => CodeSize(b) + 5
    case Class(t) => if IsSmall(t) then 2 + |t| else 3 + 4 * |t|
    case BackRef(_, _) => 2
    case Repeat(b, _) => CodeSize(b) + 10
    case Plus(b, _) => CodeSize(b) + 5
    case Counted(b, _, _, _, _, _, _) => CountedSize(p, CodeSize(b))
    case Guarded(_, b) => CodeSize(b) + 4
    case _ => 1
  }

  /** The interval ends of a class, as the instruction holds them. */
  function TableBytes(t: seq<nat>): (r: seq<byte>)
    requires forall k :: 0 <= k < |t| ==> t[k] < WORD
    ensures |r| == 4 * |t|
  {
    if t == [] then [] else WordBytes(t[0]) + TableBytes(t[1..])
  }

  function ClassBytes(t: seq<nat>): (r: seq<byte>)
    requires IsTable(t)
    ensures |r| == if IsSmall(t) then 2 + |t| else 3 + 4 * |t|
  {
    if IsSmall(t) then [32, |t| / 2] + SmallBytes(Shortened(t))
    else [33, |t| / 2 % 256, |t| / 2 / 256] + TableBytes(t)
  }

  function SmallBytes(t: seq<nat>): (r: seq<byte>)
    requires forall k :: 0 <= k < |t| ==> t[k] < 256
    ensures |r| == |t| && forall k :: 0 <= k < |t| ==> r[k] == t[k]
  {
    seq(|t|, k requires 0 <= k < |t| => t[k] as byte)
  }

  function OpOf(sym: Sym): (op: byte)
    ensures SymOf(op) == sym && (op in {28, 29} || 5 <= op <= 12)
  {
    match sym
    case NoLineEnd => 5
    case AnyChar => 6
    case Space => 7
    case NoSpace => 8
    case AtStart => 9
    case AtLineStart => 10
    case AtEnd => 11
    case AtLineEnd => 12
    case WordEdge => 28
    case NoWordEdge => 29
  }

  function OffsetBytes(offset: int): (r: seq<byte>)
    requires IsOffset(offset)
    ensures |r| == 4
  {
    WordBytes(if offset < 0 then offset + WORD else offset)
  }

  const MAX_CODE: nat := 0x4000_0000

  /** Set the counter. */
  function CounterBytes(reg: byte, value: nat): (r: seq<byte>)
    requires value < WORD
    ensures |r| == 6
  {
    [27, reg] + WordBytes(value)
  }

  /** What ends a counted loop: count down and jump back, or count down, check and split. */
  function LoopBytes(p: Pattern, reg: byte, back: int): (r: seq<byte>)
    requires p.Counted? && Limit(p) < WORD && IsOffset(back)
    ensures |r| == if p.min == p.max then 6 else 10
  {
    if p.min == p.max then [22, reg] + OffsetBytes(back)
    else [(if p.check then 26 else 24) - (if p.greedy then 1 else 0), reg] + WordBytes(Limit(p)) + OffsetBytes(back)
  }

  /** The loop proper: position register, body, end. */
  function LoopBody(p: Pattern, code: seq<byte>, reg: byte, mark: byte): (r: seq<byte>)
    requires p.Counted? && Limit(p) < WORD && |code| < MAX_CODE
    ensures |r| == (if p.check then 2 else 0) + |code| + if p.min == p.max then 6 else 10
  {
    var head: seq<byte> := if p.check then [36, mark] else [];
    head + code + LoopBytes(p, reg, -(|head| + |code| + if p.min == p.max then 6 else 10))
  }


  function CountedSize(p: Pattern, body: nat): nat
    requires p.Counted?
  {
    (if p.min == 0 then 5 else 0) + 6 + (if p.check then 2 else 0) + body + (if p.min == p.max then 6 else 10)
  }

  function MarkOf(p: Pattern, count: nat): byte
    requires p.Counted? && (p.check ==> 2 * count <= p.mark < 2 * count + 256)
  {
    if p.check then p.mark - 2 * count else 0
  }

  /** The whole of a counted loop: a way around it if it may be left out, the counter, and the loop. */
  function CountedBytes(p: Pattern, code: seq<byte>, reg: byte, mark: byte): (r: seq<byte>)
    requires p.Counted? && Limit(p) < WORD && p.max < WORD && CountedSize(p, |code|) < MAX_CODE
    ensures |r| == CountedSize(p, |code|)
  {
    var loop := CounterBytes(reg, p.max) + LoopBody(p, code, reg, mark);
    if p.min == 0 then Jump(SplitOp(p.greedy), |loop|) + loop else loop
  }

  /** Try what follows the split first, or what it jumps to. */
  function SplitOp(nextFirst: bool): byte { if nextFirst then 15 else 14 }

  function Compile(p: Pattern, count: nat): (r: seq<byte>)
    requires Encodable(p, count) && CodeSize(p) < MAX_CODE
    ensures |r| == CodeSize(p)
  {
    hide Jump, ClassBytes, CountedBytes;
    match p
    case Empty => []
    case Chars(bytes) => [|bytes|] + bytes
    case Symbol(sym) => [OpOf(sym)]
    case Class(t) => ClassBytes(t)
    case BackRef(i, fold) => [if fold then 31 else 30, i]
    case Concat(a, b) => Compile(a, count) + Compile(b, count)
    case Either(a, b) =>
      Jump(15, CodeSize(a) + 5) + Compile(a, count) + Jump(13, CodeSize(b)) + Compile(b, count)
    case Group(i, b) => [19, i] + Compile(b, count) + [20, i]
    case Forget(low, high, _) => [21, low, high]
    case Look(negative, b) =>
      Jump(if negative then 35 else 34, CodeSize(b) + 1) + Compile(b, count) + [if negative then 18 else 17]
    case Optional(b, greedy) => Jump(SplitOp(greedy), CodeSize(b)) + Compile(b, count)
    case Repeat(b, greedy) =>
      Jump(SplitOp(greedy), CodeSize(b) + 5) + Compile(b, count) + Jump(13, -(CodeSize(b) + 10))
    case Plus(b, greedy) => Compile(b, count) + Jump(SplitOp(!greedy), -(CodeSize(b) + 5))
    case Counted(b, min, max, greedy, check, slot, mark) =>
      CountedBytes(p, Compile(b, count), slot - 2 * count, MarkOf(p, count))
    case Guarded(slot, b) => [36, slot - 2 * count] + Compile(b, count) + [37, slot - 2 * count]
  }

  // ---------- what matches are like ----------

  /** A match from c with the given captures: not before c, within the subject if c is, and keeping slot unless written. */
  predicate Sound(w: Way, text: seq<byte>, c: nat, caps: seq<nat>, slot: nat, written: bool) {
    && c <= w.at && (c <= |text| ==> w.at <= |text|) && |w.caps| == |caps|
    && (!written && slot < |caps| ==> w.caps[slot] == caps[slot])
  }

  predicate AllSound(l: seq<Way>, text: seq<byte>, c: nat, caps: seq<nat>, slot: nat, written: bool) {
    forall k | 0 <= k < |l| :: Sound(l[k], text, c, caps, slot, written)
  }

  /** No character of the subject is cut off by its end. */
  predicate WholeChars(text: seq<byte>) {
    forall i | 0 <= i < |text| :: i + CharAt(text, i).1 <= |text|
  }

  lemma {:induction false} MovedSound(l: seq<Way>, text: seq<byte>, c: nat, caps: seq<nat>, slot: nat, written: bool)
    requires AllSound(l, text, c, caps, slot, written)
    ensures AllSound(Moved(l, c), text, c, caps, slot, written)
    ensures forall k | 0 <= k < |Moved(l, c)| :: Moved(l, c)[k].at > c
  {
    if l != [] {
      assert Sound(l[0], text, c, caps, slot, written);
      MovedSound(l[1..], text, c, caps, slot, written);
    }
  }

  lemma {:induction false} PutAllSound(l: seq<Way>, i: nat, text: seq<byte>, c: nat, caps: seq<nat>, slot: nat, written: bool)
    requires AllSound(l, text, c, caps, slot, written) && (slot == i ==> written)
    ensures AllSound(PutAll(l, i), text, c, caps, slot, written)
  {
    if l != [] {
      assert Sound(l[0], text, c, caps, slot, written);
      PutAllSound(l[1..], i, text, c, caps, slot, written);
    }
  }

  /** Sound from a later place with the same slot is sound. */
  lemma SoundAfter(l: seq<Way>, w: Way, text: seq<byte>, c: nat, caps: seq<nat>, slot: nat, written: bool, more: bool)
    requires Sound(w, text, c, caps, slot, written) && AllSound(l, text, w.at, w.caps, slot, more) && (more ==> written)
    ensures AllSound(l, text, c, caps, slot, written)
  {
    forall k | 0 <= k < |l| ensures Sound(l[k], text, c, caps, slot, written) {
      assert Sound(l[k], text, w.at, w.caps, slot, more);
    }
  }

  lemma SoundJoin(l: seq<Way>, m: seq<Way>, text: seq<byte>, c: nat, caps: seq<nat>, slot: nat, written: bool)
    requires AllSound(l, text, c, caps, slot, written) && AllSound(m, text, c, caps, slot, written)
    ensures AllSound(l + m, text, c, caps, slot, written)
  {}

  lemma PutSound(l: seq<Way>, i: nat, v: nat, text: seq<byte>, c: nat, caps: seq<nat>, slot: nat, written: bool)
    requires AllSound(l, text, c, Put(caps, i, v), slot, written)
    ensures AllSound(l, text, c, caps, slot, written || slot == i)
  {
    forall k | 0 <= k < |l| ensures Sound(l[k], text, c, caps, slot, written || slot == i) {
      assert Sound(l[k], text, c, Put(caps, i, v), slot, written);
    }
  }

  lemma MoreWritten(l: seq<Way>, text: seq<byte>, c: nat, caps: seq<nat>, slot: nat, written: bool, more: bool)
    requires AllSound(l, text, c, caps, slot, written) && (written ==> more)
    ensures AllSound(l, text, c, caps, slot, more)
  {
    forall k | 0 <= k < |l| ensures Sound(l[k], text, c, caps, slot, more) {
      assert Sound(l[k], text, c, caps, slot, written);
    }
  }

  lemma {:induction false} MatchesSound(p: Pattern, text: seq<byte>, c: nat, caps: seq<nat>, slot: nat)
    requires WholeChars(text)
    ensures AllSound(Matches(p, text, c, caps), text, c, caps, slot, WritesTo(p, slot))
    decreases p, Measure(p, text, c), 1, 0
  {
    hide CharAt, IsLineTerminator, AllSound, Blank;
    var written := WritesTo(p, slot);
    match p
    case Concat(a, b) =>
      MatchesSound(a, text, c, caps, slot);
      MoreWritten(Matches(a, text, c, caps), text, c, caps, slot, WritesTo(a, slot), written);
      ThenSound(b, text, Matches(a, text, c, caps), c, caps, slot, written);
    case Either(a, b) =>
      MatchesSound(a, text, c, caps, slot);
      MatchesSound(b, text, c, caps, slot);
      MoreWritten(Matches(a, text, c, caps), text, c, caps, slot, WritesTo(a, slot), written);
      MoreWritten(Matches(b, text, c, caps), text, c, caps, slot, WritesTo(b, slot), written);
      SoundJoin(Matches(a, text, c, caps), Matches(b, text, c, caps), text, c, caps, slot, written);
    case Group(i, b) =>
      var l := Matches(b, text, c, Put(caps, 2 * i, c));
      MatchesSound(b, text, c, Put(caps, 2 * i, c), slot);
      PutSound(l, 2 * i, c, text, c, caps, slot, WritesTo(b, slot));
      MoreWritten(l, text, c, caps, slot, WritesTo(b, slot) || slot == 2 * i, written);
      PutAllSound(l, 2 * i + 1, text, c, caps, slot, written);
    case Look(negative, b) =>
      MatchesSound(b, text, c, caps, slot);
      LookSound(Matches(b, text, c, caps), Matches(p, text, c, caps), negative, text, c, caps, slot, written);
    case Optional(b, greedy) =>
      MatchesSound(b, text, c, caps, slot);
      WithSelf(Matches(b, text, c, caps), text, c, caps, slot, written);
    case Repeat(b, greedy) =>
      MatchesSound(b, text, c, caps, slot);
      AgainSound(p, text, c, Matches(b, text, c, caps), caps, slot);
      WithSelf(Again(p, text, c, Matches(b, text, c, caps)), text, c, caps, slot, written);
    case Plus(b, greedy) =>
      MatchesSound(b, text, c, caps, slot);
      MoreSound(p, text, c, Matches(b, text, c, caps), caps, slot);
    case Counted(b, min, max, greedy, check, s, _) =>
      var caps' := Put(caps, s, max);
      var l := if max == 0 then [] else Rounds(p, max, text, c, Matches(b, text, c, RoundCaps(p, c, caps')));
      if max > 0 { BodySound(p, max, text, c, caps', slot); }
      EmptySound(text, c, caps', slot, written);
      PutSound(l, s, max, text, c, caps, slot, written);
      WithSelf(l, text, c, caps, slot, written);
    case Guarded(s, b) =>
      var l := Matches(b, text, c, Put(caps, s, c));
      MatchesSound(b, text, c, Put(caps, s, c), slot);
      PutSound(l, s, c, text, c, caps, slot, WritesTo(b, slot));
      MovedSound(l, text, c, caps, slot, written);
    case Forget(_, _, _) => ForgetSound(p, text, c, caps, slot);
    case _ => SimpleSound(p, text, c, caps, slot);
  }

  lemma SimpleSound(p: Pattern, text: seq<byte>, c: nat, caps: seq<nat>, slot: nat)
    requires WholeChars(text)
    requires p.Empty? || p.Chars? || p.Symbol? || p.Class? || p.BackRef?
    ensures AllSound(Matches(p, text, c, caps), text, c, caps, slot, WritesTo(p, slot))
  {
    hide CharAt, IsLineTerminator, InClass, SameText;
    var l := Matches(p, text, c, caps);
    if p.BackRef? && 2 * p.group + 1 < |caps| {
      SameTextInside(text, caps[2 * p.group], caps[2 * p.group + 1], c, p.fold);
    }
    forall k | 0 <= k < |l| ensures Sound(l[k], text, c, caps, slot, WritesTo(p, slot)) {
      assert l[k].caps == caps;
    }
  }

  lemma {:induction false} SameTextInside(text: seq<byte>, from: nat, to: nat, c: nat, fold: bool)
    requires WholeChars(text)
    ensures var r := SameText(text, from, to, c, fold); r.Some? && c <= |text| ==> c <= r.value <= |text|
    decreases if from < to then to - from else 0
  {
    hide CharAt;
    if from < to && c < |text| {
      SameTextInside(text, from + CharAt(text, from).1, to, c + CharAt(text, c).1, fold);
    }
  }

  lemma ForgetSound(p: Pattern, text: seq<byte>, c: nat, caps: seq<nat>, slot: nat)
    requires p.Forget?
    ensures AllSound(Matches(p, text, c, caps), text, c, caps, slot, WritesTo(p, slot))
  {}

  lemma LookSound(l: seq<Way>, m: seq<Way>, negative: bool, text: seq<byte>, c: nat, caps: seq<nat>, slot: nat, written: bool)
    requires AllSound(l, text, c, caps, slot, written)
    requires m == (if negative then One(l == [], c, caps) else if l == [] then [] else [Way(c, l[0].caps)])
    ensures AllSound(m, text, c, caps, slot, written)
  {
    if l != [] { assert Sound(l[0], text, c, caps, slot, written); }
  }

  lemma WithSelf(l: seq<Way>, text: seq<byte>, c: nat, caps: seq<nat>, slot: nat, written: bool)
    requires AllSound(l, text, c, caps, slot, written)
    ensures AllSound(l + [Way(c, caps)], text, c, caps, slot, written)
    ensures AllSound([Way(c, caps)] + l, text, c, caps, slot, written)
  {}

  lemma {:induction false} ThenSound(p: Pattern, text: seq<byte>, l: seq<Way>, c: nat, caps: seq<nat>, slot: nat, written: bool)
    requires WholeChars(text) && AllSound(l, text, c, caps, slot, written) && (WritesTo(p, slot) ==> written)
    ensures AllSound(Then(p, text, l), text, c, caps, slot, written)
    decreases p, ThenMeasure(p, text), 0, |l|
  {
    hide Matches;
    if l != [] {
      var m := Matches(p, text, l[0].at, l[0].caps);
      assert Sound(l[0], text, c, caps, slot, written);
      MatchesSound(p, text, l[0].at, l[0].caps, slot);
      SoundAfter(m, l[0], text, c, caps, slot, written, WritesTo(p, slot));
      ThenSound(p, text, l[1..], c, caps, slot, written);
      SoundJoin(m, Then(p, text, l[1..]), text, c, caps, slot, written);
    }
  }

  lemma {:induction false} AgainSound(p: Pattern, text: seq<byte>, c: nat, l: seq<Way>, caps: seq<nat>, slot: nat)
    requires p.Repeat? && WholeChars(text) && AllSound(l, text, c, caps, slot, WritesTo(p, slot))
    ensures AllSound(Again(p, text, c, l), text, c, caps, slot, WritesTo(p, slot))
    decreases p, Left(text, c), 0, |l|
  {
    hide Matches;
    if l != [] {
      var written := WritesTo(p, slot);
      var m := if c < l[0].at <= |text| then Matches(p, text, l[0].at, l[0].caps) else [];
      assert Sound(l[0], text, c, caps, slot, written);
      if c < l[0].at <= |text| {
        MatchesSound(p, text, l[0].at, l[0].caps, slot);
        SoundAfter(m, l[0], text, c, caps, slot, written, written);
      }
      AgainSound(p, text, c, l[1..], caps, slot);
      SoundJoin(m, Again(p, text, c, l[1..]), text, c, caps, slot, written);
    }
  }

  lemma {:induction false} MoreSound(p: Pattern, text: seq<byte>, c: nat, l: seq<Way>, caps: seq<nat>, slot: nat)
    requires p.Plus? && WholeChars(text) && AllSound(l, text, c, caps, slot, WritesTo(p, slot))
    ensures AllSound(More(p, text, c, l), text, c, caps, slot, WritesTo(p, slot))
    decreases p, Left(text, c), 0, |l|
  {
    hide Matches;
    if l != [] {
      var written := WritesTo(p, slot);
      var m := if c < l[0].at <= |text| then Matches(p, text, l[0].at, l[0].caps) else [];
      assert Sound(l[0], text, c, caps, slot, written);
      if c < l[0].at <= |text| {
        MatchesSound(p, text, l[0].at, l[0].caps, slot);
        SoundAfter(m, l[0], text, c, caps, slot, written, written);
      }
      MoreSound(p, text, c, l[1..], caps, slot);
      SoundJoin(m, [l[0]], text, c, caps, slot, written);
      SoundJoin([l[0]], m, text, c, caps, slot, written);
      SoundJoin(if p.greedy then m + [l[0]] else [l[0]] + m, More(p, text, c, l[1..]), text, c, caps, slot, written);
    }
  }

  lemma EmptySound(text: seq<byte>, c: nat, caps: seq<nat>, slot: nat, written: bool)
    ensures AllSound([], text, c, caps, slot, written)
  {}

  lemma {:induction false} BodySound(p: Pattern, k: nat, text: seq<byte>, c: nat, caps: seq<nat>, slot: nat)
    requires p.Counted? && 0 < k && WholeChars(text)
    ensures AllSound(Rounds(p, k, text, c, Matches(p.body, text, c, RoundCaps(p, c, caps))), text, c, caps, slot, WritesTo(p, slot))
    decreases p, k, 1, 0
  {
    hide AllSound, Matches, Rounds;
    var b := WritesTo(p.body, slot);
    var l := Matches(p.body, text, c, RoundCaps(p, c, caps));
    MatchesSound(p.body, text, c, RoundCaps(p, c, caps), slot);
    if p.check { PutSound(l, p.mark, c, text, c, caps, slot, b); }
    MoreWritten(l, text, c, caps, slot, b || (p.check && slot == p.mark), WritesTo(p, slot));
    RoundsSound(p, k, text, c, l, c, caps, slot);
  }

  lemma {:induction false} TimesSound(p: Pattern, k: nat, text: seq<byte>, c: nat, caps: seq<nat>, slot: nat)
    requires p.Counted? && WholeChars(text)
    ensures AllSound(Times(p, k, text, c, caps), text, c, caps, slot, WritesTo(p, slot))
    decreases p, k, 2, 0
  {
    hide AllSound, Matches, Rounds;
    var l := if k == 0 then [] else Rounds(p, k, text, c, Matches(p.body, text, c, RoundCaps(p, c, caps)));
    if k > 0 { BodySound(p, k, text, c, caps, slot); }
    EmptySound(text, c, caps, slot, WritesTo(p, slot));
    WithSelf(l, text, c, caps, slot, WritesTo(p, slot));
  }

  lemma {:induction false} RoundsSound(p: Pattern, k: nat, text: seq<byte>, c: nat, l: seq<Way>, from: nat, caps: seq<nat>, slot: nat)
    requires p.Counted? && 0 < k && WholeChars(text) && AllSound(l, text, from, caps, slot, WritesTo(p, slot))
    ensures AllSound(Rounds(p, k, text, c, l), text, from, caps, slot, WritesTo(p, slot))
    decreases p, k, 0, |l|
  {
    hide Matches, Times;
    if l != [] {
      var written := WritesTo(p, slot);
      var w := Way(l[0].at, Put(l[0].caps, p.slot, k - 1));
      assert Sound(l[0], text, from, caps, slot, written);
      assert Sound(w, text, from, caps, slot, written);
      var m := if k <= Limit(p) && l[0].at == c then [] else Times(p, k - 1, text, w.at, w.caps);
      TimesSound(p, k - 1, text, w.at, w.caps, slot);
      SoundAfter(m, w, text, from, caps, slot, written, written);
      RoundsSound(p, k, text, c, l[1..], from, caps, slot);
      SoundJoin(m, Rounds(p, k, text, c, l[1..]), text, from, caps, slot, written);
    }
  }

  predicate AllPast(l: seq<Way>, c: nat) {
    forall k | 0 <= k < |l| :: l[k].at > c
  }

  lemma {:induction false} PutAllPast(l: seq<Way>, i: nat, c: nat)
    requires AllPast(l, c)
    ensures AllPast(PutAll(l, i), c)
  {
    if l != [] { PutAllPast(l[1..], i, c); }
  }

  lemma {:induction false} ThenPast(p: Pattern, text: seq<byte>, l: seq<Way>, c: nat, count: nat, n: nat)
    requires WholeChars(text) && Compilable(p, count, n)
    requires forall k | 0 <= k < |l| :: l[k].at >= c
    requires AllPast(l, c) || Advances(p)
    ensures AllPast(Then(p, text, l), c)
    decreases p, 1, |l|
  {
    hide Matches, CharAt, Compilable;
    if l != [] {
      var m := Matches(p, text, l[0].at, l[0].caps);
      MatchesSound(p, text, l[0].at, l[0].caps, 0);
      forall k | 0 <= k < |m| ensures m[k].at > c {
        assert Sound(m[k], text, l[0].at, l[0].caps, 0, WritesTo(p, 0));
        if Advances(p) { AdvancesMoves(p, text, l[0].at, l[0].caps, count, n); }
      }
      ThenPast(p, text, l[1..], c, count, n);
    }
  }

  lemma {:induction false} MorePast(p: Pattern, text: seq<byte>, c: nat, l: seq<Way>)
    requires p.Plus? && WholeChars(text) && AllPast(l, c)
    ensures AllPast(More(p, text, c, l), c)
    decreases |l|
  {
    hide Matches, CharAt;
    if l != [] {
      if c < l[0].at <= |text| {
        var m := Matches(p, text, l[0].at, l[0].caps);
        MatchesSound(p, text, l[0].at, l[0].caps, 0);
        forall k | 0 <= k < |m| ensures m[k].at > c {
          assert Sound(m[k], text, l[0].at, l[0].caps, 0, WritesTo(p, 0));
        }
      }
      MorePast(p, text, c, l[1..]);
    }
  }

  lemma {:induction false} RoundsPast(p: Pattern, k: nat, text: seq<byte>, c: nat, l: seq<Way>, d: nat)
    requires p.Counted? && 0 < k && WholeChars(text) && AllPast(l, d)
    ensures AllPast(Rounds(p, k, text, c, l), d)
    decreases |l|
  {
    hide Times, CharAt;
    if l != [] {
      var at, caps := l[0].at, Put(l[0].caps, p.slot, k - 1);
      var m := Times(p, k - 1, text, at, caps);
      TimesSound(p, k - 1, text, at, caps, 0);
      forall i | 0 <= i < |m| ensures m[i].at > d {
        assert Sound(m[i], text, at, caps, 0, WritesTo(p, 0));
      }
      RoundsPast(p, k, text, c, l[1..], d);
    }
  }

  /** What the compiler takes for granted of a loop body: it never matches without moving on. */
  lemma {:induction false} AdvancesMoves(p: Pattern, text: seq<byte>, c: nat, caps: seq<nat>, count: nat, n: nat)
    requires WholeChars(text) && Advances(p) && Compilable(p, count, n)
    ensures AllPast(Matches(p, text, c, caps), c)
    decreases p, 0, 0
  {
    hide CharAt, IsLineTerminator, RangeMatches;
    match p
    case Chars(_) =>
    case Symbol(_) =>
    case Class(_) =>
    case Plus(b, greedy) =>
      AdvancesMoves(b, text, c, caps, count, n);
      MorePast(p, text, c, Matches(b, text, c, caps));
    case Counted(b, min, max, greedy, check, slot, mark) =>
      var caps' := RoundCaps(p, c, Put(caps, slot, max));
      AdvancesMoves(b, text, c, caps', count, n);
      RoundsPast(p, max, text, c, Matches(b, text, c, caps'), c);
    case Guarded(slot, b) =>
      MatchesSound(b, text, c, Put(caps, slot, c), 0);
      MovedSound(Matches(b, text, c, Put(caps, slot, c)), text, c, Put(caps, slot, c), 0, WritesTo(b, 0));
    case Concat(a, b) =>
      var l := Matches(a, text, c, caps);
      MatchesSound(a, text, c, caps, 0);
      forall k | 0 <= k < |l| ensures l[k].at >= c {
        assert Sound(l[k], text, c, caps, 0, WritesTo(a, 0));
      }
      if Advances(a) { AdvancesMoves(a, text, c, caps, count, n); }
      ThenPast(b, text, l, c, count, n);
    case Either(a, b) =>
      AdvancesMoves(a, text, c, caps, count, n);
      AdvancesMoves(b, text, c, caps, count, n);
    case Group(i, b) =>
      AdvancesMoves(b, text, c, Put(caps, 2 * i, c), count, n);
      PutAllPast(Matches(b, text, c, Put(caps, 2 * i, c)), 2 * i + 1, c);
  }

  predicate Ahead(l: seq<Way>, text: seq<byte>, c: nat) {
    forall k | 0 <= k < |l| :: c < l[k].at <= |text|
  }

  /** A body that advances, once and then repeated, is what `+` means. */
  lemma {:induction false} PlusIsRepeat(b: Pattern, greedy: bool, text: seq<byte>, c: nat, caps: seq<nat>, count: nat, n: nat)
    requires WholeChars(text) && Advances(b) && Compilable(b, count, n) && c <= |text|
    ensures Matches(Plus(b, greedy), text, c, caps) == Matches(Concat(b, Repeat(b, greedy)), text, c, caps)
    decreases Left(text, c), 1, 0
  {
    hide CharAt, WholeChars, Compilable, Advances;
    BodyMoves(b, text, c, caps, count, n);
    MoreIsThen(b, greedy, text, c, Matches(b, text, c, caps), count, n);
  }

  lemma BodyMoves(b: Pattern, text: seq<byte>, c: nat, caps: seq<nat>, count: nat, n: nat)
    requires WholeChars(text) && Advances(b) && Compilable(b, count, n) && c <= |text|
    ensures Ahead(Matches(b, text, c, caps), text, c)
  {
    hide Matches, WholeChars, Compilable, Advances;
    var l := Matches(b, text, c, caps);
    AdvancesMoves(b, text, c, caps, count, n);
    MatchesSound(b, text, c, caps, 0);
    forall k | 0 <= k < |l| ensures c < l[k].at <= |text| {
      assert Sound(l[k], text, c, caps, 0, WritesTo(b, 0));
    }
  }

  lemma {:induction false} MoreIsThen(b: Pattern, greedy: bool, text: seq<byte>, c: nat, l: seq<Way>, count: nat, n: nat)
    requires WholeChars(text) && Advances(b) && Compilable(b, count, n) && c <= |text|
    requires Ahead(l, text, c)
    ensures More(Plus(b, greedy), text, c, l) == Then(Repeat(b, greedy), text, l)
    decreases Left(text, c), 0, |l|
  {
    hide CharAt, WholeChars, Compilable, Advances;
    if l != [] {
      var at, caps := l[0].at, l[0].caps;
      PlusIsRepeat(b, greedy, text, at, caps, count, n);
      var m := Matches(b, text, at, caps);
      BodyMoves(b, text, at, caps, count, n);
      AgainIsThen(b, greedy, text, at, m);
      MoreIsThen(b, greedy, text, c, l[1..], count, n);
    }
  }

  lemma {:induction false} AgainIsThen(b: Pattern, greedy: bool, text: seq<byte>, c: nat, l: seq<Way>)
    requires Ahead(l, text, c)
    ensures Again(Repeat(b, greedy), text, c, l) == Then(Repeat(b, greedy), text, l)
    decreases |l|
  {
    hide Matches;
    if l != [] { AgainIsThen(b, greedy, text, c, l[1..]); }
  }
}
