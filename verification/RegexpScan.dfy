/** The scan of a quantified term's code: can it match nothing, and can it leave captures unset? */
module RegexpScan {
  import opened Bytes
  import opened RegexpCode
  import opened RegexpPattern
  import opened RegexpMeaning

  /** Size of the instruction with opcode op, without the table of a class. */
  function OpSize(op: byte): (r: nat)
    ensures 0 < r && (Size(op) != 0 ==> r == Size(op))
  {
    match op
    case 28 | 29 => 1
    case 30 | 31 | 32 => 2
    case 7 | 8 | 10 | 12 => 1
    case _ => if Size(op) == 0 then 1 else Size(op)
  }

  /** Size of the instruction at pos. */
  function SizeAt(code: seq<byte>, pos: nat): (r: nat)
    requires pos < |code|
    ensures r > 0
  {
    var op := code[pos];
    OpSize(op) + (if op == 32 then 2 * ByteAt(code, pos + 1)
                  else if op == 33 then 8 * (ByteAt(code, pos + 1) as int + 256 * ByteAt(code, pos + 2) as int)
                  else 0)
  }

  predicate Consuming(op: byte) { 1 <= op <= 8 || op == 32 || op == 33 }

  predicate Neutral(op: byte) { 9 <= op <= 12 || 19 <= op <= 21 || op in {27, 28, 29, 36} }

  /** Whether the code from pos on may match nothing, so far as the scan can tell, and whether it met an instruction it does not know. */
  function Scan(code: seq<byte>, pos: nat, need: bool): (bool, bool)
    decreases |code| - pos
  {
    if pos >= |code| then (need, false)
    else if Consuming(code[pos]) then Scan(code, pos + SizeAt(code, pos), false)
    else if Neutral(code[pos]) then Scan(code, pos + SizeAt(code, pos), need)
    else (need, true)
  }

  /** re_need_check_adv_and_capture_init. */
  method NeedCheckAndInit(code: seq<byte>, start: nat) returns (need: bool, init: bool)
    ensures (need, init) == Scan(code, start, true)
  {
    need, init := true, false;
    var pos := start;
    while pos < |code| && !init
      invariant Scan(code, start, true) == if init then (need, true) else Scan(code, pos, need)
      decreases |code| - pos, !init
    {
      if Consuming(code[pos]) {
        need := false;
      } else if !Neutral(code[pos]) {
        init := true;
      }
      if !init {
        pos := pos + SizeAt(code, pos);
      }
    }
  }

  // ---------- what it finds in a pattern's code ----------

  /** A character is read before the code branches. */
  predicate Consumes(p: Pattern) {
    match p
    case Chars(_) | Class(_) => true
    case Symbol(sym) => TakesChar(sym)
    case Concat(a, b) => Consumes(a) || (!Stops(a) && Consumes(b))
    case Group(_, b) => Consumes(b)
    case Plus(b, _) => Consumes(b)
    case Counted(b, min, _, _, _, _, _) => min > 0 && Consumes(b)
    case Guarded(_, b) => Consumes(b)
    case _ => false
  }

  /** The code branches. */
  predicate Stops(p: Pattern) {
    match p
    case Concat(a, b) => Stops(a) || Stops(b)
    case Group(_, b) => Stops(b)
    case BackRef(_, _) | Either(_, _) | Look(_, _) | Optional(_, _) | Repeat(_, _) | Plus(_, _) | Counted(_, _, _, _, _, _, _) | Guarded(_, _) => true
    case _ => false
  }

  /** What the scan takes for consuming does consume: no match of it stays where it began. */
  lemma {:induction false} ConsumesAdvances(p: Pattern)
    requires Consumes(p)
    ensures Advances(p)
  {
    match p
    case Concat(a, b) => if Consumes(a) { ConsumesAdvances(a); } else { ConsumesAdvances(b); }
    case Group(_, b) => ConsumesAdvances(b);
    case Plus(b, _) => ConsumesAdvances(b);
    case Counted(b, _, _, _, _, _, _) => ConsumesAdvances(b);
    case _ =>
  }

  /** The scan's state after p's code. */
  function After(p: Pattern, code: seq<byte>, at: nat, need: bool): (bool, bool)
  {
    var still := need && !Consumes(p);
    if Stops(p) then (still, true) else Scan(code, at + CodeSize(p), still)
  }

  lemma NeutralStep(code: seq<byte>, at: nat, op: byte, bytes: seq<byte>, need: bool)
    requires HasCode(code, at, [op] + bytes) && Neutral(op) && |bytes| == OpSize(op) - 1
    ensures Scan(code, at, need) == Scan(code, at + 1 + |bytes|, need)
  {
    assert code[at] == code[at..at + 1 + |bytes|][0] == op;
  }

  lemma StopStep(code: seq<byte>, at: nat, op: byte, bytes: seq<byte>, need: bool)
    requires HasCode(code, at, [op] + bytes) && !Neutral(op) && !Consuming(op)
    ensures Scan(code, at, need) == (need, true)
  {
    assert code[at] == code[at..at + 1 + |bytes|][0] == op;
  }

  lemma ConsumingStep(code: seq<byte>, at: nat, op: byte, bytes: seq<byte>, need: bool)
    requires HasCode(code, at, [op] + bytes) && 1 <= op <= 8 && |bytes| == OpSize(op) - 1
    ensures Scan(code, at, need) == Scan(code, at + 1 + |bytes|, false)
  {
    assert code[at] == code[at..at + 1 + |bytes|][0] == op;
  }

  lemma ClassStep(code: seq<byte>, at: nat, t: seq<nat>, need: bool)
    requires IsTable(t) && HasCode(code, at, ClassBytes(t))
    ensures Scan(code, at, need) == Scan(code, at + |ClassBytes(t)|, false)
  {
    hide TableBytes, SmallBytes, Shortened, Scan;
    var n := |t| / 2;
    if IsSmall(t) {
      var b: seq<byte> := [32, n];
      HasParts(code, at, b, SmallBytes(Shortened(t)));
      var d := code[at..at + 2];
      assert code[at] == d[0] && code[at + 1] == d[1];
      SmallStep(code, at, n, need);
    } else {
      var h := [33, n % 256, n / 256];
      HasParts(code, at, h, TableBytes(t));
      var c := code[at..at + 3];
      assert code[at] == c[0] && code[at + 1] == c[1] && code[at + 2] == c[2];
      assert n == n / 256 * 256 + n % 256;
      TableStep(code, at, n, need);
    }
  }

  lemma SmallStep(code: seq<byte>, at: nat, n: nat, need: bool)
    requires at + 2 + 2 * n <= |code| && code[at] == 32 && code[at + 1] == n
    ensures Scan(code, at, need) == Scan(code, at + 2 + 2 * n, false)
  {}

  lemma TableStep(code: seq<byte>, at: nat, n: nat, need: bool)
    requires at + 3 + 8 * n <= |code| && code[at] == 33 && n == code[at + 2] as int * 256 + code[at + 1] as int
    ensures Scan(code, at, need) == Scan(code, at + 3 + 8 * n, false)
  {}

  lemma LeafScan(p: Pattern, count: nat, code: seq<byte>, at: nat, need: bool)
    requires Encodable(p, count) && CodeSize(p) < MAX_CODE && HasCode(code, at, Compile(p, count))
    requires p.Empty? || p.Chars? || p.Symbol? || p.Class? || p.BackRef? || p.Forget?
    ensures Scan(code, at, need) == After(p, code, at, need)
  {
    hide ClassBytes, Scan, HasCode;
    match p
    case Chars(bytes) => ConsumingStep(code, at, |bytes|, bytes, need);
    case Symbol(sym) =>
      var op := OpOf(sym);
      assert [op] == [op] + [];
      if TakesChar(sym) { ConsumingStep(code, at, op, [], need); } else { NeutralStep(code, at, op, [], need); }
    case Class(t) => ClassStep(code, at, t, need);
    case BackRef(i, fold) =>
      var op: byte := if fold then 31 else 30;
      assert [op, i] == [op] + [i];
      StopStep(code, at, op, [i], need);
    case Forget(low, high, _) => assert [21, low, high] == [21] + [low, high]; NeutralStep(code, at, 21, [low, high], need);
    case _ =>
  }

  /** A jump stops the scan. */
  lemma JumpStops(code: seq<byte>, at: nat, op: byte, offset: int, rest: seq<byte>, need: bool)
    requires IsOffset(offset) && HasCode(code, at, Jump(op, offset) + rest) && op in {14, 15, 34, 35}
    ensures Scan(code, at, need) == (need, true)
  {
    hide HasCode, WordBytes;
    var w := WordBytes(if offset < 0 then offset + WORD else offset);
    assert Jump(op, offset) + rest == [op] + (w + rest);
    StopStep(code, at, op, w + rest, need);
  }

  /** The scan finds in p's code what can be seen in p. */
  lemma {:induction false} ScanFinds(p: Pattern, count: nat, code: seq<byte>, at: nat, need: bool)
    requires Encodable(p, count) && CodeSize(p) < MAX_CODE && HasCode(code, at, Compile(p, count))
    ensures Scan(code, at, need) == After(p, code, at, need)
    decreases p, 1
  {
    hide HasCode, Scan, Compile, Encodable, CodeSize, After;
    match p
    case Concat(_, _) => ConcatScan(p, count, code, at, need);
    case Either(_, _) | Look(_, _) | Optional(_, _) | Repeat(_, _) => BranchScan(p, count, code, at, need);
    case Group(_, _) => GroupScan(p, count, code, at, need);
    case Plus(_, _) => PlusScan(p, count, code, at, need);
    case Counted(_, _, _, _, _, _, _) => CountedScan(p, count, code, at, need);
    case Guarded(_, _) => GuardedScan(p, count, code, at, need);
    case _ => LeafScan(p, count, code, at, need);
  }

  lemma ConcatScan(p: Pattern, count: nat, code: seq<byte>, at: nat, need: bool)
    requires p.Concat? && Encodable(p, count) && CodeSize(p) < MAX_CODE && HasCode(code, at, Compile(p, count))
    ensures Scan(code, at, need) == After(p, code, at, need)
    decreases p, 0
  {
    hide HasCode, Scan;
    var a, b := p.first, p.second;
    HasParts(code, at, Compile(a, count), Compile(b, count));
    ScanFinds(a, count, code, at, need);
    ScanFinds(b, count, code, at + CodeSize(a), need && !Consumes(a));
  }

  lemma BranchScan(p: Pattern, count: nat, code: seq<byte>, at: nat, need: bool)
    requires p.Either? || p.Look? || p.Optional? || p.Repeat?
    requires Encodable(p, count) && CodeSize(p) < MAX_CODE && HasCode(code, at, Compile(p, count))
    ensures Scan(code, at, need) == After(p, code, at, need)
  {
    hide HasCode, Scan;
    var op, offset, rest := StartsWithJump(p, count);
    JumpStops(code, at, op, offset, rest, need);
  }

  lemma StartsWithJump(p: Pattern, count: nat) returns (op: byte, offset: nat, rest: seq<byte>)
    requires p.Either? || p.Look? || p.Optional? || p.Repeat?
    requires Encodable(p, count) && CodeSize(p) < MAX_CODE
    ensures op in {14, 15, 34, 35} && IsOffset(offset) && Compile(p, count) == Jump(op, offset) + rest
  {
    hide Jump;
    match p
    case Either(a, b) =>
      op, offset, rest := 15, CodeSize(a) + 5, Compile(a, count) + Jump(13, CodeSize(b)) + Compile(b, count);
    case Look(negative, b) =>
      op, offset, rest := if negative then 35 else 34, CodeSize(b) + 1, Compile(b, count) + [if negative then 18 else 17];
    case Optional(b, greedy) =>
      op, offset, rest := SplitOp(greedy), CodeSize(b), Compile(b, count);
    case Repeat(b, greedy) =>
      op, offset, rest := SplitOp(greedy), CodeSize(b) + 5, Compile(b, count) + Jump(13, -(CodeSize(b) + 10));
  }

  lemma PlusScan(p: Pattern, count: nat, code: seq<byte>, at: nat, need: bool)
    requires p.Plus? && Encodable(p, count) && CodeSize(p) < MAX_CODE && HasCode(code, at, Compile(p, count))
    ensures Scan(code, at, need) == After(p, code, at, need)
    decreases p, 0
  {
    hide Jump, HasCode, Scan;
    var offset: int := -(CodeSize(p.body) + 5);
    var j := Jump(SplitOp(!p.greedy), offset);
    HasParts(code, at, Compile(p.body, count), j);
    ScanFinds(p.body, count, code, at, need);
    assert j + [] == j;
    JumpStops(code, at + CodeSize(p.body), SplitOp(!p.greedy), offset, [], need && !Consumes(p.body));
  }

  lemma GroupScan(p: Pattern, count: nat, code: seq<byte>, at: nat, need: bool)
    requires p.Group? && Encodable(p, count) && CodeSize(p) < MAX_CODE && HasCode(code, at, Compile(p, count))
    ensures Scan(code, at, need) == After(p, code, at, need)
    decreases p, 0
  {
    hide HasCode, Scan;
    var x, i := Compile(p.body, count), p.index;
    HasParts(code, at, [19, i] + x, [20, i]);
    HasParts(code, at, [19, i], x);
    assert [19, i] == [19] + [i] && [20, i] == [20] + [i];
    NeutralStep(code, at, 19, [i], need);
    ScanFinds(p.body, count, code, at + 2, need);
    NeutralStep(code, at + 2 + |x|, 20, [i], need && !Consumes(p.body));
  }

  lemma GuardedScan(p: Pattern, count: nat, code: seq<byte>, at: nat, need: bool)
    requires p.Guarded? && Encodable(p, count) && CodeSize(p) < MAX_CODE && HasCode(code, at, Compile(p, count))
    ensures Scan(code, at, need) == After(p, code, at, need)
    decreases p, 0
  {
    hide HasCode, Scan;
    var x, reg := Compile(p.body, count), p.slot - 2 * count;
    HasParts(code, at, [36, reg] + x, [37, reg]);
    HasParts(code, at, [36, reg], x);
    assert [36, reg] == [36] + [reg] && [37, reg] == [37] + [reg];
    NeutralStep(code, at, 36, [reg], need);
    ScanFinds(p.body, count, code, at + 2, need);
    StopStep(code, at + 2 + |x|, 37, [reg], need && !Consumes(p.body));
  }

  lemma CountedScan(p: Pattern, count: nat, code: seq<byte>, at: nat, need: bool)
    requires p.Counted? && Encodable(p, count) && CodeSize(p) < MAX_CODE && HasCode(code, at, Compile(p, count))
    ensures Scan(code, at, need) == After(p, code, at, need)
    decreases p, 0
  {
    hide HasCode, Scan, Jump, CounterBytes, LoopBody;
    var reg, mark, body := p.slot - 2 * count, MarkOf(p, count), Compile(p.body, count);
    var loop := CounterBytes(reg, p.max) + LoopBody(p, body, reg, mark);
    if p.min == 0 {
      JumpStops(code, at, SplitOp(p.greedy), |loop|, loop, need);
    } else {
      HasParts(code, at, CounterBytes(reg, p.max), LoopBody(p, body, reg, mark));
      CounterStep(code, at, reg, p.max, need);
      LoopScan(p, count, code, at + 6, need);
    }
  }

  lemma CounterStep(code: seq<byte>, at: nat, reg: byte, value: nat, need: bool)
    requires value < WORD && HasCode(code, at, CounterBytes(reg, value))
    ensures Scan(code, at, need) == Scan(code, at + 6, need)
  {
    hide HasCode, Scan, WordBytes;
    var w := [reg] + WordBytes(value);
    assert CounterBytes(reg, value) == [27] + w;
    NeutralStep(code, at, 27, w, need);
  }

  lemma LoopScan(p: Pattern, count: nat, code: seq<byte>, at: nat, need: bool)
    requires p.Counted? && Encodable(p, count) && CodeSize(p) < MAX_CODE
    requires HasCode(code, at, LoopBody(p, Compile(p.body, count), p.slot - 2 * count, MarkOf(p, count)))
    ensures Scan(code, at, need) == (need && !Consumes(p.body), true)
    decreases p.body, 2
  {
    hide HasCode, Scan, LoopBytes, LoopBody, Compile, Consumes;
    var reg: nat, mark: nat, body := p.slot - 2 * count, MarkOf(p, count), Compile(p.body, count);
    var head := LoopPieces(p, code, at, body, reg, mark);
    if p.check {
      assert head == [36] + [mark];
      NeutralStep(code, at, 36, [mark], need);
    }
    var mid := at + |head|;
    ScanFinds(p.body, count, code, mid, need);
    LoopStops(p, code, mid + |body|, reg, -(|head| + |body| + if p.min == p.max then 6 else 10), need && !Consumes(p.body));
  }

  lemma LoopPieces(p: Pattern, code: seq<byte>, at: nat, body: seq<byte>, reg: byte, mark: byte) returns (head: seq<byte>)
    requires p.Counted? && Limit(p) < WORD && |body| < MAX_CODE && HasCode(code, at, LoopBody(p, body, reg, mark))
    ensures head == if p.check then [36, mark] else []
    ensures HasCode(code, at, head) && HasCode(code, at + |head|, body)
    ensures HasCode(code, at + |head| + |body|, LoopBytes(p, reg, -(|head| + |body| + if p.min == p.max then 6 else 10)))
  {
    hide HasCode, LoopBytes;
    head := if p.check then [36, mark] else [];
    var end := LoopBytes(p, reg, -(|head| + |body| + if p.min == p.max then 6 else 10));
    HasParts(code, at, head + body, end);
    HasParts(code, at, head, body);
  }

  lemma LoopStops(p: Pattern, code: seq<byte>, at: nat, reg: byte, back: int, need: bool)
    requires p.Counted? && Limit(p) < WORD && IsOffset(back) && HasCode(code, at, LoopBytes(p, reg, back))
    ensures Scan(code, at, need) == (need, true)
  {
    hide HasCode, Scan, OffsetBytes, Limit;
    var b := LoopBytes(p, reg, back);
    assert b == [b[0]] + b[1..];
    StopStep(code, at, b[0], b[1..], need);
  }
}
