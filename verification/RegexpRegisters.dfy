/** The pass that numbers the registers of loops: like a stack, by how deep they are nested. */
module RegexpRegisters {
  import opened Bytes
  import opened Options
  import opened RegexpCode
  import opened RegexpPattern
  import opened RegexpMeaning
  import opened RegexpScan

  const REGISTER_COUNT_MAX: nat := 255

  function Max(a: int, b: int): int { if a < b then b else a }

  function SetByte(code: seq<byte>, i: nat, v: int): (r: seq<byte>)
    ensures |r| == |code|
  {
    if i < |code| then code[i := v % 256] else code
  }

  /** The code with the registers from pos on numbered and the most in use at a time, unless that is too many or a back
      reference is beyond the captures. */
  function Renumber(count: nat, code: seq<byte>, pos: nat, depth: int, most: int): Option<(seq<byte>, int)>
    decreases |code| - pos
  {
    if pos >= |code| then Some((code, most))
    else
      var op, next := code[pos], pos + SizeAt(code, pos);
      if op == 27 || op == 36 then
        if depth + 1 > most && depth + 1 > REGISTER_COUNT_MAX then None
        else Renumber(count, SetByte(code, pos + 1, depth), next, depth + 1, Max(most, depth + 1))
      else if op == 37 || op == 22 || op == 23 || op == 24 then
        Renumber(count, SetByte(code, pos + 1, depth - 1), next, depth - 1, most)
      else if op == 25 || op == 26 then
        Renumber(count, SetByte(code, pos + 1, depth - 2), next, depth - 2, most)
      else if (op == 30 || op == 31) && ByteAt(code, pos + 1) as int >= count then None
      else Renumber(count, code, next, depth, most)
  }

  // ---------- which numbers a pattern's registers get ----------

  /** As it is before the pass: every register is 0. */
  function Cleared(p: Pattern): Pattern {
    match p
    case Concat(a, b) => Concat(Cleared(a), Cleared(b))
    case Either(a, b) => Either(Cleared(a), Cleared(b))
    case Group(i, b) => Group(i, Cleared(b))
    case Look(negative, b) => Look(negative, Cleared(b))
    case Optional(b, greedy) => Optional(Cleared(b), greedy)
    case Repeat(b, greedy) => Repeat(Cleared(b), greedy)
    case Plus(b, greedy) => Plus(Cleared(b), greedy)
    case Counted(b, min, max, greedy, check, slot, mark) => Counted(Cleared(b), min, max, greedy, check, 0, 0)
    case Guarded(slot, b) => Guarded(0, Cleared(b))
    case _ => p
  }

  /** Registers in use at a time. */
  function Depth(p: Pattern): nat {
    match p
    case Concat(a, b) => Max(Depth(a), Depth(b))
    case Either(a, b) => Max(Depth(a), Depth(b))
    case Group(_, b) => Depth(b)
    case Look(_, b) => Depth(b)
    case Optional(b, _) => Depth(b)
    case Repeat(b, _) => Depth(b)
    case Plus(b, _) => Depth(b)
    case Counted(b, _, _, _, check, _, _) => Depth(b) + if check then 2 else 1
    case Guarded(_, b) => Depth(b) + 1
    case _ => 0
  }

  /** Back references are to captures before count. */
  predicate Refers(p: Pattern, count: nat) {
    match p
    case BackRef(i, _) => i < count
    case Concat(a, b) => Refers(a, count) && Refers(b, count)
    case Either(a, b) => Refers(a, count) && Refers(b, count)
    case Group(_, b) => Refers(b, count)
    case Look(_, b) => Refers(b, count)
    case Optional(b, _) => Refers(b, count)
    case Repeat(b, _) => Refers(b, count)
    case Plus(b, _) => Refers(b, count)
    case Counted(b, _, _, _, _, _, _) => Refers(b, count)
    case Guarded(_, b) => Refers(b, count)
    case _ => true
  }

  /** Registers p needs from depth d on: too many if a back reference is beyond the captures. */
  function Need(p: Pattern, count: nat, d: nat): nat {
    Max(d + Depth(p), if Refers(p, count) then 0 else REGISTER_COUNT_MAX + 1)
  }

  /** Registers are numbered by nesting from d on. */
  predicate Stacked(p: Pattern, count: nat, d: nat) {
    match p
    case Concat(a, b) => Stacked(a, count, d) && Stacked(b, count, d)
    case Either(a, b) => Stacked(a, count, d) && Stacked(b, count, d)
    case Group(_, b) => Stacked(b, count, d)
    case Look(_, b) => Stacked(b, count, d)
    case Optional(b, _) => Stacked(b, count, d)
    case Repeat(b, _) => Stacked(b, count, d)
    case Plus(b, _) => Stacked(b, count, d)
    case Counted(b, _, _, _, check, slot, mark) => slot == 2 * count + d && mark == slot + 1 && Stacked(b, count, d + if check then 2 else 1)
    case Guarded(slot, b) => slot == 2 * count + d && Stacked(b, count, d + 1)
    case _ => true
  }

  lemma {:induction false} ClearedSame(p: Pattern)
    ensures CodeSize(Cleared(p)) == CodeSize(p) && Consumes(Cleared(p)) == Consumes(p) && Stops(Cleared(p)) == Stops(p)
  {
    match p
    case Concat(a, b) => ClearedSame(a); ClearedSame(b);
    case Either(a, b) => ClearedSame(a); ClearedSame(b);
    case Group(_, b) => ClearedSame(b);
    case Look(_, b) => ClearedSame(b);
    case Optional(b, _) => ClearedSame(b);
    case Repeat(b, _) => ClearedSame(b);
    case Plus(b, _) => ClearedSame(b);
    case Counted(b, _, _, _, _, _, _) => ClearedSame(b);
    case Guarded(_, b) => ClearedSame(b);
    case _ =>
  }

  /** Numbered by nesting, the registers fit their bytes when there are not too many. */
  lemma {:induction false} FitsWhenFew(p: Pattern, count: nat, d: nat)
    requires Encodable(Cleared(p), 0) && Stacked(p, count, d) && d + Depth(p) <= REGISTER_COUNT_MAX
    ensures Encodable(p, count)
  {
    match p
    case Concat(a, b) => FitsWhenFew(a, count, d); FitsWhenFew(b, count, d);
    case Either(a, b) => FitsWhenFew(a, count, d); FitsWhenFew(b, count, d);
    case Group(_, b) => FitsWhenFew(b, count, d);
    case Look(_, b) => FitsWhenFew(b, count, d);
    case Optional(b, _) => FitsWhenFew(b, count, d);
    case Repeat(b, _) => FitsWhenFew(b, count, d);
    case Plus(b, _) => FitsWhenFew(b, count, d);
    case Counted(b, _, _, _, check, _, _) => FitsWhenFew(b, count, d + if check then 2 else 1);
    case Guarded(_, b) => FitsWhenFew(b, count, d + 1);
    case _ =>
  }

  // ---------- the pass on a stretch of code ----------

  predicate NumbersIn(count: nat, before: seq<byte>, after: seq<byte>, most: nat, x: seq<byte>, y: seq<byte>, d: nat, e: nat, need: nat) {
    Renumber(count, before + x + after, |before|, d, most)
    == if need > REGISTER_COUNT_MAX then None else Renumber(count, before + y + after, |before| + |y|, e, Max(most, need))
  }

  /** Wherever it is, x becomes y, taking the depth from d to e with need registers in use, or failing if they are too many. */
  ghost predicate Numbers(count: nat, x: seq<byte>, y: seq<byte>, d: nat, e: nat, need: nat) {
    |x| == |y| && forall before, after, most: nat :: d <= most <= REGISTER_COUNT_MAX ==> NumbersIn(count, before, after, most, x, y, d, e, need)
  }

  lemma NumbersNothing(count: nat, d: nat)
    ensures Numbers(count, [], [], d, d, d)
  {
    hide Renumber;
    forall before: seq<byte>, after: seq<byte>, most: nat | d <= most <= REGISTER_COUNT_MAX
      ensures NumbersIn(count, before, after, most, [], [], d, d, d)
    {
      assert before + [] + after == before + after;
    }
  }

  lemma NumbersTwo(count: nat, x: seq<byte>, y: seq<byte>, d: nat, e: nat, m: nat, x': seq<byte>, y': seq<byte>, f: nat, n: nat)
    requires Numbers(count, x, y, d, e, m) && Numbers(count, x', y', e, f, n) && e <= Max(d, m)
    ensures Numbers(count, x + x', y + y', d, f, Max(m, n))
  {
    hide Renumber, NumbersIn;
    forall before: seq<byte>, after: seq<byte>, most: nat | d <= most <= REGISTER_COUNT_MAX
      ensures NumbersIn(count, before, after, most, x + x', y + y', d, f, Max(m, n))
    {
      assert NumbersIn(count, before, x' + after, most, x, y, d, e, m);
      if m <= REGISTER_COUNT_MAX { assert NumbersIn(count, before + y, after, Max(most, m), x', y', e, f, n); }
      TwoSteps(count, before, after, most, x, y, d, e, m, x', y', f, n);
    }
  }

  lemma TwoSteps(count: nat, before: seq<byte>, after: seq<byte>, most: nat, x: seq<byte>, y: seq<byte>, d: nat, e: nat, m: nat,
                 x': seq<byte>, y': seq<byte>, f: nat, n: nat)
    requires NumbersIn(count, before, x' + after, most, x, y, d, e, m)
    requires m <= REGISTER_COUNT_MAX ==> NumbersIn(count, before + y, after, Max(most, m), x', y', e, f, n)
    ensures NumbersIn(count, before, after, most, x + x', y + y', d, f, Max(m, n))
  {
    hide Renumber;
    assert before + (x + x') + after == before + x + (x' + after);
    assert before + y + (x' + after) == (before + y) + x' + after;
    assert before + (y + y') + after == (before + y) + y' + after;
  }

  lemma Fails(count: nat, x: seq<byte>, y: seq<byte>, z: seq<byte>, d: nat, e: nat, need: nat)
    requires Numbers(count, x, y, d, e, need) && need > REGISTER_COUNT_MAX && |z| == |x|
    ensures Numbers(count, x, z, d, e, need)
  {
    hide Renumber;
    forall before: seq<byte>, after: seq<byte>, most: nat | d <= most <= REGISTER_COUNT_MAX
      ensures NumbersIn(count, before, after, most, x, z, d, e, need)
    {
      assert NumbersIn(count, before, after, most, x, y, d, e, need);
    }
  }

  predicate IsPlain(op: byte) { op !in {22, 23, 24, 25, 26, 27, 30, 31, 32, 33, 36, 37} }

  lemma NumbersPlain(count: nat, op: byte, rest: seq<byte>, d: nat)
    requires IsPlain(op) && |rest| == OpSize(op) - 1
    ensures Numbers(count, [op] + rest, [op] + rest, d, d, d)
  {
    var x := [op] + rest;
    forall before: seq<byte>, after: seq<byte>, most: nat | d <= most <= REGISTER_COUNT_MAX
      ensures NumbersIn(count, before, after, most, x, x, d, d, d)
    {
      assert (before + x + after)[|before|] == op;
    }
  }

  /** A back reference, refused beyond the captures. */
  lemma NumbersReference(count: nat, op: byte, i: byte, d: nat)
    requires op in {30, 31}
    ensures Numbers(count, [op, i], [op, i], d, d, Max(d, if i < count then 0 else REGISTER_COUNT_MAX + 1))
  {
    var x, need := [op, i], Max(d, if i < count then 0 else REGISTER_COUNT_MAX + 1);
    forall before: seq<byte>, after: seq<byte>, most: nat | d <= most <= REGISTER_COUNT_MAX
      ensures NumbersIn(count, before, after, most, x, x, d, d, need)
    {
      var code, at := before + x + after, |before|;
      assert code[at] == op && code[at + 1] == i;
    }
  }

  lemma NumbersClass(count: nat, t: seq<nat>, d: nat)
    requires IsTable(t)
    ensures Numbers(count, ClassBytes(t), ClassBytes(t), d, d, d)
  {
    if IsSmall(t) { NumbersSmall(count, t, d); } else { NumbersTable(count, t, d); }
  }

  lemma NumbersSmall(count: nat, t: seq<nat>, d: nat)
    requires IsTable(t) && IsSmall(t)
    ensures Numbers(count, ClassBytes(t), ClassBytes(t), d, d, d)
  {
    hide SmallBytes, Shortened;
    var x, n := ClassBytes(t), |t| / 2;
    forall before: seq<byte>, after: seq<byte>, most: nat | d <= most <= REGISTER_COUNT_MAX
      ensures NumbersIn(count, before, after, most, x, x, d, d, d)
    {
      var code, at := before + x + after, |before|;
      assert code[at] == x[0] == 32 && code[at + 1] == x[1] == n;
    }
  }

  lemma NumbersTable(count: nat, t: seq<nat>, d: nat)
    requires IsTable(t) && !IsSmall(t)
    ensures Numbers(count, ClassBytes(t), ClassBytes(t), d, d, d)
  {
    hide TableBytes;
    var x, n := ClassBytes(t), |t| / 2;
    assert n == n / 256 * 256 + n % 256;
    forall before: seq<byte>, after: seq<byte>, most: nat | d <= most <= REGISTER_COUNT_MAX
      ensures NumbersIn(count, before, after, most, x, x, d, d, d)
    {
      var code, at := before + x + after, |before|;
      assert code[at] == x[0] == 33 && code[at + 1] == x[1] == n % 256 && code[at + 2] == x[2] == n / 256;
    }
  }

  lemma SetOperand(before: seq<byte>, op: byte, v: nat, rest: seq<byte>, after: seq<byte>)
    ensures SetByte(before + ([op, 0] + rest) + after, |before| + 1, v) == before + ([op, v % 256] + rest) + after
    ensures (before + ([op, 0] + rest) + after)[|before|] == op
  {}

  /** A register comes into use. */
  lemma NumbersPush(count: nat, op: byte, rest: seq<byte>, d: nat)
    requires op in {27, 36} && |rest| == OpSize(op) - 2
    ensures Numbers(count, [op, 0] + rest, [op, d % 256] + rest, d, d + 1, d + 1)
  {
    hide SetByte;
    var x, y, e := [op, 0] + rest, [op, d % 256] + rest, d + 1;
    forall before: seq<byte>, after: seq<byte>, most: nat | d <= most <= REGISTER_COUNT_MAX
      ensures NumbersIn(count, before, after, most, x, y, d, e, e)
    {
      SetOperand(before, op, d, rest, after);
    }
  }

  /** One or two go out of use. */
  lemma NumbersPop(count: nat, op: byte, rest: seq<byte>, d: nat)
    requires op in {22, 23, 24, 25, 26, 37} && |rest| == OpSize(op) - 2
    ensures var e := d + if op in {25, 26} then 2 else 1; Numbers(count, [op, 0] + rest, [op, d % 256] + rest, e, d, e)
  {
    hide SetByte;
    var x, y, e := [op, 0] + rest, [op, d % 256] + rest, d + if op in {25, 26} then 2 else 1;
    forall before: seq<byte>, after: seq<byte>, most: nat | e <= most <= REGISTER_COUNT_MAX
      ensures NumbersIn(count, before, after, most, x, y, e, d, e)
    {
      SetOperand(before, op, d, rest, after);
    }
  }

  // ---------- the pass on a pattern's code ----------

  /** The code with numbered registers; if they are too many there is none. */
  function Target(p: Pattern, count: nat): (r: seq<byte>)
    requires Encodable(Cleared(p), 0) && CodeSize(p) < MAX_CODE
    ensures |r| == CodeSize(p)
  {
    ClearedSame(p);
    if Encodable(p, count) then Compile(p, count) else Compile(Cleared(p), 0)
  }

  ghost predicate Assigned(p: Pattern, count: nat, d: nat)
    requires Encodable(Cleared(p), 0) && CodeSize(p) < MAX_CODE
  {
    ClearedSame(p);
    Numbers(count, Compile(Cleared(p), 0), Target(p, count), d, d, Need(p, count, d))
  }

  lemma Finish(p: Pattern, count: nat, d: nat, y: seq<byte>)
    requires Encodable(Cleared(p), 0) && CodeSize(p) < MAX_CODE && CodeSize(Cleared(p)) == CodeSize(p) && Stacked(p, count, d)
    requires Numbers(count, Compile(Cleared(p), 0), y, d, d, Need(p, count, d))
    requires Encodable(p, count) ==> y == Compile(p, count)
    ensures Assigned(p, count, d)
  {
    hide Numbers, Encodable, Compile, Cleared, Stacked;
    if !Encodable(p, count) {
      if d + Depth(p) <= REGISTER_COUNT_MAX { FitsWhenFew(p, count, d); }
      Fails(count, Compile(Cleared(p), 0), y, Compile(Cleared(p), 0), d, d, Need(p, count, d));
    }
  }

  lemma NumbersJump(count: nat, op: byte, offset: int, d: nat)
    requires IsOffset(offset) && op in {13, 14, 15, 34, 35}
    ensures Numbers(count, Jump(op, offset), Jump(op, offset), d, d, d)
  {
    hide Numbers, WordBytes;
    NumbersPlain(count, op, WordBytes(if offset < 0 then offset + WORD else offset), d);
  }

  /** What the pass makes of a pattern's code is the code with numbered registers. */
  lemma {:induction false} PassNumbers(p: Pattern, count: nat, d: nat)
    requires Encodable(Cleared(p), 0) && CodeSize(p) < MAX_CODE && Stacked(p, count, d)
    ensures Assigned(p, count, d)
    decreases p, 1
  {
    hide Numbers, Compile, Encodable, CodeSize, Cleared, Stacked, Assigned;
    match p
    case Concat(_, _) => ConcatNumbers(p, count, d);
    case Either(_, _) => EitherNumbers(p, count, d);
    case Group(_, _) | Look(_, _) | Optional(_, _) | Repeat(_, _) | Plus(_, _) => WrapNumbers(p, count, d);
    case Counted(_, _, _, _, _, _, _) => CountedNumbers(p, count, d);
    case Guarded(_, _) => GuardedNumbers(p, count, d);
    case _ => LeafNumbers(p, count, d);
  }

  lemma LeafNumbers(p: Pattern, count: nat, d: nat)
    requires p.Empty? || p.Chars? || p.Symbol? || p.Class? || p.BackRef? || p.Forget?
    requires Encodable(Cleared(p), 0) && CodeSize(p) < MAX_CODE
    ensures Assigned(p, count, d)
  {
    hide Numbers, ClassBytes;
    match p
    case Empty => NumbersNothing(count, d);
    case Chars(bytes) => NumbersPlain(count, |bytes|, bytes, d);
    case Class(t) => NumbersClass(count, t, d);
    case Forget(low, high, _) => assert [21, low, high] == [21] + [low, high]; NumbersPlain(count, 21, [low, high], d);
    case Symbol(sym) => assert [OpOf(sym)] + [] == [OpOf(sym)]; NumbersPlain(count, OpOf(sym), [], d);
    case BackRef(i, fold) =>
      var op: byte := if fold then 31 else 30;
      assert [op] + [i] == [op, i];
      NumbersReference(count, op, i, d);
  }

  /** A pattern the pass can be shown to number. */
  ghost predicate Ready(p: Pattern, count: nat, d: nat) {
    Encodable(Cleared(p), 0) && CodeSize(p) < MAX_CODE && CodeSize(Cleared(p)) == CodeSize(p) && Stacked(p, count, d)
  }

  lemma ConcatParts(p: Pattern, count: nat, d: nat)
    requires p.Concat? && Encodable(Cleared(p), 0) && CodeSize(p) < MAX_CODE && Stacked(p, count, d)
    ensures Ready(p, count, d) && Ready(p.first, count, d) && Ready(p.second, count, d)
    ensures Depth(p) == Max(Depth(p.first), Depth(p.second))
    ensures Compile(Cleared(p), 0) == Compile(Cleared(p.first), 0) + Compile(Cleared(p.second), 0)
    ensures Encodable(p, count) ==> Compile(p, count) == Target(p.first, count) + Target(p.second, count)
  {
    ClearedSame(p.first);
    ClearedSame(p.second);
  }

  lemma ConcatNumbers(p: Pattern, count: nat, d: nat)
    requires p.Concat? && Encodable(Cleared(p), 0) && CodeSize(p) < MAX_CODE && Stacked(p, count, d)
    ensures Assigned(p, count, d)
    decreases p, 0
  {
    hide Numbers, Compile, Encodable, CodeSize, Cleared, Stacked, Target, Depth;
    ConcatParts(p, count, d);
    var a, b := p.first, p.second;
    PassNumbers(a, count, d);
    PassNumbers(b, count, d);
    NumbersTwo(count, Compile(Cleared(a), 0), Target(a, count), d, d, Need(a, count, d), Compile(Cleared(b), 0), Target(b, count), d, Need(b, count, d));
    Finish(p, count, d, Target(a, count) + Target(b, count));
  }

  /** Between two stretches that leave the depth as it is. */
  lemma NumbersBetween(x: seq<byte>, b: Pattern, z: seq<byte>, count: nat, d: nat)
    requires Encodable(Cleared(b), 0) && CodeSize(b) < MAX_CODE && Assigned(b, count, d)
    requires Numbers(count, x, x, d, d, d) && Numbers(count, z, z, d, d, d)
    ensures CodeSize(Cleared(b)) == CodeSize(b)
    ensures Numbers(count, x + Compile(Cleared(b), 0) + z, x + Target(b, count) + z, d, d, Need(b, count, d))
  {
    hide Numbers, Encodable, Compile, Cleared, Target;
    ClearedSame(b);
    var y0, y, n := Compile(Cleared(b), 0), Target(b, count), Need(b, count, d);
    NumbersTwo(count, x, x, d, d, d, y0, y, d, n);
    NumbersTwo(count, x + y0, x + y, d, d, n, z, z, d, d);
  }

  lemma EitherParts(p: Pattern, count: nat, d: nat)
    requires p.Either? && Encodable(Cleared(p), 0) && CodeSize(p) < MAX_CODE && Stacked(p, count, d)
    ensures Ready(p, count, d) && Ready(p.left, count, d) && Ready(p.right, count, d)
    ensures Depth(p) == Max(Depth(p.left), Depth(p.right)) && CodeSize(p.left) + CodeSize(p.right) + 10 < MAX_CODE
    ensures var x, z := Jump(15, CodeSize(p.left) + 5), Jump(13, CodeSize(p.right));
            && Compile(Cleared(p), 0) == x + Compile(Cleared(p.left), 0) + z + Compile(Cleared(p.right), 0)
            && (Encodable(p, count) ==> Compile(p, count) == x + Target(p.left, count) + z + Target(p.right, count))
  {
    hide Jump;
    ClearedSame(p.left);
    ClearedSame(p.right);
  }

  lemma EitherNumbers(p: Pattern, count: nat, d: nat)
    requires p.Either? && Encodable(Cleared(p), 0) && CodeSize(p) < MAX_CODE && Stacked(p, count, d)
    ensures Assigned(p, count, d)
    decreases p, 0
  {
    hide Numbers, Compile, Encodable, CodeSize, Cleared, Stacked, Target, Depth, Jump;
    EitherParts(p, count, d);
    var a, b := p.left, p.right;
    PassNumbers(a, count, d);
    PassNumbers(b, count, d);
    var x, z := Jump(15, CodeSize(a) + 5), Jump(13, CodeSize(b));
    NumbersJump(count, 15, CodeSize(a) + 5, d);
    NumbersJump(count, 13, CodeSize(b), d);
    NumbersBetween(x, a, z, count, d);
    var y0, y := x + Compile(Cleared(a), 0) + z, x + Target(a, count) + z;
    NumbersTwo(count, y0, y, d, d, Need(a, count, d), Compile(Cleared(b), 0), Target(b, count), d, Need(b, count, d));
    Finish(p, count, d, y + Target(b, count));
  }

  /** The code around the body of a pattern that has one and uses no register. */
  predicate IsAround(p: Pattern, x: seq<byte>, z: seq<byte>)
    requires p.Group? || p.Look? || p.Optional? || p.Repeat? || p.Plus?
    requires CodeSize(p) < MAX_CODE
  {
    var size: int := CodeSize(p.body);
    match p
    case Group(i, _) => i < 256 && x == [19, i] && z == [20, i]
    case Look(negative, _) => x == Jump(if negative then 35 else 34, size + 1) && z == [if negative then 18 else 17]
    case Optional(_, greedy) => x == Jump(SplitOp(greedy), size) && z == []
    case Repeat(_, greedy) => x == Jump(SplitOp(greedy), size + 5) && z == Jump(13, -(size + 10))
    case Plus(_, greedy) => x == [] && z == Jump(SplitOp(!greedy), -(size + 5))
  }

  lemma WrapReady(p: Pattern, count: nat, d: nat, x: seq<byte>, z: seq<byte>)
    requires p.Group? || p.Look? || p.Optional? || p.Repeat? || p.Plus?
    requires Encodable(Cleared(p), 0) && CodeSize(p) < MAX_CODE && Stacked(p, count, d) && IsAround(p, x, z)
    ensures Ready(p, count, d) && Ready(p.body, count, d) && Depth(p) == Depth(p.body)
    ensures var q := Cleared(p); (q.Group? || q.Look? || q.Optional? || q.Repeat? || q.Plus?) && q.body == Cleared(p.body)
    ensures CodeSize(Cleared(p)) < MAX_CODE && IsAround(Cleared(p), x, z)
  {
    hide Jump;
    ClearedSame(p.body);
  }

  /** The parts of such a pattern's code. */
  lemma WrapCode(p: Pattern, count: nat, x: seq<byte>, z: seq<byte>)
    requires p.Group? || p.Look? || p.Optional? || p.Repeat? || p.Plus?
    requires Encodable(p, count) && CodeSize(p) < MAX_CODE && IsAround(p, x, z)
    ensures Encodable(p.body, count) && CodeSize(p.body) < MAX_CODE && Compile(p, count) == x + Compile(p.body, count) + z
  {
    hide Jump, ClassBytes, CountedBytes;
    var b := Compile(p.body, count);
    if p.Plus? {
      assert x + b == b;
    } else if p.Optional? {
      assert x + b + z == x + b;
    }
  }

  lemma WrapNumbers(p: Pattern, count: nat, d: nat)
    requires p.Group? || p.Look? || p.Optional? || p.Repeat? || p.Plus?
    requires Encodable(Cleared(p), 0) && CodeSize(p) < MAX_CODE && Stacked(p, count, d)
    ensures Assigned(p, count, d)
    decreases p, 0
  {
    hide Numbers, Compile, Encodable, Cleared, Stacked, Depth, Jump, CodeSize, IsAround;
    var x, z := Around(count, p, d);
    WrapReady(p, count, d, x, z);
    WrapCode(Cleared(p), 0, x, z);
    if Encodable(p, count) { WrapCode(p, count, x, z); }
    PassNumbers(p.body, count, d);
    NumbersBetween(x, p.body, z, count, d);
    Finish(p, count, d, x + Target(p.body, count) + z);
  }

  lemma Around(count: nat, p: Pattern, d: nat) returns (x: seq<byte>, z: seq<byte>)
    requires p.Group? || p.Look? || p.Optional? || p.Repeat? || p.Plus?
    requires Encodable(Cleared(p), 0) && CodeSize(p) < MAX_CODE
    ensures Numbers(count, x, x, d, d, d) && Numbers(count, z, z, d, d, d) && IsAround(p, x, z)
  {
    hide Numbers, Jump;
    var size: int := CodeSize(p.body);
    match p
    case Group(i, _) =>
      x, z := [19, i], [20, i];
      assert [19, i] == [19] + [i] && [20, i] == [20] + [i];
      NumbersPlain(count, 19, [i], d);
      NumbersPlain(count, 20, [i], d);
    case Look(negative, _) =>
      var op, end: byte := if negative then 35 else 34, if negative then 18 else 17;
      x, z := Jump(op, size + 1), [end];
      NumbersJump(count, op, size + 1, d);
      assert [end] + [] == [end];
      NumbersPlain(count, end, [], d);
    case Optional(_, greedy) =>
      x, z := Jump(SplitOp(greedy), size), [];
      NumbersJump(count, SplitOp(greedy), size, d);
      NumbersNothing(count, d);
    case Repeat(_, greedy) =>
      x, z := Jump(SplitOp(greedy), size + 5), Jump(13, -(size + 10));
      NumbersJump(count, SplitOp(greedy), size + 5, d);
      NumbersJump(count, 13, -(size + 10), d);
    case Plus(_, greedy) =>
      x, z := [], Jump(SplitOp(!greedy), -(size + 5));
      NumbersNothing(count, d);
      NumbersJump(count, SplitOp(!greedy), -(size + 5), d);
  }

  lemma GuardedParts(p: Pattern, count: nat, d: nat)
    requires p.Guarded? && Encodable(Cleared(p), 0) && CodeSize(p) < MAX_CODE && Stacked(p, count, d)
    ensures Ready(p, count, d) && Ready(p.body, count, d + 1) && Depth(p) == Depth(p.body) + 1
    ensures Compile(Cleared(p), 0) == [36, 0] + Compile(Cleared(p.body), 0) + [37, 0]
    ensures Encodable(p, count) ==> Compile(p, count) == [36, d % 256] + Target(p.body, count) + [37, d % 256]
  {
    hide ClassBytes, CountedBytes, Jump;
    ClearedSame(p.body);
  }

  lemma GuardedNumbers(p: Pattern, count: nat, d: nat)
    requires p.Guarded? && Encodable(Cleared(p), 0) && CodeSize(p) < MAX_CODE && Stacked(p, count, d)
    ensures Assigned(p, count, d)
    decreases p, 0
  {
    hide Numbers, Compile, Encodable, CodeSize, Cleared, Stacked, Target, Depth;
    GuardedParts(p, count, d);
    PassNumbers(p.body, count, d + 1);
    var x0, x, z0, z := [36, 0], [36, d % 256], [37, 0], [37, d % 256];
    var y0, y, n := Compile(Cleared(p.body), 0), Target(p.body, count), Need(p.body, count, d + 1);
    assert x0 + [] == x0 && x + [] == x && z0 + [] == z0 && z + [] == z;
    NumbersPush(count, 36, [], d);
    NumbersPop(count, 37, [], d);
    NumbersTwo(count, x0, x, d, d + 1, d + 1, y0, y, d + 1, n);
    NumbersTwo(count, x0 + y0, x + y, d, d + 1, n, z0, z, d, d + 1);
    Finish(p, count, d, x + y + z);
  }

  /** What ends a loop, before the pass and after it. */
  lemma LoopEndNumbers(count: nat, p: Pattern, back: int, d: nat)
    requires p.Counted? && Limit(p) < WORD && IsOffset(back) && (p.min == p.max ==> !p.check)
    ensures var e := d + if p.check then 2 else 1;
            Numbers(count, LoopBytes(p, 0, back), LoopBytes(p, d % 256, back), e, d, e)
  {
    hide Numbers, WordBytes;
    var op := if p.min == p.max then 22 else (if p.check then 26 else 24) - (if p.greedy then 1 else 0);
    var rest := if p.min == p.max then OffsetBytes(back) else WordBytes(Limit(p)) + OffsetBytes(back);
    assert LoopBytes(p, d % 256, back) == [op, d % 256] + rest;
    assert LoopBytes(p, 0, back) == [op, 0] + rest;
    NumbersPop(count, op, rest, d);
  }

  /** The pass over the start of a loop: its counter, and where it remembers the position. */
  lemma LoopHeadNumbers(count: nat, p: Pattern, d: nat) returns (x0: seq<byte>, x: seq<byte>)
    requires p.Counted? && p.max < WORD
    ensures x0 == CounterBytes(0, p.max) + if p.check then [36, 0] else []
    ensures x == CounterBytes(d % 256, p.max) + if p.check then [36, (d + 1) % 256] else []
    ensures var e := d + if p.check then 2 else 1; Numbers(count, x0, x, d, e, e)
  {
    hide Numbers, WordBytes;
    var w := WordBytes(p.max);
    x0, x := CounterBytes(0, p.max), CounterBytes(d % 256, p.max);
    assert x0 == [27, 0] + w && x == [27, d % 256] + w;
    NumbersPush(count, 27, w, d);
    if p.check {
      var z0, z := [36, 0], [36, (d + 1) % 256];
      assert z0 + [] == z0 && z + [] == z;
      NumbersPush(count, 36, [], d + 1);
      NumbersTwo(count, x0, x, d, d + 1, d + 1, z0, z, d + 2, d + 2);
      x0, x := x0 + z0, x + z;
    } else {
      assert x0 + [] == x0 && x + [] == x;
    }
  }

  /** The way around a counted loop, where there is one. */
  function LoopBypass(p: Pattern): seq<byte>
    requires p.Counted? && CountedSize(p, CodeSize(p.body)) < MAX_CODE
  {
    if p.min == 0 then Jump(SplitOp(p.greedy), CountedSize(p, CodeSize(p.body)) - 5) else []
  }

  /** How far a loop jumps back. */
  function LoopBack(p: Pattern): int
    requires p.Counted?
  {
    -((if p.check then 2 else 0) + CodeSize(p.body) + if p.min == p.max then 6 else 10)
  }

  /** The code of a counted loop from its parts. */
  function LoopCode(p: Pattern, head: seq<byte>, body: seq<byte>, reg: byte): seq<byte>
    requires p.Counted? && Limit(p) < WORD && CountedSize(p, CodeSize(p.body)) < MAX_CODE
  {
    LoopBypass(p) + (head + body + LoopBytes(p, reg, LoopBack(p)))
  }

  lemma CountedParts(p: Pattern, count: nat, d: nat, x0: seq<byte>, x: seq<byte>)
    requires p.Counted? && Encodable(Cleared(p), 0) && CodeSize(p) < MAX_CODE && Stacked(p, count, d)
    requires x0 == CounterBytes(0, p.max) + if p.check then [36, 0] else []
    requires x == CounterBytes(d % 256, p.max) + if p.check then [36, (d + 1) % 256] else []
    ensures var k := if p.check then 2 else 1;
            Ready(p, count, d) && Ready(p.body, count, d + k) && Depth(p) == Depth(p.body) + k
    ensures p.max < WORD && Limit(p) < WORD && CountedSize(p, CodeSize(p.body)) < MAX_CODE && (p.min == p.max ==> !p.check)
    ensures Compile(Cleared(p), 0) == LoopCode(p, x0, Compile(Cleared(p.body), 0), 0)
    ensures Encodable(p, count) ==> Compile(p, count) == LoopCode(p, x, Target(p.body, count), d % 256)
  {
    hide Jump, CounterBytes, LoopBytes;
    ClearedSame(p.body);
    CountedCode(p, Compile(Cleared(p.body), 0), 0, 0, x0);
    assert CountedBytes(p, Compile(Cleared(p.body), 0), 0, 0) == CountedBytes(Cleared(p), Compile(Cleared(p.body), 0), 0, 0) by {
      SameLoop(p, Cleared(p), Compile(Cleared(p.body), 0));
    }
    if Encodable(p, count) { CountedCode(p, Target(p.body, count), d % 256, MarkOf(p, count), x); }
  }

  lemma SameLoop(p: Pattern, q: Pattern, body: seq<byte>)
    requires p.Counted? && q.Counted? && q == p.(body := q.body, slot := q.slot, mark := q.mark)
    requires Limit(p) < WORD && p.max < WORD && CountedSize(p, |body|) < MAX_CODE
    ensures CountedBytes(p, body, 0, 0) == CountedBytes(q, body, 0, 0)
  {
    hide Jump, WordBytes, CounterBytes;
  }

  lemma CountedCode(p: Pattern, body: seq<byte>, reg: byte, mark: byte, head: seq<byte>)
    requires p.Counted? && Limit(p) < WORD && p.max < WORD && CountedSize(p, CodeSize(p.body)) < MAX_CODE
    requires |body| == CodeSize(p.body) && head == CounterBytes(reg, p.max) + if p.check then [36, mark] else []
    ensures CountedBytes(p, body, reg, mark) == LoopCode(p, head, body, reg)
  {
    hide Jump, CounterBytes, LoopBytes;
    var c := CounterBytes(reg, p.max);
    var z := LoopBytes(p, reg, LoopBack(p));
    var m: seq<byte> := if p.check then [36, mark] else [];
    assert c + (m + body + z) == (c + m) + body + z;
    assert [] + (head + body + z) == head + body + z;
  }

  lemma CountedNumbers(p: Pattern, count: nat, d: nat)
    requires p.Counted? && Encodable(Cleared(p), 0) && CodeSize(p) < MAX_CODE && Stacked(p, count, d)
    ensures Assigned(p, count, d)
    decreases p, 0
  {
    hide Numbers, Compile, Encodable, CodeSize, Cleared, Stacked, Target, Depth, LoopBypass, LoopBack, CounterBytes, LoopBytes, Limit;
    assert p.max < WORD by { LoopFits(p); }
    var k := if p.check then 2 else 1;
    var x0, x := LoopHeadNumbers(count, p, d);
    CountedParts(p, count, d, x0, x);
    PassNumbers(p.body, count, d + k);
    var y0, y, n := Compile(Cleared(p.body), 0), Target(p.body, count), Need(p.body, count, d + k);
    LoopFits(p);
    var z0, z := LoopBytes(p, 0, LoopBack(p)), LoopBytes(p, d % 256, LoopBack(p));
    LoopEndNumbers(count, p, LoopBack(p), d);
    NumbersTwo(count, x0, x, d, d + k, d + k, y0, y, d + k, n);
    NumbersTwo(count, x0 + y0, x + y, d, d + k, n, z0, z, d, d + k);
    BypassNumbers(count, p, d);
    NumbersTwo(count, LoopBypass(p), LoopBypass(p), d, d, d, x0 + y0 + z0, x + y + z, d, n);
    Finish(p, count, d, LoopCode(p, x, y, d % 256));
  }

  lemma LoopFits(p: Pattern)
    requires p.Counted? && Encodable(Cleared(p), 0) && CodeSize(p) < MAX_CODE
    ensures p.max < WORD && Limit(p) < WORD && IsOffset(LoopBack(p))
  {}

  lemma BypassNumbers(count: nat, p: Pattern, d: nat)
    requires p.Counted? && CountedSize(p, CodeSize(p.body)) < MAX_CODE
    ensures Numbers(count, LoopBypass(p), LoopBypass(p), d, d, d)
  {
    hide Numbers, Jump;
    if p.min == 0 { NumbersJump(count, SplitOp(p.greedy), CountedSize(p, CodeSize(p.body)) - 5, d); } else { NumbersNothing(count, d); }
  }
}
