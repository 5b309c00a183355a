/** Patterns as ECMA-262 gives them their meaning, and the pattern with resets, checks and registers the compiler makes of one. */
module RegexpSource {
  import opened Bytes
  import opened RegexpCode
  import opened RegexpPattern
  import opened RegexpScan
  import opened RegexpRegisters

  /** A pattern as written; captures are numbered from left to right, and a maximum of JS_SHORTINT_MAX is none. */
  datatype Source =
    | Leaf(p: Pattern)
    | Sequence(first: Source, second: Source)
    | Alternative(left: Source, right: Source)
    | Capture(body: Source)
    | Ahead(negative: bool, body: Source)
    | Quantified(body: Source, min: nat, max: nat, greedy: bool)

  predicate IsLeaf(p: Pattern) {
    p.Empty? || p.Chars? || p.Symbol? || p.Class? || p.BackRef?
  }

  predicate Valid(s: Source) {
    match s
    case Leaf(p) => IsLeaf(p) && Encodable(p, 0)
    case Sequence(a, b) => Valid(a) && Valid(b)
    case Alternative(a, b) => Valid(a) && Valid(b)
    case Capture(b) => Valid(b)
    case Ahead(_, b) => Valid(b)
    case Quantified(b, min, max, _) => Valid(b) && min <= max <= JS_SHORTINT_MAX
  }

  /** Back references are to captures before n. */
  predicate RefersBelow(s: Source, n: nat) {
    match s
    case Leaf(p) => p.BackRef? ==> p.group < n
    case Sequence(a, b) => RefersBelow(a, n) && RefersBelow(b, n)
    case Alternative(a, b) => RefersBelow(a, n) && RefersBelow(b, n)
    case Capture(b) => RefersBelow(b, n)
    case Ahead(_, b) => RefersBelow(b, n)
    case Quantified(b, _, max, _) => max == 0 || RefersBelow(b, n)
  }

  /** Capture groups in s. */
  function Groups(s: Source): nat {
    match s
    case Leaf(_) => 0
    case Sequence(a, b) => Groups(a) + Groups(b)
    case Alternative(a, b) => Groups(a) + Groups(b)
    case Capture(b) => 1 + Groups(b)
    case Ahead(_, b) => Groups(b)
    case Quantified(b, _, _, _) => Groups(b)
  }

  // ---------- meaning ----------

  /** The captures low and on, g of them, undefined again. */
  function Reset(caps: seq<nat>, low: nat, g: nat): (r: seq<nat>)
    ensures |r| == |caps|
  {
    seq(|caps|, i requires 0 <= i < |caps| => if 2 * low <= i < 2 * (low + g) then UNSET else caps[i])
  }

  function MeansRank(s: Source): nat { if s.Quantified? then s.min + 1 else 0 }

  /** All matches of s from c, the preferred first; its captures are those from low on. */
  function Means(s: Source, low: nat, text: seq<byte>, c: nat, caps: seq<nat>): seq<Way>
    decreases s, MeansRank(s), 0, 1, 0
  {
    match s
    case Leaf(p) => Matches(p, text, c, caps)
    case Sequence(a, b) => Sequel(b, low + Groups(a), text, Means(a, low, text, c, caps))
    case Alternative(a, b) => Means(a, low, text, c, caps) + Means(b, low + Groups(a), text, c, caps)
    case Capture(b) => PutAll(Means(b, low + 1, text, c, Put(caps, 2 * low, c)), 2 * low + 1)
    case Ahead(negative, b) =>
      var l := Means(b, low, text, c, caps);
      if negative then One(l == [], c, caps) else if l == [] then [] else [Way(c, l[0].caps)]
    case Quantified(_, min, max, _) => Turns(s, low, min, max, text, c, caps)
  }

  /** Go on with s from each match. */
  function Sequel(s: Source, low: nat, text: seq<byte>, l: seq<Way>): seq<Way>
    decreases s, MeansRank(s) + 1, 0, 0, |l|
  {
    if l == [] then [] else Means(s, low, text, l[0].at, l[0].caps) + Sequel(s, low, text, l[1..])
  }

  function Fewer(n: nat): nat { if n == JS_SHORTINT_MAX || n == 0 then n else n - 1 }

  /** RepeatMatcher of section 15.10.2.5: at least lo and at most hi more times, each with its captures undefined at first. */
  function Turns(s: Source, low: nat, lo: nat, hi: nat, text: seq<byte>, c: nat, caps: seq<nat>): seq<Way>
    requires s.Quantified?
    decreases s, lo, Left(text, c), 1, 0
  {
    var l := if hi == 0 then []
             else NextTurns(s, low, lo, hi, text, c, Means(s.body, low, text, c, Reset(caps, low, Groups(s.body))));
    if lo > 0 then l else if s.greedy then l + [Way(c, caps)] else [Way(c, caps)] + l
  }

  /** After each match of the body from c; once lo is 0, one that has not moved on fails. */
  function NextTurns(s: Source, low: nat, lo: nat, hi: nat, text: seq<byte>, c: nat, l: seq<Way>): seq<Way>
    requires s.Quantified?
    decreases s, lo, Left(text, c), 0, |l|
  {
    if l == [] then []
    else
      (if lo > 0 then Turns(s, low, lo - 1, Fewer(hi), text, l[0].at, l[0].caps)
       else if c < l[0].at <= |text| then Turns(s, low, 0, Fewer(hi), text, l[0].at, l[0].caps)
       else [])
      + NextTurns(s, low, lo, hi, text, c, l[1..])
  }

  // ---------- what the compiler makes of it ----------

  /** As the scan will find it: a character is read before the code branches. */
  predicate SurelyConsumes(s: Source) {
    match s
    case Leaf(p) => Consumes(p)
    case Sequence(a, b) => SurelyConsumes(a) || (!Branches(a) && SurelyConsumes(b))
    case Alternative(_, _) => false
    case Capture(b) => SurelyConsumes(b)
    case Ahead(_, _) => false
    case Quantified(b, min, _, _) => min > 0 && SurelyConsumes(b)
  }

  predicate Branches(s: Source) {
    match s
    case Leaf(p) => p.BackRef?
    case Sequence(a, b) => Branches(a) || Branches(b)
    case Alternative(_, _) => true
    case Capture(b) => Branches(b)
    case Ahead(_, _) => true
    case Quantified(_, _, max, _) => max > 0
  }

  /** Registers a quantifier uses itself. */
  function OwnRegisters(min: nat, max: nat, check: bool): nat {
    if max == 0 || (min == 1 && max == JS_SHORTINT_MAX && !check) then 0
    else if min == 0 && (max == 1 || max == JS_SHORTINT_MAX) then if check then 1 else 0
    else if check && min != max then 2 else 1
  }

  function ForgetAll(low: nat, g: nat, value: nat): Pattern
    requires g > 0
  {
    Forget(low, low + g - 1, value)
  }

  /** The body of a loop: a reset first, if the body branches and has captures. */
  function LoopBodyOf(b: Pattern, low: nat, g: nat, init: bool, value: nat): Pattern {
    if init && g > 0 then Concat(ForgetAll(low, g, value), b) else b
  }

  /** The loop for given counts; check if the body may match nothing. */
  function LoopOf(body: Pattern, min: nat, max: nat, greedy: bool, check: bool, slot: nat): Pattern {
    var guarded := if check then Guarded(slot, body) else body;
    if max == 0 then Empty
    else if min == 0 && max == 1 then Optional(guarded, greedy)
    else if min == 0 && max == JS_SHORTINT_MAX then Repeat(guarded, greedy)
    else if min == 1 && max == JS_SHORTINT_MAX && !check then Plus(body, greedy)
    else Counted(body, min, max, greedy, check && min != max, slot, slot + 1)
  }

  /**
   A quantifier around b with g captures from low on, as re_parse_quantifier decides: check if b may match
   nothing, init if it branches. A body that does not branch sets all its captures, so they are reset only
   once, and only if the loop may be left out.
   */
  function Quantify(b: Pattern, low: nat, g: nat, min: nat, max: nat, greedy: bool, check: bool, init: bool, slot: nat,
                    value: nat): Pattern {
    var loop := LoopOf(LoopBodyOf(b, low, g, init, value), min, max, greedy, check, slot);
    if min == 0 && !init && g > 0 then Concat(ForgetAll(low, g, value), loop) else loop
  }

  /** The pattern whose code the compiler lays down for s; depth registers are in use around it, and a reset writes value. */
  function Plan(s: Source, low: nat, count: nat, depth: nat, value: nat): Pattern {
    match s
    case Leaf(p) => p
    case Sequence(a, b) => Concat(Plan(a, low, count, depth, value), Plan(b, low + Groups(a), count, depth, value))
    case Alternative(a, b) => Either(Plan(a, low, count, depth, value), Plan(b, low + Groups(a), count, depth, value))
    case Capture(b) => Group(low, Plan(b, low + 1, count, depth, value))
    case Ahead(negative, b) => Look(negative, Plan(b, low, count, depth, value))
    case Quantified(b, min, max, greedy) =>
      var check, init := !SurelyConsumes(b), Branches(b);
      Quantify(Plan(b, low, count, depth + OwnRegisters(min, max, check), value), low, Groups(b), min, max, greedy, check, init,
               2 * count + depth, value)
  }

  function Registers(s: Source): nat {
    match s
    case Leaf(_) => 0
    case Sequence(a, b) => Max(Registers(a), Registers(b))
    case Alternative(a, b) => Max(Registers(a), Registers(b))
    case Capture(b) => Registers(b)
    case Ahead(_, b) => Registers(b)
    case Quantified(b, min, max, _) =>
      if max == 0 then 0 else OwnRegisters(min, max, !SurelyConsumes(b)) + Registers(b)
  }
}
