/** The compiler's plan for a pattern: what its scan finds, which registers it has, and that it can be compiled. */
module RegexpPlan {
  import opened RegexpPattern
  import opened RegexpScan
  import opened RegexpRegisters
  import opened RegexpSource

  /** One step of the plan. */
  lemma PlanOf(s: Source, low: nat, count: nat, depth: nat, value: nat)
    ensures Plan(s, low, count, depth, value)
            == (match s
                case Leaf(p) => p
                case Sequence(a, b) => Concat(Plan(a, low, count, depth, value), Plan(b, low + Groups(a), count, depth, value))
                case Alternative(a, b) => Either(Plan(a, low, count, depth, value), Plan(b, low + Groups(a), count, depth, value))
                case Capture(b) => Group(low, Plan(b, low + 1, count, depth, value))
                case Ahead(negative, b) => Look(negative, Plan(b, low, count, depth, value))
                case Quantified(b, min, max, greedy) =>
                  Quantify(Plan(b, low, count, depth + OwnRegisters(min, max, !SurelyConsumes(b)), value), low, Groups(b), min, max,
                           greedy, !SurelyConsumes(b), Branches(b), 2 * count + depth, value))
  {}

  lemma LoopScans(b: Pattern, low: nat, g: nat, min: nat, max: nat, greedy: bool, check: bool, init: bool, slot: nat)
    requires min <= max
    ensures var p := Quantify(b, low, g, min, max, greedy, check, init, slot, 0);
            Consumes(p) == (min > 0 && Consumes(b)) && Stops(p) == (max > 0)
  {
    var body := LoopBodyOf(b, low, g, init, 0);
    assert Consumes(body) == Consumes(b);
    var loop := LoopOf(body, min, max, greedy, check, slot);
    assert Consumes(loop) == (min > 0 && Consumes(body)) && Stops(loop) == (max > 0) by { hide LoopBodyOf; }
    hide LoopOf, LoopBodyOf;
  }

  lemma {:induction false} PlanScans(s: Source, low: nat, count: nat, depth: nat)
    requires Valid(s)
    ensures var p := Plan(s, low, count, depth, 0); Consumes(p) == SurelyConsumes(s) && Stops(p) == Branches(s)
  {
    hide Plan, Quantify, OwnRegisters, Encodable, Groups;
    PlanOf(s, low, count, depth, 0);
    match s
    case Leaf(_) =>
    case Sequence(a, b) => PlanScans(a, low, count, depth); PlanScans(b, low + Groups(a), count, depth);
    case Alternative(a, b) =>
    case Capture(b) => PlanScans(b, low + 1, count, depth);
    case Ahead(_, b) =>
    case Quantified(b, min, max, greedy) =>
      var check, init := !SurelyConsumes(b), Branches(b);
      var d := depth + OwnRegisters(min, max, check);
      PlanScans(b, low, count, d);
      LoopScans(Plan(b, low, count, d, 0), low, Groups(b), min, max, greedy, check, init, 2 * count + depth);
  }

  lemma LoopRefers(b: Pattern, low: nat, g: nat, min: nat, max: nat, greedy: bool, check: bool, init: bool, slot: nat, n: nat)
    requires min <= max
    ensures Refers(Quantify(b, low, g, min, max, greedy, check, init, slot, 0), n) == (max == 0 || Refers(b, n))
  {
    var body := LoopBodyOf(b, low, g, init, 0);
    assert Refers(body, n) == Refers(b, n);
    assert Refers(Guarded(slot, body), n) == Refers(body, n);
    var loop := LoopOf(body, min, max, greedy, check, slot);
    assert Refers(loop, n) == (max == 0 || Refers(body, n));
    hide LoopOf, LoopBodyOf;
  }

  lemma {:induction false} PlanRefers(s: Source, low: nat, count: nat, depth: nat, n: nat)
    requires Valid(s)
    ensures Refers(Plan(s, low, count, depth, 0), n) == RefersBelow(s, n)
  {
    hide Plan, Quantify, OwnRegisters, Encodable, Groups;
    PlanOf(s, low, count, depth, 0);
    match s
    case Leaf(_) =>
    case Sequence(a, b) => PlanRefers(a, low, count, depth, n); PlanRefers(b, low + Groups(a), count, depth, n);
    case Alternative(a, b) => PlanRefers(a, low, count, depth, n); PlanRefers(b, low + Groups(a), count, depth, n);
    case Capture(b) => PlanRefers(b, low + 1, count, depth, n);
    case Ahead(_, b) => PlanRefers(b, low, count, depth, n);
    case Quantified(b, min, max, greedy) =>
      var check, init := !SurelyConsumes(b), Branches(b);
      var d := depth + OwnRegisters(min, max, check);
      PlanRefers(b, low, count, d, n);
      LoopRefers(Plan(b, low, count, d, 0), low, Groups(b), min, max, greedy, check, init, 2 * count + depth, n);
  }

  lemma LoopOfStacks(body: Pattern, min: nat, max: nat, greedy: bool, check: bool, count: nat, depth: nat)
    requires min <= max && Stacked(body, count, depth + OwnRegisters(min, max, check))
    ensures var p := LoopOf(body, min, max, greedy, check, 2 * count + depth);
            && Depth(p) == (if max == 0 then 0 else OwnRegisters(min, max, check) + Depth(body)) && Stacked(p, count, depth)
  {
    var guarded := Guarded(2 * count + depth, body);
    if check && min == 0 && (max == 1 || max == JS_SHORTINT_MAX) {
      assert Depth(guarded) == 1 + Depth(body) && Stacked(guarded, count, depth);
    }
  }

  lemma LoopStacks(b: Pattern, low: nat, g: nat, min: nat, max: nat, greedy: bool, check: bool, init: bool, count: nat, depth: nat)
    requires min <= max && Stacked(b, count, depth + OwnRegisters(min, max, check))
    ensures var p := Quantify(b, low, g, min, max, greedy, check, init, 2 * count + depth, 0);
            && Depth(p) == (if max == 0 then 0 else OwnRegisters(min, max, check) + Depth(b)) && Stacked(p, count, depth)
  {
    hide LoopOf, OwnRegisters;
    var body := LoopBodyOf(b, low, g, init, 0);
    assert Depth(body) == Depth(b) && Stacked(body, count, depth + OwnRegisters(min, max, check));
    LoopOfStacks(body, min, max, greedy, check, count, depth);
  }

  lemma {:induction false} PlanStacks(s: Source, low: nat, count: nat, depth: nat)
    requires Valid(s)
    ensures var p := Plan(s, low, count, depth, 0); Depth(p) == Registers(s) && Stacked(p, count, depth)
    decreases s, 1
  {
    hide Plan, Quantify, OwnRegisters;
    PlanOf(s, low, count, depth, 0);
    match s
    case Leaf(_) =>
    case Sequence(a, b) => PairStacks(s, a, b, low, count, depth);
    case Alternative(a, b) => PairStacks(s, a, b, low, count, depth);
    case Capture(b) => PlanStacks(b, low + 1, count, depth);
    case Ahead(_, b) => PlanStacks(b, low, count, depth);
    case Quantified(_, _, _, _) => QuantifiedStacks(s, low, count, depth);
  }

  lemma BothStack(x: Pattern, y: Pattern, count: nat, depth: nat)
    requires Stacked(x, count, depth) && Stacked(y, count, depth)
    ensures Stacked(Concat(x, y), count, depth) && Stacked(Either(x, y), count, depth)
    ensures Depth(Concat(x, y)) == Depth(Either(x, y)) == Max(Depth(x), Depth(y))
  {}

  lemma PairParts(s: Source, a: Source, b: Source)
    requires s == Sequence(a, b) || s == Alternative(a, b)
    ensures Registers(s) == Max(Registers(a), Registers(b)) && (Valid(s) ==> Valid(a) && Valid(b))
  {}

  lemma PairStacks(s: Source, a: Source, b: Source, low: nat, count: nat, depth: nat)
    requires Valid(s) && (s == Sequence(a, b) || s == Alternative(a, b))
    ensures var p := Plan(s, low, count, depth, 0); Depth(p) == Registers(s) && Stacked(p, count, depth)
    decreases s, 0
  {
    hide Plan, Quantify, OwnRegisters, Depth, Stacked, Valid, Registers, Groups;
    PairParts(s, a, b);
    PlanOf(s, low, count, depth, 0);
    PlanStacks(a, low, count, depth);
    PlanStacks(b, low + Groups(a), count, depth);
    BothStack(Plan(a, low, count, depth, 0), Plan(b, low + Groups(a), count, depth, 0), count, depth);
  }

  lemma QuantifiedStacks(s: Source, low: nat, count: nat, depth: nat)
    requires Valid(s) && s.Quantified?
    ensures var p := Plan(s, low, count, depth, 0); Depth(p) == Registers(s) && Stacked(p, count, depth)
    decreases s, 0
  {
    hide Plan, Quantify, OwnRegisters, Depth, Stacked;
    PlanOf(s, low, count, depth, 0);
    var b, check, init := s.body, !SurelyConsumes(s.body), Branches(s.body);
    var d := depth + OwnRegisters(s.min, s.max, check);
    PlanStacks(b, low, count, d);
    LoopStacks(Plan(b, low, count, d, 0), low, Groups(b), s.min, s.max, s.greedy, check, init, count, depth);
  }

  lemma LoopOfCleared(x: Pattern, y: Pattern, min: nat, max: nat, greedy: bool, check: bool, slot: nat)
    requires Cleared(x) == Cleared(y)
    ensures Cleared(LoopOf(x, min, max, greedy, check, slot)) == Cleared(LoopOf(y, min, max, greedy, check, 0))
  {
    assert Cleared(Guarded(slot, x)) == Cleared(Guarded(0, y));
  }

  lemma LoopCleared(b: Pattern, low: nat, g: nat, min: nat, max: nat, greedy: bool, check: bool, init: bool, slot: nat)
    ensures Cleared(Quantify(b, low, g, min, max, greedy, check, init, slot, 0))
            == Cleared(Quantify(Cleared(b), low, g, min, max, greedy, check, init, 0, 0))
  {
    hide LoopOf;
    var body, body' := LoopBodyOf(b, low, g, init, 0), LoopBodyOf(Cleared(b), low, g, init, 0);
    ClearedTwice(b);
    assert Cleared(body) == Cleared(body');
    LoopOfCleared(body, body', min, max, greedy, check, slot);
  }

  lemma {:induction false} ClearedTwice(p: Pattern)
    ensures Cleared(Cleared(p)) == Cleared(p)
  {
    match p
    case Concat(a, b) => ClearedTwice(a); ClearedTwice(b);
    case Either(a, b) => ClearedTwice(a); ClearedTwice(b);
    case Group(_, b) => ClearedTwice(b);
    case Look(_, b) => ClearedTwice(b);
    case Optional(b, _) => ClearedTwice(b);
    case Repeat(b, _) => ClearedTwice(b);
    case Plus(b, _) => ClearedTwice(b);
    case Counted(b, _, _, _, _, _, _) => ClearedTwice(b);
    case Guarded(_, b) => ClearedTwice(b);
    case _ =>
  }

  /** The numbers of registers make no other difference. */
  lemma {:induction false} ClearedPlan(s: Source, low: nat, count: nat, depth: nat)
    requires Valid(s)
    ensures Cleared(Plan(s, low, count, depth, 0)) == Cleared(Plan(s, low, 0, 0, 0))
    decreases s, 1
  {
    hide Plan, Quantify, OwnRegisters;
    PlanOf(s, low, count, depth, 0);
    PlanOf(s, low, 0, 0, 0);
    match s
    case Leaf(_) =>
    case Sequence(a, b) => ClearedPair(s, a, b, low, count, depth);
    case Alternative(a, b) => ClearedPair(s, a, b, low, count, depth);
    case Capture(b) => ClearedPlan(b, low + 1, count, depth);
    case Ahead(_, b) => ClearedPlan(b, low, count, depth);
    case Quantified(_, _, _, _) => ClearedQuantified(s, low, count, depth);
  }

  lemma ClearedPair(s: Source, a: Source, b: Source, low: nat, count: nat, depth: nat)
    requires Valid(s) && (s == Sequence(a, b) || s == Alternative(a, b))
    ensures Cleared(Plan(s, low, count, depth, 0)) == Cleared(Plan(s, low, 0, 0, 0))
    decreases s, 0
  {
    hide Plan, Quantify, OwnRegisters, Encodable, IsLeaf;
    PlanOf(s, low, count, depth, 0);
    PlanOf(s, low, 0, 0, 0);
    ClearedPlan(a, low, count, depth);
    ClearedPlan(b, low + Groups(a), count, depth);
  }

  lemma ClearedQuantified(s: Source, low: nat, count: nat, depth: nat)
    requires Valid(s) && s.Quantified?
    ensures Cleared(Plan(s, low, count, depth, 0)) == Cleared(Plan(s, low, 0, 0, 0))
    decreases s, 0
  {
    hide Plan, Quantify, OwnRegisters, Cleared;
    PlanOf(s, low, count, depth, 0);
    PlanOf(s, low, 0, 0, 0);
    var b, check, init := s.body, !SurelyConsumes(s.body), Branches(s.body);
    var own := OwnRegisters(s.min, s.max, check);
    ClearedPlan(b, low, count, depth + own);
    ClearedPlan(b, low, 0, 0 + own);
    LoopCleared(Plan(b, low, count, depth + own, 0), low, Groups(b), s.min, s.max, s.greedy, check, init, 2 * count + depth);
    LoopCleared(Plan(b, low, 0, 0 + own, 0), low, Groups(b), s.min, s.max, s.greedy, check, init, 0);
  }

  lemma LoopWrites(b: Pattern, low: nat, g: nat, min: nat, max: nat, greedy: bool, check: bool, init: bool, slot: nat, i: nat)
    requires min <= max && WritesTo(Quantify(b, low, g, min, max, greedy, check, init, slot, 0), i)
    ensures 2 * low <= i < 2 * (low + g) || slot <= i < slot + OwnRegisters(min, max, check) || (max > 0 && WritesTo(b, i))
  {
    var body := LoopBodyOf(b, low, g, init, 0);
    hide LoopOf, OwnRegisters;
    if WritesTo(body, i) && !WritesTo(b, i) { assert WritesTo(ForgetAll(low, g, 0), i); }
    if WritesTo(LoopOf(body, min, max, greedy, check, slot), i) { LoopOfWrites(body, min, max, greedy, check, slot, i); }
  }

  lemma LoopOfWrites(body: Pattern, min: nat, max: nat, greedy: bool, check: bool, slot: nat, i: nat)
    requires min <= max && WritesTo(LoopOf(body, min, max, greedy, check, slot), i)
    ensures slot <= i < slot + OwnRegisters(min, max, check) || (max > 0 && WritesTo(body, i))
  {
    assert WritesTo(Guarded(slot, body), i) ==> WritesTo(body, i) || i == slot;
  }

  lemma {:induction false} PlanWrites(s: Source, low: nat, count: nat, depth: nat, i: nat)
    requires Valid(s) && WritesTo(Plan(s, low, count, depth, 0), i)
    ensures 2 * low <= i < 2 * (low + Groups(s)) || 2 * count + depth <= i < 2 * count + depth + Registers(s)
  {
    hide Plan, Quantify, OwnRegisters;
    PlanOf(s, low, count, depth, 0);
    match s
    case Leaf(_) =>
    case Sequence(a, b) =>
      if WritesTo(Plan(a, low, count, depth, 0), i) { PlanWrites(a, low, count, depth, i); }
      else { PlanWrites(b, low + Groups(a), count, depth, i); }
    case Alternative(a, b) =>
      if WritesTo(Plan(a, low, count, depth, 0), i) { PlanWrites(a, low, count, depth, i); }
      else { PlanWrites(b, low + Groups(a), count, depth, i); }
    case Capture(b) => if WritesTo(Plan(b, low + 1, count, depth, 0), i) { PlanWrites(b, low + 1, count, depth, i); }
    case Ahead(_, b) => PlanWrites(b, low, count, depth, i);
    case Quantified(b, min, max, greedy) =>
      var check, init := !SurelyConsumes(b), Branches(b);
      var d := depth + OwnRegisters(min, max, check);
      LoopWrites(Plan(b, low, count, d, 0), low, Groups(b), min, max, greedy, check, init, 2 * count + depth, i);
      if max > 0 && WritesTo(Plan(b, low, count, d, 0), i) { PlanWrites(b, low, count, d, i); }
      OwnRegistersNone(min, max, check);
  }

  lemma OwnRegistersNone(min: nat, max: nat, check: bool)
    ensures max == 0 ==> OwnRegisters(min, max, check) == 0
  {}

  // ---------- it can be compiled ----------

  lemma AroundEncodes(x: Pattern, greedy: bool)
    requires Encodable(x, 0)
    ensures Encodable(Empty, 0) && Encodable(Optional(x, greedy), 0) && Encodable(Repeat(x, greedy), 0) && Encodable(Plus(x, greedy), 0)
    ensures Encodable(Guarded(0, x), 0)
  {}

  lemma CountedEncodes(x: Pattern, min: nat, max: nat, greedy: bool, check: bool)
    requires Encodable(x, 0) && IsLoop(min, max, check)
    ensures Encodable(Counted(x, min, max, greedy, check, 0, 0), 0)
  {}

  lemma LoopOfEncodes(body: Pattern, min: nat, max: nat, greedy: bool, check: bool, slot: nat)
    requires min <= max <= JS_SHORTINT_MAX && Encodable(Cleared(body), 0)
    ensures Encodable(Cleared(LoopOf(body, min, max, greedy, check, slot)), 0)
  {
    hide Encodable;
    var x := Cleared(body);
    AroundEncodes(x, greedy);
    AroundEncodes(Guarded(0, x), greedy);
    if IsLoop(min, max, check && min != max) { CountedEncodes(x, min, max, greedy, check && min != max); }
    assert Cleared(Guarded(slot, body)) == Guarded(0, x);
  }

  lemma LoopEncodes(b: Pattern, low: nat, g: nat, min: nat, max: nat, greedy: bool, check: bool, init: bool, slot: nat)
    requires min <= max <= JS_SHORTINT_MAX && Encodable(Cleared(b), 0) && low + g <= 256
    ensures Encodable(Cleared(Quantify(b, low, g, min, max, greedy, check, init, slot, 0)), 0)
  {
    hide LoopOf;
    var body := LoopBodyOf(b, low, g, init, 0);
    assert g > 0 ==> Encodable(Cleared(ForgetAll(low, g, 0)), 0);
    assert Encodable(Cleared(body), 0);
    LoopOfEncodes(body, min, max, greedy, check, slot);
  }

  /** The code before the pass over registers exists. */
  lemma {:induction false} PlanEncodes(s: Source, low: nat, count: nat, depth: nat)
    requires Valid(s) && low + Groups(s) <= 256
    ensures Encodable(Cleared(Plan(s, low, count, depth, 0)), 0)
  {
    hide Plan, Quantify, OwnRegisters;
    PlanOf(s, low, count, depth, 0);
    match s
    case Leaf(_) =>
    case Sequence(a, b) => PlanEncodes(a, low, count, depth); PlanEncodes(b, low + Groups(a), count, depth);
    case Alternative(a, b) => PlanEncodes(a, low, count, depth); PlanEncodes(b, low + Groups(a), count, depth);
    case Capture(b) => PlanEncodes(b, low + 1, count, depth);
    case Ahead(_, b) => PlanEncodes(b, low, count, depth);
    case Quantified(b, min, max, greedy) =>
      var check, init := !SurelyConsumes(b), Branches(b);
      var d := depth + OwnRegisters(min, max, check);
      PlanEncodes(b, low, count, d);
      LoopEncodes(Plan(b, low, count, d, 0), low, Groups(b), min, max, greedy, check, init, 2 * count + depth);
  }

  lemma LoopOfCompiles(body: Pattern, min: nat, max: nat, greedy: bool, check: bool, count: nat, depth: nat, n: nat)
    requires min <= max <= JS_SHORTINT_MAX && Compilable(body, count, n) && (check || Advances(body))
    requires var own := OwnRegisters(min, max, check);
             && depth + own <= 255 && 2 * count + depth + own <= n
             && forall i :: 2 * count + depth <= i < 2 * count + depth + own ==> !WritesTo(body, i)
    ensures Compilable(LoopOf(body, min, max, greedy, check, 2 * count + depth), count, n)
  {
    hide Compilable, WritesTo, Advances, Encodable;
    var slot, own := 2 * count + depth, OwnRegisters(min, max, check);
    if check && min == 0 && (max == 1 || max == JS_SHORTINT_MAX) {
      assert !WritesTo(body, slot);
      GuardCompiles(body, greedy, slot, count, n);
    } else if own > 0 {
      assert !WritesTo(body, slot) && (own == 2 ==> !WritesTo(body, slot + 1));
      CountedCompiles(body, min, max, greedy, check && min != max, slot, count, n);
    } else {
      PlainCompiles(body, greedy, count, n);
    }
  }

  lemma CountedCompiles(body: Pattern, min: nat, max: nat, greedy: bool, check: bool, slot: nat, count: nat, n: nat)
    requires Compilable(body, count, n) && IsLoop(min, max, check) && 2 * count <= slot && !WritesTo(body, slot)
    requires var own := if check then 2 else 1; slot + own <= n && slot + own <= 2 * count + 255
    requires (check ==> !WritesTo(body, slot + 1)) && (check || min == max || Advances(body))
    ensures Compilable(Counted(body, min, max, greedy, check, slot, slot + 1), count, n)
  {}

  lemma GuardCompiles(body: Pattern, greedy: bool, slot: nat, count: nat, n: nat)
    requires Compilable(body, count, n) && 2 * count <= slot < 2 * count + 255 && slot < n && !WritesTo(body, slot)
    ensures var p := Guarded(slot, body); Compilable(Optional(p, greedy), count, n) && Compilable(Repeat(p, greedy), count, n)
  {
    assert Compilable(Guarded(slot, body), count, n);
  }

  lemma PlainCompiles(body: Pattern, greedy: bool, count: nat, n: nat)
    requires Compilable(body, count, n)
    ensures Compilable(Empty, count, n) && Compilable(Optional(body, greedy), count, n)
    ensures Advances(body) ==> Compilable(Repeat(body, greedy), count, n) && Compilable(Plus(body, greedy), count, n)
  {}

  lemma LoopCompiles(b: Pattern, low: nat, g: nat, min: nat, max: nat, greedy: bool, check: bool, init: bool,
                     count: nat, depth: nat, n: nat)
    requires min <= max <= JS_SHORTINT_MAX && Compilable(b, count, n) && (check || Advances(b)) && low + g <= count <= 256
    requires var own := OwnRegisters(min, max, check);
             && depth + own <= 255 && 2 * count + depth + own <= n
             && forall i :: 2 * count + depth <= i < 2 * count + depth + own ==> !WritesTo(b, i)
    ensures Compilable(Quantify(b, low, g, min, max, greedy, check, init, 2 * count + depth, 0), count, n)
  {
    hide LoopOf, OwnRegisters;
    var body, own := LoopBodyOf(b, low, g, init, 0), OwnRegisters(min, max, check);
    assert g > 0 ==> Compilable(ForgetAll(low, g, 0), count, n);
    assert Compilable(body, count, n) && (check || Advances(body));
    forall i | 2 * count + depth <= i < 2 * count + depth + own ensures !WritesTo(body, i) {
      assert g > 0 ==> !WritesTo(ForgetAll(low, g, 0), i);
    }
    LoopOfCompiles(body, min, max, greedy, check, count, depth, n);
  }

  lemma {:induction false} PlanCompiles(s: Source, low: nat, count: nat, depth: nat, n: nat)
    requires Valid(s) && low + Groups(s) <= count <= 256
    requires depth + Registers(s) <= 255 && 2 * count + depth + Registers(s) <= n && RefersBelow(s, count)
    ensures Compilable(Plan(s, low, count, depth, 0), count, n)
    decreases s, 1
  {
    hide Plan, Quantify, OwnRegisters, LoopOf;
    PlanOf(s, low, count, depth, 0);
    match s
    case Leaf(_) =>
    case Sequence(a, b) => PairCompiles(s, a, b, low, count, depth, n);
    case Alternative(a, b) => PairCompiles(s, a, b, low, count, depth, n);
    case Capture(b) => PlanCompiles(b, low + 1, count, depth, n);
    case Ahead(_, b) => PlanCompiles(b, low, count, depth, n);
    case Quantified(_, _, _, _) => QuantifiedCompiles(s, low, count, depth, n);
  }

  lemma PairCompiles(s: Source, a: Source, b: Source, low: nat, count: nat, depth: nat, n: nat)
    requires Valid(s) && (s == Sequence(a, b) || s == Alternative(a, b)) && low + Groups(s) <= count <= 256
    requires depth + Registers(s) <= 255 && 2 * count + depth + Registers(s) <= n && RefersBelow(s, count)
    ensures Compilable(Plan(s, low, count, depth, 0), count, n)
    decreases s, 0
  {
    hide Plan, Quantify, OwnRegisters, Encodable;
    PlanOf(s, low, count, depth, 0);
    PlanCompiles(a, low, count, depth, n);
    PlanCompiles(b, low + Groups(a), count, depth, n);
  }

  lemma QuantifiedCompiles(s: Source, low: nat, count: nat, depth: nat, n: nat)
    requires Valid(s) && s.Quantified? && low + Groups(s) <= count <= 256
    requires depth + Registers(s) <= 255 && 2 * count + depth + Registers(s) <= n && RefersBelow(s, count)
    ensures Compilable(Plan(s, low, count, depth, 0), count, n)
    decreases s, 0
  {
    hide Plan, Quantify, OwnRegisters, Compilable;
    PlanOf(s, low, count, depth, 0);
    var b, check, init := s.body, !SurelyConsumes(s.body), Branches(s.body);
    var own := OwnRegisters(s.min, s.max, check);
    var p := Plan(b, low, count, depth + own, 0);
    if s.max == 0 {
      NothingCompiles(p, low, Groups(b), s.greedy, check, init, count, depth, n);
    } else {
      PlanCompiles(b, low, count, depth + own, n);
      PlanScans(b, low, count, depth + own);
      if !check { ConsumesAdvances(p); }
      forall i | 2 * count + depth <= i < 2 * count + depth + own ensures !WritesTo(p, i) {
        if WritesTo(p, i) { PlanWrites(b, low, count, depth + own, i); }
      }
      LoopCompiles(p, low, Groups(b), s.min, s.max, s.greedy, check, init, count, depth, n);
    }
  }

  lemma NothingCompiles(p: Pattern, low: nat, g: nat, greedy: bool, check: bool, init: bool, count: nat, depth: nat, n: nat)
    requires low + g <= count <= 256 && 2 * count <= n
    ensures Compilable(Quantify(p, low, g, 0, 0, greedy, check, init, 2 * count + depth, 0), count, n)
  {}

  // ---------- the code before registers are numbered ----------

  /** The plan with every register 0. */
  function Draft(s: Source, low: nat): Pattern { Cleared(Plan(s, low, 0, 0, 0)) }

  lemma DraftOf(s: Source, low: nat)
    requires Valid(s)
    ensures Draft(s, low)
            == (match s
                case Leaf(p) => p
                case Sequence(a, b) => Concat(Draft(a, low), Draft(b, low + Groups(a)))
                case Alternative(a, b) => Either(Draft(a, low), Draft(b, low + Groups(a)))
                case Capture(b) => Group(low, Draft(b, low + 1))
                case Ahead(negative, b) => Look(negative, Draft(b, low))
                case Quantified(b, min, max, greedy) =>
                  Cleared(Quantify(Draft(b, low), low, Groups(b), min, max, greedy, !SurelyConsumes(b), Branches(b), 0, 0)))
  {
    hide Plan, Quantify, OwnRegisters;
    PlanOf(s, low, 0, 0, 0);
    match s
    case Quantified(b, min, max, greedy) =>
      var own := OwnRegisters(min, max, !SurelyConsumes(b));
      LoopCleared(Plan(b, low, 0, own, 0), low, Groups(b), min, max, greedy, !SurelyConsumes(b), Branches(b), 0);
      ClearedPlan(b, low, 0, own);
    case _ =>
  }

  lemma DraftShape(s: Source, low: nat)
    requires Valid(s) && low + Groups(s) <= 256
    ensures var p := Draft(s, low);
            && Cleared(p) == p && Encodable(p, 0) && Consumes(p) == SurelyConsumes(s) && Stops(p) == Branches(s)
  {
    hide Plan, Cleared, Encodable, Consumes, Stops, Valid;
    var p := Plan(s, low, 0, 0, 0);
    ClearedTwice(p);
    PlanEncodes(s, low, 0, 0);
    ClearedSame(p);
    PlanScans(s, low, 0, 0);
  }
}
