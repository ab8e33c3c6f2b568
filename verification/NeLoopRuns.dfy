/** Which values the counter of a "counter != bound" loop really takes, in runs in which no path
    reaches the update around the guard: the derived range holds and the loop terminates. */
module NeLoopRuns {
  import opened Options
  import opened Reachability
  import opened IntRanges
  import opened NeLoopGuard

  // Runs: a block about to execute, and the counter's value on arrival

  datatype State = State(block: nat, value: int)

  function Effect(stores: seq<SlotStore>, value: int): int {
    if stores == [] then value
    else
      var next := match stores[0]
                  case StoreConstant(c) => c
                  case AddToSlot(amount) => value + amount
                  case StoreOther => value;
      Effect(stores[1..], next)
  }

  /** The guard follows its comparison; every other block may go to any of its successors. */
  ghost predicate Step(cfg: Cfg, g: Guard, s: State, t: State) {
    && s.block < |cfg|
    && t.value == Effect(cfg[s.block].stores, s.value)
    && t.block in cfg[s.block].successors
    && (s.block == g.cond ==> t.block == if t.value != g.bound then g.target else g.exit)
  }

  lemma OneStore(cfg: Cfg, b: nat, value: int)
    requires b < |cfg| && |cfg[b].stores| == 1
    ensures Effect(cfg[b].stores, value) ==
            match cfg[b].stores[0]
            case StoreConstant(c) => c
            case AddToSlot(amount) => value + amount
            case StoreOther => value
  {
    assert cfg[b].stores[1..] == [];
  }

  /** A run starts in the entry block with any value in the slot. */
  ghost predicate Reached(cfg: Cfg, g: Guard, block: nat, value: int) {
    Reachable((s: State) => s.block == g.entry, (s, t) => Step(cfg, g, s, t), State(block, value))
  }

  lemma ReachedEntry(cfg: Cfg, g: Guard, value: int)
    ensures Reached(cfg, g, g.entry, value)
  {
    InitReachable((s: State) => s.block == g.entry, (s, t) => Step(cfg, g, s, t), State(g.entry, value));
  }

  lemma ReachedStep(cfg: Cfg, g: Guard, s: State, t: State)
    requires Reached(cfg, g, s.block, s.value) && Step(cfg, g, s, t)
    ensures Reached(cfg, g, t.block, t.value)
  {
    StepReachable((s: State) => s.block == g.entry, (s, t) => Step(cfg, g, s, t), s, t);
  }

  /** An invariant of single steps holds of everything reached. */
  lemma ReachedKeeps(cfg: Cfg, g: Guard, keeps: State -> bool)
    requires forall v: int :: keeps(State(g.entry, v))
    requires forall s, t :: keeps(s) && Step(cfg, g, s, t) ==> keeps(t)
    ensures forall b, v: int :: Reached(cfg, g, b, v) ==> keeps(State(b, v))
  {
    forall s: State | s.block == g.entry ensures keeps(s) {
      assert s == State(g.entry, s.value);
    }
    ClosedContainsReachable((s: State) => s.block == g.entry, (s, t) => Step(cfg, g, s, t), keeps);
  }

  // The claim made by a derived range, and the condition under which it is true

  /** In every run the counter is inside the range on entry to the guarded block and on leaving it. */
  ghost predicate RangeHolds(cfg: Cfg, g: Guard, range: IntRange)
    requires g.target < |cfg|
  {
    forall v: int :: Reached(cfg, g, g.target, v) ==>
      Contains(range, v) && Contains(range, Effect(cfg[g.target].stores, v))
  }

  /** Moving on without passing the guard, the initialisation or the update. */
  ghost predicate Around(cfg: Cfg, g: Guard, l: Loop, b: nat, next: nat) {
    b < |cfg| && next in cfg[b].successors && b != g.cond && b != l.initBlock && b != l.updateBlock
  }

  ghost predicate AroundFrom(cfg: Cfg, g: Guard, l: Loop, starts: nat -> bool, b: nat) {
    Reachable(starts, (b, next) => Around(cfg, g, l, b, next), b)
  }

  /** Where the counter may hold something the guard has not let through. */
  ghost predicate Unguarded(cfg: Cfg, g: Guard, l: Loop, b: nat) {
    b == g.entry || b == g.exit || (l.updateBlock < |cfg| && b in cfg[l.updateBlock].successors)
  }

  ghost predicate Bypassed(cfg: Cfg, g: Guard, l: Loop) {
    AroundFrom(cfg, g, l, (b: nat) => Unguarded(cfg, g, l, b), l.updateBlock)
  }

  // The counter's values

  ghost predicate Counted(l: Loop, n: nat, v: int) {
    exists k: nat :: k <= n && v == Nth(l, k)
  }

  /** The counter after k steps. */
  function Nth(l: Loop, k: nat): int {
    if k == 0 then l.init else Nth(l, k - 1) + l.step
  }

  lemma {:induction false} NthIsProduct(l: Loop, k: nat)
    ensures Nth(l, k) == l.init + k * l.step
  {
    if k > 0 {
      NthIsProduct(l, k - 1);
      assert (k - 1) * l.step + l.step == k * l.step;
    }
  }

  ghost predicate Admitted(l: Loop, n: nat, v: int) {
    exists k: nat :: k < n && v == Nth(l, k)
  }

  lemma {:induction false} NthIsMonotone(l: Loop, j: nat, k: nat)
    requires j <= k && l.step != 0
    ensures l.step > 0 ==> Nth(l, j) <= Nth(l, k) && (Nth(l, j) == Nth(l, k) ==> j == k)
    ensures l.step < 0 ==> Nth(l, j) >= Nth(l, k) && (Nth(l, j) == Nth(l, k) ==> j == k)
    decreases k - j
  {
    if j < k {
      NthIsMonotone(l, j, k - 1);
    }
  }

  lemma CountedIsWithin(l: Loop, n: nat, bound: int, range: IntRange, v: int)
    requires l.step != 0 && Nth(l, n) == bound
    requires range == if l.step > 0 then IntRange(true, l.init, true, bound) else IntRange(true, bound, true, l.init)
    requires Counted(l, n, v)
    ensures Contains(range, v)
  {
    var k: nat :| k <= n && v == Nth(l, k);
    NthIsMonotone(l, 0, k);
    NthIsMonotone(l, k, n);
  }

  lemma CountedBelowBound(l: Loop, n: nat, bound: int, v: int)
    requires l.step != 0 && Nth(l, n) == bound
    ensures Admitted(l, n, v) <==> Counted(l, n, v) && v != bound
    ensures Admitted(l, n, v) ==> Counted(l, n, v + l.step)
  {
    if Admitted(l, n, v) {
      var k: nat :| k < n && v == Nth(l, k);
      NthIsMonotone(l, k, n);
      assert v + l.step == Nth(l, k + 1);
    }
  }

  // Shape facts

  lemma {:induction false} CountWithout(cfg: Cfg, a: nat)
    requires a < |cfg|
    ensures CountStores(cfg) == |cfg[a].stores| + CountStores(cfg[a := Block([], [])])
  {
    if a == 0 {
      assert cfg[a := Block([], [])][1..] == cfg[1..];
    } else {
      CountWithout(cfg[1..], a - 1);
      assert cfg[a := Block([], [])][1..] == cfg[1..][a - 1 := Block([], [])];
    }
  }

  lemma OtherBlocksDoNotStore(cfg: Cfg, g: Guard, l: Loop, b: nat)
    requires LoopShape(cfg, g, l) && b < |cfg| && b != l.initBlock && b != l.updateBlock
    ensures cfg[b].stores == []
  {
    CountWithout(cfg, l.initBlock);
    var second := cfg[l.initBlock := Block([], [])];
    CountWithout(second, l.updateBlock);
    CountWithout(second[l.updateBlock := Block([], [])], b);
  }

  lemma {:induction false} EdgesAreListed(cfg: Cfg, target: nat, b: nat)
    requires b < |cfg|
    ensures |Copies(b, cfg[b].successors, target)| <= |Predecessors(cfg, target)|
    decreases |cfg|
  {
    if b < |cfg| - 1 {
      EdgesAreListed(cfg[..|cfg| - 1], target, b);
    }
  }

  /** All that runs of a recognised loop depend on. */
  ghost predicate LoopFacts(cfg: Cfg, g: Guard, l: Loop) {
    && WellformedCfg(cfg)
    && g.entry < |cfg| && g.cond < |cfg| && g.target < |cfg| && g.exit < |cfg|
    && l.initBlock < |cfg| && l.updateBlock < |cfg| && l.step != 0
    && cfg[g.cond].successors == [g.target, g.exit]
    && cfg[l.initBlock].stores == [StoreConstant(l.init)]
    && cfg[l.updateBlock].stores == [AddToSlot(l.step)]
    && (forall b :: 0 <= b < |cfg| && b != l.initBlock && b != l.updateBlock ==> cfg[b].stores == [])
    && g.cond in cfg[l.initBlock].successors && g.cond in cfg[l.updateBlock].successors
    && (l.updateBlock == g.target || l.updateBlock in cfg[g.target].successors)
    && LoopEdges(cfg, g, l)
    && g.cond != l.initBlock && g.cond != l.updateBlock
  }

  /** The only ways into the entry, the guard and the guarded block. */
  ghost predicate LoopEdges(cfg: Cfg, g: Guard, l: Loop) {
    && (forall b :: 0 <= b < |cfg| && g.target in cfg[b].successors ==> b == g.cond)
    && (forall b :: 0 <= b < |cfg| && g.cond in cfg[b].successors ==> b == l.initBlock || b == l.updateBlock)
    && (forall b :: 0 <= b < |cfg| ==> g.entry !in cfg[b].successors)
    && l.initBlock != l.updateBlock
    && g.entry != g.cond && g.entry != g.target && g.cond != g.target && g.exit != g.target
  }

  lemma ShapeHasFacts(cfg: Cfg, g: Guard, l: Loop)
    requires GuardShape(cfg, g) && LoopShape(cfg, g, l) && cfg[g.cond].stores == []
    ensures LoopFacts(cfg, g, l)
  {
    EdgesAreListed(cfg, g.target, g.cond);
    assert g.target == g.exit ==> Copies(g.cond, [g.target], g.target) == [g.cond];
    assert [g.target, g.exit][1..] == [g.exit];
    forall b | 0 <= b < |cfg|
      ensures g.target in cfg[b].successors ==> b == g.cond
      ensures g.cond in cfg[b].successors <==> b == l.initBlock || b == l.updateBlock
      ensures g.entry !in cfg[b].successors
    {
      PredecessorMember(cfg, g.target, b);
      PredecessorMember(cfg, g.cond, b);
      PredecessorMember(cfg, g.entry, b);
    }
    forall b | 0 <= b < |cfg| && b != l.initBlock && b != l.updateBlock ensures cfg[b].stores == [] {
      OtherBlocksDoNotStore(cfg, g, l, b);
    }
  }

  /** The recognised loop, with n steps from the initial value to the bound. */
  ghost predicate CountedLoop(cfg: Cfg, g: Guard, l: Loop, n: nat) {
    LoopFacts(cfg, g, l) && n >= 1 && Nth(l, n) == g.bound
  }

  /** Whenever a range is derived, the recognised loop is such a loop. */
  lemma RecognisedLoopIsCounted(cfg: Cfg, g: Guard, l: Loop) returns (n: nat)
    requires GuardShape(cfg, g) && LoopShape(cfg, g, l) && cfg[g.cond].stores == []
    requires Fits64(l.init, l.step, g.bound)
    requires RangeOf(l.init, l.step, g.bound).Some?
    ensures CountedLoop(cfg, g, l, n)
    ensures RangeOf(l.init, l.step, g.bound) == Some(Covered(l.init, l.step, g.bound))
  {
    ShapeHasFacts(cfg, g, l);
    n := StepsToBound(l.init, l.step, g.bound);
    NthIsProduct(l, n);
  }

  // Without a bypass the counter is under control

  ghost predicate Loose(cfg: Cfg, g: Guard, l: Loop, b: nat) {
    AroundFrom(cfg, g, l, (b: nat) => Unguarded(cfg, g, l, b), b)
  }

  lemma LooseStarts(cfg: Cfg, g: Guard, l: Loop, b: nat)
    requires Unguarded(cfg, g, l, b)
    ensures Loose(cfg, g, l, b)
  {
    InitReachable((b: nat) => Unguarded(cfg, g, l, b), (b, next) => Around(cfg, g, l, b, next), b);
  }

  lemma LooseMovesOn(cfg: Cfg, g: Guard, l: Loop, b: nat, next: nat)
    requires Loose(cfg, g, l, b) && Around(cfg, g, l, b, next)
    ensures Loose(cfg, g, l, next)
  {
    StepReachable((b: nat) => Unguarded(cfg, g, l, b), (b, next) => Around(cfg, g, l, b, next), b, next);
  }

  /** At the guard the counter is at one of its n + 1 values; behind it, at one below the bound. */
  ghost predicate Controlled(cfg: Cfg, g: Guard, l: Loop, n: nat, s: State) {
    && s.block < |cfg|
    && (s.block == g.cond ==> Counted(l, n, s.value))
    && (s.block == g.target || s.block == l.updateBlock ==> Admitted(l, n, s.value))
    && (s.block != g.cond && s.block != l.initBlock ==> Admitted(l, n, s.value) || Loose(cfg, g, l, s.block))
  }

  lemma StepKeepsControlled(cfg: Cfg, g: Guard, l: Loop, n: nat, s: State, t: State)
    requires CountedLoop(cfg, g, l, n) && !Bypassed(cfg, g, l)
    requires Controlled(cfg, g, l, n, s) && Step(cfg, g, s, t)
    ensures Controlled(cfg, g, l, n, t)
  {
    assert !Loose(cfg, g, l, l.updateBlock);
    CountedBelowBound(l, n, g.bound, s.value);
    if s.block == g.cond {
      LooseStarts(cfg, g, l, g.exit);
    } else if s.block == l.updateBlock {
      OneStore(cfg, s.block, s.value);
      LooseStarts(cfg, g, l, t.block);
    } else if s.block == l.initBlock {
      OneStore(cfg, s.block, s.value);
      assert l.init == Nth(l, 0);
      assert Admitted(l, n, t.value);
      CountedBelowBound(l, n, g.bound, t.value);
    } else {
      assert t.value == s.value;
      if Loose(cfg, g, l, s.block) {
        LooseMovesOn(cfg, g, l, s.block, t.block);
      }
    }
  }

  lemma AlwaysControlled(cfg: Cfg, g: Guard, l: Loop, n: nat)
    requires CountedLoop(cfg, g, l, n) && !Bypassed(cfg, g, l)
    ensures forall b, v: int :: Reached(cfg, g, b, v) ==> Controlled(cfg, g, l, n, State(b, v))
  {
    LooseStarts(cfg, g, l, g.entry);
    assert !Loose(cfg, g, l, l.updateBlock);
    forall s, t | Controlled(cfg, g, l, n, s) && Step(cfg, g, s, t) ensures Controlled(cfg, g, l, n, t) {
      StepKeepsControlled(cfg, g, l, n, s, t);
    }
    ReachedKeeps(cfg, g, s => Controlled(cfg, g, l, n, s));
  }

  lemma RangeHoldsWithoutBypass(cfg: Cfg, g: Guard, l: Loop, n: nat)
    requires CountedLoop(cfg, g, l, n) && !Bypassed(cfg, g, l)
    ensures RangeHolds(cfg, g, Covered(l.init, l.step, g.bound))
  {
    var range := Covered(l.init, l.step, g.bound);
    AlwaysControlled(cfg, g, l, n);
    forall v: int | Reached(cfg, g, g.target, v)
      ensures Contains(range, v) && Contains(range, Effect(cfg[g.target].stores, v))
    {
      assert Controlled(cfg, g, l, n, State(g.target, v));
      CountedBelowBound(l, n, g.bound, v);
      CountedIsWithin(l, n, g.bound, range, v);
      if g.target == l.updateBlock {
        CountedIsWithin(l, n, g.bound, range, v + l.step);
      } else if g.target == l.initBlock {
        assert l.init == Nth(l, 0);
        CountedIsWithin(l, n, g.bound, range, l.init);
      }
    }
  }

  ghost predicate StepsLeft(l: Loop, n: nat, left: nat, v: int) {
    left <= n && v == Nth(l, n - left)
  }

  /** Without a bypass every visit to the guard is one of n + 1 values, and the bound is the only
      one that leaves. */
  lemma GuardLeavesAtTheBound(cfg: Cfg, g: Guard, l: Loop, n: nat, v: int, t: State)
    requires CountedLoop(cfg, g, l, n) && !Bypassed(cfg, g, l)
    requires Reached(cfg, g, g.cond, v) && Step(cfg, g, State(g.cond, v), t)
    ensures t.value == v && (t.block == g.exit <==> v == g.bound)
    ensures exists left: nat :: StepsLeft(l, n, left, v) && (left == 0 <==> t.block == g.exit)
  {
    AlwaysControlled(cfg, g, l, n);
    assert Controlled(cfg, g, l, n, State(g.cond, v));
    var k: nat :| k <= n && v == Nth(l, k);
    NthIsMonotone(l, k, n);
    assert StepsLeft(l, n, n - k, v);
  }

  /** Each trip through the update brings the counter one step nearer to the bound. */
  lemma UpdateStepsCloser(cfg: Cfg, g: Guard, l: Loop, n: nat, v: int, t: State)
    requires CountedLoop(cfg, g, l, n) && !Bypassed(cfg, g, l)
    requires Reached(cfg, g, l.updateBlock, v) && Step(cfg, g, State(l.updateBlock, v), t)
    ensures exists left: nat :: StepsLeft(l, n, left, t.value) && StepsLeft(l, n, left + 1, v)
  {
    AlwaysControlled(cfg, g, l, n);
    assert Controlled(cfg, g, l, n, State(l.updateBlock, v));
    var k: nat :| k < n && v == Nth(l, k);
    OneStore(cfg, l.updateBlock, v);
    assert t.value == Nth(l, k + 1);
    var left: nat := n - (k + 1);
    assert StepsLeft(l, n, left, t.value) && StepsLeft(l, n, left + 1, v);
  }

  // Whole runs

  /** A stretch of a run: each state follows from the one before. */
  ghost predicate IsRun(cfg: Cfg, g: Guard, run: seq<State>) {
    forall i :: 0 < i < |run| ==> Step(cfg, g, run[i - 1], run[i])
  }

  /** The initialising block comes first or not at all. */
  ghost predicate StaysInLoop(l: Loop, run: seq<State>) {
    forall i :: 0 < i < |run| ==> run[i].block != l.initBlock
  }

  function Visits(run: seq<State>, block: nat): nat {
    if run == [] then 0 else (if run[0].block == block then 1 else 0) + Visits(run[1..], block)
  }

  /** How many more times the guard can be visited from here, this visit included. */
  ghost predicate HasBudget(g: Guard, l: Loop, n: nat, s: State, budget: nat) {
    if s.block == l.initBlock then budget == n + 1
    else if s.block == g.cond then budget >= 1 && StepsLeft(l, n, budget - 1, s.value)
    else if Counted(l, n, s.value) then StepsLeft(l, n, budget, s.value)
    else budget == 0
  }

  lemma BudgetOf(cfg: Cfg, g: Guard, l: Loop, n: nat, s: State) returns (budget: nat)
    requires CountedLoop(cfg, g, l, n) && Controlled(cfg, g, l, n, s)
    ensures HasBudget(g, l, n, s, budget) && budget <= n + 1
  {
    if s.block == l.initBlock {
      budget := n + 1;
    } else if Counted(l, n, s.value) {
      var k: nat :| k <= n && s.value == Nth(l, k);
      budget := n - k + if s.block == g.cond then 1 else 0;
      assert StepsLeft(l, n, n - k, s.value);
    } else {
      budget := 0;
    }
  }

  lemma StepsLeftUnique(l: Loop, n: nat, a: nat, b: nat, v: int)
    requires l.step != 0 && StepsLeft(l, n, a, v) && StepsLeft(l, n, b, v)
    ensures a == b
  {
    if a <= b {
      NthIsMonotone(l, n - b, n - a);
    } else {
      NthIsMonotone(l, n - a, n - b);
    }
  }

  /** A step spends one visit when it leaves the guard, and never gains any. */
  lemma StepSpends(cfg: Cfg, g: Guard, l: Loop, n: nat, s: State, t: State, before: nat, after: nat)
    requires CountedLoop(cfg, g, l, n) && !Bypassed(cfg, g, l)
    requires Controlled(cfg, g, l, n, s) && Step(cfg, g, s, t) && t.block != l.initBlock
    requires HasBudget(g, l, n, s, before) && HasBudget(g, l, n, t, after)
    ensures after + (if s.block == g.cond then 1 else 0) <= before
  {
    assert !Loose(cfg, g, l, l.updateBlock);
    if s.block == l.initBlock {
      OneStore(cfg, s.block, s.value);
      StepsLeftAtStart(l, n);
      StepSpendsTo(g, l, n, t, n, after);
    } else if s.block == l.updateBlock {
      OneStore(cfg, s.block, s.value);
      UpdateSpends(l, n, s.value, before);
      StepSpendsTo(g, l, n, t, before - 1, after);
    } else {
      assert t.value == s.value;
      if t.block != g.cond && Counted(l, n, t.value) {
        StepsLeftUnique(l, n, after, if s.block == g.cond then before - 1 else before, t.value);
      }
    }
  }

  lemma StepsLeftAtStart(l: Loop, n: nat)
    ensures StepsLeft(l, n, n, l.init) && Counted(l, n, l.init)
  {
    assert Nth(l, 0) == l.init;
  }

  lemma UpdateSpends(l: Loop, n: nat, v: int, left: nat)
    requires l.step != 0 && Admitted(l, n, v) && (Counted(l, n, v) ==> StepsLeft(l, n, left, v))
    ensures left >= 1 && StepsLeft(l, n, left - 1, v + l.step)
  {
    var k: nat :| k < n && v == Nth(l, k);
    assert Counted(l, n, v);
    assert StepsLeft(l, n, n - k, v);
    StepsLeftUnique(l, n, left, n - k, v);
    assert v + l.step == Nth(l, k + 1);
  }

  lemma StepSpendsTo(g: Guard, l: Loop, n: nat, t: State, left: nat, after: nat)
    requires l.step != 0 && StepsLeft(l, n, left, t.value) && t.block != l.initBlock && HasBudget(g, l, n, t, after)
    ensures after <= left + 1 && (t.block != g.cond ==> after == left)
  {
    assert Counted(l, n, t.value) by {
      assert t.value == Nth(l, n - left);
    }
    if t.block == g.cond {
      StepsLeftUnique(l, n, after - 1, left, t.value);
    } else {
      StepsLeftUnique(l, n, after, left, t.value);
    }
  }

  lemma {:induction false} VisitsWithinBudget(cfg: Cfg, g: Guard, l: Loop, n: nat, run: seq<State>, budget: nat)
    requires CountedLoop(cfg, g, l, n) && !Bypassed(cfg, g, l)
    requires run != [] && IsRun(cfg, g, run) && StaysInLoop(l, run)
    requires Controlled(cfg, g, l, n, run[0]) && HasBudget(g, l, n, run[0], budget)
    ensures Visits(run, g.cond) <= budget
    decreases |run|
  {
    if |run| == 1 {
      assert run[1..] == [];
      assert run[0].block == g.cond ==> budget >= 1;
    } else {
      var rest := run[1..];
      assert Step(cfg, g, run[1 - 1], run[1]);
      forall i | 0 < i < |rest| ensures Step(cfg, g, rest[i - 1], rest[i]) {
        assert Step(cfg, g, run[i + 1 - 1], run[i + 1]);
      }
      StepKeepsControlled(cfg, g, l, n, run[0], rest[0]);
      var after := BudgetOf(cfg, g, l, n, rest[0]);
      StepSpends(cfg, g, l, n, run[0], rest[0], budget, after);
      VisitsWithinBudget(cfg, g, l, n, rest, after);
    }
  }

  /** The loop terminates: without a bypass, however long a run goes on after the initialisation
      without coming back to it, it visits the guard at most n + 1 times. */
  lemma {:induction false} GuardVisitedAtMost(cfg: Cfg, g: Guard, l: Loop, n: nat, run: seq<State>)
    requires CountedLoop(cfg, g, l, n) && !Bypassed(cfg, g, l)
    requires run != [] && Reached(cfg, g, run[0].block, run[0].value)
    requires IsRun(cfg, g, run) && StaysInLoop(l, run)
    ensures Visits(run, g.cond) <= n + 1
  {
    AlwaysControlled(cfg, g, l, n);
    assert run[0] == State(run[0].block, run[0].value);
    var budget := BudgetOf(cfg, g, l, n, run[0]);
    VisitsWithinBudget(cfg, g, l, n, run, budget);
  }

  lemma {:induction false} VisitsAppend(run: seq<State>, t: State, block: nat)
    ensures Visits(run + [t], block) == Visits(run, block) + if t.block == block then 1 else 0
    decreases |run|
  {
    if run == [] {
      assert (run + [t])[1..] == [];
    } else {
      assert (run + [t])[1..] == run[1..] + [t];
      VisitsAppend(run[1..], t, block);
    }
  }

  /** A run inside the loop from the initialising block to state t, with so many guard visits. */
  ghost predicate RunTo(cfg: Cfg, g: Guard, l: Loop, run: seq<State>, t: State, visits: nat) {
    && |run| > 0 && run[0] == State(l.initBlock, l.init) && run[|run| - 1] == t
    && IsRun(cfg, g, run) && StaysInLoop(l, run) && Visits(run, g.cond) == visits
  }

  lemma RunOn(cfg: Cfg, g: Guard, l: Loop, run: seq<State>, s: State, t: State, visits: nat)
    requires RunTo(cfg, g, l, run, s, visits) && Step(cfg, g, s, t) && t.block != l.initBlock
    ensures RunTo(cfg, g, l, run + [t], t, visits + if t.block == g.cond then 1 else 0)
  {
    var longer := run + [t];
    VisitsAppend(run, t, g.cond);
    forall i | 0 < i < |longer| ensures Step(cfg, g, longer[i - 1], longer[i]) {
      if i < |run| {
        assert Step(cfg, g, run[i - 1], run[i]);
      }
    }
  }

  /** The bound is attained: the run straight through the loop visits the guard n + 1 times. */
  lemma {:induction false} StraightRun(cfg: Cfg, g: Guard, l: Loop, n: nat, k: nat) returns (run: seq<State>)
    requires CountedLoop(cfg, g, l, n) && k <= n && g.target != l.initBlock
    ensures RunTo(cfg, g, l, run, State(g.cond, Nth(l, k)), k + 1)
    decreases k
  {
    if k == 0 {
      OneStore(cfg, l.initBlock, l.init);
      assert Nth(l, 0) == l.init;
      run := [State(l.initBlock, l.init)];
      assert run[1..] == [];
      RunOn(cfg, g, l, run, run[0], State(g.cond, l.init), 0);
      run := run + [State(g.cond, l.init)];
    } else {
      run := StraightRun(cfg, g, l, n, k - 1);
      run := OneTurn(cfg, g, l, n, k - 1, run);
    }
  }

  lemma OneTurn(cfg: Cfg, g: Guard, l: Loop, n: nat, k: nat, before: seq<State>) returns (run: seq<State>)
    requires CountedLoop(cfg, g, l, n) && k < n && g.target != l.initBlock
    requires RunTo(cfg, g, l, before, State(g.cond, Nth(l, k)), k + 1)
    ensures RunTo(cfg, g, l, run, State(g.cond, Nth(l, k + 1)), k + 2)
  {
    var v := Nth(l, k);
    NthIsMonotone(l, k, n);
    OneStore(cfg, l.updateBlock, v);
    assert Nth(l, k + 1) == v + l.step;
    RunOn(cfg, g, l, before, State(g.cond, v), State(g.target, v), k + 1);
    run := before + [State(g.target, v)];
    if g.target != l.updateBlock {
      RunOn(cfg, g, l, run, State(g.target, v), State(l.updateBlock, v), k + 1);
      run := run + [State(l.updateBlock, v)];
    }
    RunOn(cfg, g, l, run, State(l.updateBlock, v), State(g.cond, v + l.step), k + 1);
    run := run + [State(g.cond, v + l.step)];
  }
}
