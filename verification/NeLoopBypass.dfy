/** The range derived in NeLoopGuard holds in every run exactly when no path reaches the update
    around the guard. */
module NeLoopBypass {
  import opened Options
  import opened Reachability
  import opened IntRanges
  import opened NeLoopGuard
  import opened NeLoopRuns

  // With a bypass some run leaves the range

  ghost predicate Carries(cfg: Cfg, g: Guard, s: nat, b: nat) {
    forall v: int :: Reached(cfg, g, s, v) ==> Reached(cfg, g, b, v)
  }

  /** Going around changes nothing: whatever value a start is reached with arrives. */
  lemma {:induction false} CarriedAround(cfg: Cfg, g: Guard, l: Loop, starts: nat -> bool, n: nat, b: nat)
    requires LoopFacts(cfg, g, l)
    requires ReachIn(starts, (b, next) => Around(cfg, g, l, b, next), n, b)
    ensures exists s :: starts(s) && Carries(cfg, g, s, b)
    decreases n
  {
    if starts(b) {
      assert Carries(cfg, g, b, b);
    } else {
      var step := (b, next) => Around(cfg, g, l, b, next);
      var w :| ReachIn(starts, step, n - 1, w) && step(w, b);
      CarriedAround(cfg, g, l, starts, n - 1, w);
      var s :| starts(s) && Carries(cfg, g, s, w);
      forall v: int | Reached(cfg, g, s, v) ensures Reached(cfg, g, b, v) {
        ReachedStep(cfg, g, State(w, v), State(b, v));
      }
      assert Carries(cfg, g, s, b);
    }
  }

  /** From the initialisation on, the guard is met with every value up to the bound. */
  lemma {:induction false} GuardMeets(cfg: Cfg, g: Guard, l: Loop, n: nat, v: int, k: nat)
    requires CountedLoop(cfg, g, l, n) && k <= n
    requires Reached(cfg, g, l.initBlock, v) && g.target != l.initBlock
    ensures Reached(cfg, g, g.cond, Nth(l, k))
    ensures k < n ==> Reached(cfg, g, l.updateBlock, Nth(l, k))
    decreases k
  {
    if k == 0 {
      assert Nth(l, 0) == l.init;
      ReachedStep(cfg, g, State(l.initBlock, v), State(g.cond, l.init));
    } else {
      GuardMeets(cfg, g, l, n, v, k - 1);
      assert Nth(l, k) == Nth(l, k - 1) + l.step;
      ReachedStep(cfg, g, State(l.updateBlock, Nth(l, k - 1)), State(g.cond, Nth(l, k)));
    }
    if k < n {
      NthIsMonotone(l, k, n);
      PassGuard(cfg, g, l, Nth(l, k));
    }
  }

  lemma PassGuard(cfg: Cfg, g: Guard, l: Loop, v: int)
    requires LoopFacts(cfg, g, l)
    requires Reached(cfg, g, g.cond, v) && v != g.bound
    ensures Reached(cfg, g, g.target, v)
    ensures g.target != l.initBlock ==> Reached(cfg, g, l.updateBlock, v)
  {
    ReachedStep(cfg, g, State(g.cond, v), State(g.target, v));
    if g.target != l.initBlock && g.target != l.updateBlock {
      ReachedStep(cfg, g, State(g.target, v), State(l.updateBlock, v));
    }
  }

  ghost predicate PastBound(l: Loop, bound: int, v: int) {
    if l.step > 0 then v > bound else v < bound
  }

  /** An update with a value one step short of leaving the range makes the range wrong. */
  lemma UpdateBreaksRange(cfg: Cfg, g: Guard, l: Loop, v: int)
    requires LoopFacts(cfg, g, l)
    requires Reached(cfg, g, l.updateBlock, v) && PastBound(l, g.bound, v + l.step)
    ensures !RangeHolds(cfg, g, Covered(l.init, l.step, g.bound))
  {
    ReachedStep(cfg, g, State(l.updateBlock, v), State(g.cond, v + l.step));
    PassGuard(cfg, g, l, v + l.step);
    assert !Contains(Covered(l.init, l.step, g.bound), v + l.step);
  }

  /** If the guarded block is the initialising one, the loop is entered around it or not at all. */
  lemma EnteredAround(cfg: Cfg, g: Guard, l: Loop, v: int)
    requires LoopFacts(cfg, g, l) && g.target == l.initBlock
    requires Reached(cfg, g, l.initBlock, v)
    ensures Carries(cfg, g, g.entry, l.updateBlock)
  {
    var starts := (b: nat) => b == g.entry;
    var step := (b, next) => Around(cfg, g, l, b, next);
    InitReachable(starts, step, g.entry);
    if !AroundFrom(cfg, g, l, starts, l.updateBlock) {
      var outside := (s: State) =>
        AroundFrom(cfg, g, l, starts, s.block) && s.block != g.cond && s.block != l.initBlock;
      forall s, t | outside(s) && Step(cfg, g, s, t) ensures outside(t) {
        StepReachable(starts, step, s.block, t.block);
      }
      assert !outside(State(l.initBlock, v));
      ReachedKeeps(cfg, g, outside);
      assert false;
    }
    var n: nat :| ReachIn(starts, step, n, l.updateBlock);
    CarriedAround(cfg, g, l, starts, n, l.updateBlock);
  }

  lemma BypassBreaksRange(cfg: Cfg, g: Guard, l: Loop, n: nat, v: int)
    requires CountedLoop(cfg, g, l, n) && Bypassed(cfg, g, l) && Reached(cfg, g, l.initBlock, v)
    ensures !RangeHolds(cfg, g, Covered(l.init, l.step, g.bound))
  {
    var starts := (b: nat) => Unguarded(cfg, g, l, b);
    var m: nat :| ReachIn(starts, (b, next) => Around(cfg, g, l, b, next), m, l.updateBlock);
    CarriedAround(cfg, g, l, starts, m, l.updateBlock);
    var s :| starts(s) && Carries(cfg, g, s, l.updateBlock);
    if s == g.entry || g.target == l.initBlock {
      if s != g.entry {
        EnteredAround(cfg, g, l, v);
      }
      ReachedEntry(cfg, g, g.bound);
      UpdateBreaksRange(cfg, g, l, g.bound);
    } else {
      StartReachedAtBound(cfg, g, l, n, v, s);
      UpdateBreaksRange(cfg, g, l, g.bound);
    }
  }

  lemma StartReachedAtBound(cfg: Cfg, g: Guard, l: Loop, n: nat, v: int, s: nat)
    requires CountedLoop(cfg, g, l, n) && Reached(cfg, g, l.initBlock, v) && g.target != l.initBlock
    requires Unguarded(cfg, g, l, s) && s != g.entry
    ensures Reached(cfg, g, s, g.bound)
  {
    if s == g.exit {
      GuardMeets(cfg, g, l, n, v, n);
      ReachedStep(cfg, g, State(g.cond, g.bound), State(s, g.bound));
    } else {
      GuardMeets(cfg, g, l, n, v, n - 1);
      assert Nth(l, n) == Nth(l, n - 1) + l.step;
      ReachedStep(cfg, g, State(l.updateBlock, Nth(l, n - 1)), State(s, g.bound));
    }
  }

  /** The derived range is right in every run if and only if the update cannot be reached from
      the entry, from the exit or from itself without passing the guard or the initialisation. */
  lemma RangeHoldsExactlyWithoutBypass(cfg: Cfg, g: Guard, l: Loop)
    requires GuardShape(cfg, g) && LoopShape(cfg, g, l) && cfg[g.cond].stores == []
    requires Fits64(l.init, l.step, g.bound)
    requires RangeOf(l.init, l.step, g.bound).Some?
    requires exists v: int :: Reached(cfg, g, l.initBlock, v)
    ensures RangeHolds(cfg, g, RangeOf(l.init, l.step, g.bound).value) <==> !Bypassed(cfg, g, l)
  {
    var n := RecognisedLoopIsCounted(cfg, g, l);
    var v: int :| Reached(cfg, g, l.initBlock, v);
    if Bypassed(cfg, g, l) {
      BypassBreaksRange(cfg, g, l, n, v);
    } else {
      RangeHoldsWithoutBypass(cfg, g, l, n);
    }
  }

  // A recognised loop whose range is wrong

  /** for (i = 0; i != 10; ...) where leaving the loop runs the increment and starts again. */
  function RejoiningExit(): Cfg {
    [Block([StoreConstant(0)], [1]), Block([], [2, 3]), Block([], [3]), Block([AddToSlot(1)], [1])]
  }

  const COUNT_TO_TEN := Guard(0, 1, 2, 3, 10)
  const BY_ONE := Loop(0, 3, 0, 1)

  lemma RangeCanBeWrong()
    ensures GuardShape(RejoiningExit(), COUNT_TO_TEN) && LoopShape(RejoiningExit(), COUNT_TO_TEN, BY_ONE)
    ensures RangeOf(BY_ONE.init, BY_ONE.step, COUNT_TO_TEN.bound) == Some(IntRange(true, 0, true, 10))
    ensures Reached(RejoiningExit(), COUNT_TO_TEN, COUNT_TO_TEN.target, 11)
  {
    ExampleGuard();
    ExampleLoop();
    ExampleOvershoots(RejoiningExit());
  }

  lemma ExampleOvershoots(cfg: Cfg)
    requires GuardShape(cfg, COUNT_TO_TEN) && LoopShape(cfg, COUNT_TO_TEN, BY_ONE) && cfg[1].stores == []
    ensures Reached(cfg, COUNT_TO_TEN, COUNT_TO_TEN.target, 11)
  {
    ReachedEntry(cfg, COUNT_TO_TEN, 0);
    ShapeHasFacts(cfg, COUNT_TO_TEN, BY_ONE);
    NthIsProduct(BY_ONE, 10);
    ExitOvershoots(cfg, COUNT_TO_TEN, BY_ONE, 10, 0);
  }

  /** If leaving the loop runs the update, the counter comes back one step past the bound. */
  lemma ExitOvershoots(cfg: Cfg, g: Guard, l: Loop, n: nat, v: int)
    requires CountedLoop(cfg, g, l, n) && g.exit == l.updateBlock && g.target != l.initBlock
    requires Reached(cfg, g, l.initBlock, v)
    ensures Reached(cfg, g, g.target, g.bound + l.step)
  {
    GuardMeets(cfg, g, l, n, v, n);
    ReachedStep(cfg, g, State(g.cond, g.bound), State(l.updateBlock, g.bound));
    OneStore(cfg, l.updateBlock, g.bound);
    ReachedStep(cfg, g, State(l.updateBlock, g.bound), State(g.cond, g.bound + l.step));
    PassGuard(cfg, g, l, g.bound + l.step);
  }

  lemma ExampleGuard()
    ensures GuardShape(RejoiningExit(), COUNT_TO_TEN)
  {
    ExamplePredecessors(0);
    ExamplePredecessors(2);
  }

  lemma ExampleLoop()
    ensures LoopShape(RejoiningExit(), COUNT_TO_TEN, BY_ONE)
  {
    ExamplePredecessors(1);
    ExampleStores();
  }

  lemma ExampleStores()
    ensures CountStores(RejoiningExit()) == 2
  {
    var cfg := RejoiningExit();
    assert cfg[1..][0] == cfg[1] && cfg[1..][1..] == cfg[2..] && cfg[2..][0] == cfg[2] && cfg[2..][1..] == cfg[3..];
    assert cfg[3..][0] == cfg[3] && cfg[3..][1..] == [];
  }

  lemma ExamplePredecessors(target: nat)
    ensures Predecessors(RejoiningExit(), target) ==
            if target == 1 then [0, 3] else if target == 2 then [1] else if target == 3 then [1, 2] else []
  {
    var cfg := RejoiningExit();
    PredecessorsOfFour(cfg, target);
    CopiesOfOne(0, 1, target);
    CopiesOfTwo(1, 2, 3, target);
    CopiesOfOne(2, 3, target);
    CopiesOfOne(3, 1, target);
  }

  lemma PredecessorsOfFour(cfg: Cfg, target: nat)
    requires |cfg| == 4
    ensures Predecessors(cfg, target) ==
            Copies(0, cfg[0].successors, target) + Copies(1, cfg[1].successors, target) +
            Copies(2, cfg[2].successors, target) + Copies(3, cfg[3].successors, target)
  {
    PredecessorsGrow(cfg, 0, target);
    PredecessorsGrow(cfg, 1, target);
    PredecessorsGrow(cfg, 2, target);
    PredecessorsGrow(cfg, 3, target);
    WholeGraph(cfg, target);
    assert [] + Copies(0, cfg[0].successors, target) == Copies(0, cfg[0].successors, target);
  }

  lemma WholeGraph(cfg: Cfg, target: nat)
    ensures Predecessors(cfg[..|cfg|], target) == Predecessors(cfg, target) && Predecessors(cfg[..0], target) == []
  {
    assert cfg[..|cfg|] == cfg && cfg[..0] == [];
  }

  lemma PredecessorsGrow(cfg: Cfg, n: nat, target: nat)
    requires n < |cfg|
    ensures Predecessors(cfg[..n + 1], target) == Predecessors(cfg[..n], target) + Copies(n, cfg[n].successors, target)
  {
    assert cfg[..n + 1][..n] == cfg[..n];
  }

  lemma CopiesOfOne(b: nat, only: nat, target: nat)
    ensures Copies(b, [only], target) == if only == target then [b] else []
  {
  }

  lemma CopiesOfTwo(b: nat, first: nat, second: nat, target: nat)
    ensures Copies(b, [first, second], target) ==
            (if first == target then [b] else []) + if second == target then [b] else []
  {
    assert [first, second][1..] == [second];
    CopiesOfOne(b, second, target);
  }
}
