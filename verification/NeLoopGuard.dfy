/** The range heuristic for loops guarded by "counter != bound", checked against executions of
    the control-flow graph. */
module NeLoopGuard {
  import opened Options
  import opened MachineInt
  import opened IntRanges

  // Control-flow graphs, seen from one stack slot

  /** A store to the counter's slot. */
  datatype SlotStore = StoreConstant(value: int) | AddToSlot(amount: int) | StoreOther

  datatype Block = Block(stores: seq<SlotStore>, successors: seq<nat>)

  type Cfg = seq<Block>

  ghost predicate WellformedCfg(cfg: Cfg) {
    forall b, t :: 0 <= b < |cfg| && t in cfg[b].successors ==> t < |cfg|
  }

  function Copies(b: nat, successors: seq<nat>, target: nat): seq<nat> {
    if successors == [] then []
    else (if successors[0] == target then [b] else []) + Copies(b, successors[1..], target)
  }

  /** One entry per edge into the block. */
  function Predecessors(cfg: Cfg, target: nat): seq<nat> {
    if cfg == [] then []
    else Predecessors(cfg[..|cfg| - 1], target) + Copies(|cfg| - 1, cfg[|cfg| - 1].successors, target)
  }

  function CountStores(cfg: Cfg): nat {
    if cfg == [] then 0 else |cfg[0].stores| + CountStores(cfg[1..])
  }

  /** The condition block branches to target while the counter differs from bound, and to
      exit otherwise; target has no other way in. */
  datatype Guard = Guard(entry: nat, cond: nat, target: nat, exit: nat, bound: int)

  ghost predicate GuardShape(cfg: Cfg, g: Guard) {
    && WellformedCfg(cfg)
    && g.entry < |cfg| && g.cond < |cfg| && g.target < |cfg| && g.exit < |cfg|
    && cfg[g.cond].successors == [g.target, g.exit]
    && Predecessors(cfg, g.target) == [g.cond]
    && Predecessors(cfg, g.entry) == []
  }

  // deriveBoundedRangeFromNeLoopGuard

  datatype Loop = Loop(initBlock: nat, updateBlock: nat, init: int, step: int)

  function UniqueStore(block: Block): Option<SlotStore> {
    if |block.stores| == 1 then Some(block.stores[0]) else None
  }

  /** C++ remainder: the sign of the dividend. */
  function CRemainder(a: int, b: int): int
    requires b != 0
  {
    var m := Magnitude(a) % Magnitude(b);
    if a < 0 then -m else m
  }

  function Magnitude(x: int): nat {
    if x < 0 then -x else x
  }

  /** The closing arithmetic: the range, if the steps land on the bound. */
  function RangeOf(init: int, step: int, bound: int): Option<IntRange>
    requires step != 0
  {
    if step > 0 then
      if init >= bound || CRemainder(Wrap64(bound - init), step) != 0 then None
      else Some(IntRange(true, init, true, bound))
    else
      var magnitude := Wrap64(-step);
      if init <= bound || magnitude == 0 || CRemainder(Wrap64(init - bound), magnitude) != 0 then None
      else Some(IntRange(true, bound, true, init))
  }

  /** Counting from init by step, the counter meets the bound after n steps. */
  ghost predicate MeetsBound(init: int, step: int, bound: int, n: nat) {
    n >= 1 && bound == init + n * step
  }

  ghost predicate LandsOnBound(init: int, step: int, bound: int) {
    exists n: nat :: MeetsBound(init, step, bound, n)
  }

  /** The values the counter takes on its way. */
  ghost function Covered(init: int, step: int, bound: int): IntRange {
    if step > 0 then IntRange(true, init, true, bound) else IntRange(true, bound, true, init)
  }

  /** A non-zero 64-bit step, and no overflow in the closing arithmetic. */
  ghost predicate Fits64(init: int, step: int, bound: int) {
    step != 0 && INT64_MIN <= step <= INT64_MAX && INT64_MIN <= bound - init <= INT64_MAX
  }

  ghost predicate Divisible(delta: nat, magnitude: nat, n: nat) {
    delta == n * magnitude
  }

  lemma DivisibleByQuotient(delta: nat, magnitude: nat)
    requires magnitude > 0 && delta % magnitude == 0
    ensures Divisible(delta, magnitude, delta / magnitude)
  {
  }

  lemma {:induction false} MultipleIsLarge(k: nat, magnitude: nat)
    requires k > 0
    ensures k * magnitude >= magnitude
  {
    if k > 1 {
      MultipleIsLarge(k - 1, magnitude);
      assert k * magnitude == (k - 1) * magnitude + magnitude;
    }
  }

  lemma SmallMultipleIsZero(k: int, magnitude: nat)
    requires 0 <= k * magnitude < magnitude
    ensures k == 0
  {
    if k > 0 {
      MultipleIsLarge(k, magnitude);
    }
  }

  lemma DivisibleHasNoRemainder(delta: nat, magnitude: nat, n: nat)
    requires magnitude > 0 && Divisible(delta, magnitude, n)
    ensures delta % magnitude == 0
  {
    var q, r := delta / magnitude, delta % magnitude;
    assert delta == q * magnitude + r;
    assert (n - q) * magnitude == r;
    SmallMultipleIsZero(n - q, magnitude);
  }

  lemma NegatedProduct(n: nat, step: int)
    ensures n * -step == -(n * step)
  {
  }

  /** The closing arithmetic tests whether the step divides the distance. */
  lemma RangeTestsDivisibility(init: int, step: int, bound: int)
    requires Fits64(init, step, bound)
    ensures step > 0 ==> (RangeOf(init, step, bound).Some? <==> init < bound && (bound - init) % step == 0)
    ensures step < 0 ==> (RangeOf(init, step, bound).Some? <==> bound < init && (init - bound) % -step == 0)
    ensures RangeOf(init, step, bound).Some? ==> RangeOf(init, step, bound) == Some(Covered(init, step, bound))
  {
  }

  lemma QuotientMeetsBound(distance: nat, magnitude: nat) returns (n: nat)
    requires 0 < distance && 0 < magnitude && distance % magnitude == 0
    ensures n >= 1 && Divisible(distance, magnitude, n)
  {
    DivisibleByQuotient(distance, magnitude);
    n := distance / magnitude;
  }

  /** A range is derived only if some number of steps leads exactly to the bound. */
  lemma StepsToBound(init: int, step: int, bound: int) returns (n: nat)
    requires Fits64(init, step, bound) && RangeOf(init, step, bound).Some?
    ensures MeetsBound(init, step, bound, n)
    ensures RangeOf(init, step, bound) == Some(Covered(init, step, bound))
  {
    RangeTestsDivisibility(init, step, bound);
    if step > 0 {
      n := QuotientMeetsBound(bound - init, step);
    } else {
      n := QuotientMeetsBound(init - bound, -step);
      NegatedProduct(n, step);
    }
  }

  /** And always then. */
  lemma RangeExactlyWhenLanding(init: int, step: int, bound: int)
    requires Fits64(init, step, bound)
    ensures RangeOf(init, step, bound).Some? <==> LandsOnBound(init, step, bound)
  {
    if RangeOf(init, step, bound).Some? {
      var n := StepsToBound(init, step, bound);
    }
    if n: nat :| MeetsBound(init, step, bound, n) {
      LandingHasRange(init, step, bound, n);
    }
  }

  lemma LandingHasRange(init: int, step: int, bound: int, n: nat)
    requires Fits64(init, step, bound) && MeetsBound(init, step, bound, n)
    ensures RangeOf(init, step, bound).Some?
  {
    RangeTestsDivisibility(init, step, bound);
    var magnitude := Magnitude(step);
    MultipleIsLarge(n, magnitude);
    if step > 0 {
      DivisibleHasNoRemainder(bound - init, magnitude, n);
    } else {
      NegatedProduct(n, step);
      DivisibleHasNoRemainder(init - bound, magnitude, n);
    }
  }

  /** One initialising and one updating block, and no other store, around the guard. */
  ghost predicate LoopShape(cfg: Cfg, g: Guard, l: Loop) {
    && l.initBlock < |cfg| && l.updateBlock < |cfg| && g.target < |cfg| && l.step != 0
    && (|| Predecessors(cfg, g.cond) == [l.initBlock, l.updateBlock]
        || Predecessors(cfg, g.cond) == [l.updateBlock, l.initBlock])
    && cfg[l.initBlock].stores == [StoreConstant(l.init)]
    && cfg[l.updateBlock].stores == [AddToSlot(l.step)]
    && CountStores(cfg) == 2
    && (l.updateBlock == g.target || l.updateBlock in cfg[g.target].successors)
  }

  predicate IsInit(cfg: Cfg, b: nat) {
    b < |cfg| && |cfg[b].stores| == 1 && cfg[b].stores[0].StoreConstant?
  }

  predicate IsUpdate(cfg: Cfg, b: nat) {
    b < |cfg| && |cfg[b].stores| == 1 && cfg[b].stores[0].AddToSlot? && cfg[b].stores[0].amount != 0
  }

  function Initialising(cfg: Cfg, blocks: seq<nat>): seq<nat> {
    if blocks == [] then []
    else
      var b := blocks[|blocks| - 1];
      Initialising(cfg, blocks[..|blocks| - 1]) + if IsInit(cfg, b) then [b] else []
  }

  function Updating(cfg: Cfg, blocks: seq<nat>): seq<nat> {
    if blocks == [] then []
    else
      var b := blocks[|blocks| - 1];
      Updating(cfg, blocks[..|blocks| - 1]) + if IsUpdate(cfg, b) then [b] else []
  }

  function Listed(found: Option<nat>): seq<nat> {
    if found.Some? then [found.value] else []
  }

  ghost predicate FoundInit(cfg: Cfg, blocks: seq<nat>, found: Option<nat>, value: int) {
    && Initialising(cfg, blocks) == Listed(found)
    && (found.Some? ==> found.value < |cfg| && cfg[found.value].stores == [StoreConstant(value)])
  }

  ghost predicate FoundUpdate(cfg: Cfg, blocks: seq<nat>, found: Option<nat>, amount: int) {
    && Updating(cfg, blocks) == Listed(found)
    && (found.Some? ==> found.value < |cfg| && cfg[found.value].stores == [AddToSlot(amount)] && amount != 0)
  }

  /** The scan over the guard's predecessors; it gives up on a second block of either kind. */
  method ScanPredecessors(cfg: Cfg, preds: seq<nat>)
    returns (repeated: bool, initBlock: Option<nat>, initValue: int, updateBlock: Option<nat>, stepValue: int)
    requires forall b :: b in preds ==> b < |cfg|
    ensures repeated <==> |Initialising(cfg, preds)| > 1 || |Updating(cfg, preds)| > 1
    ensures !repeated ==> FoundInit(cfg, preds, initBlock, initValue) && FoundUpdate(cfg, preds, updateBlock, stepValue)
  {
    repeated, initBlock, updateBlock, initValue, stepValue := false, None, None, 0, 0;
    for i := 0 to |preds|
      invariant !repeated
      invariant FoundInit(cfg, preds[..i], initBlock, initValue)
      invariant FoundUpdate(cfg, preds[..i], updateBlock, stepValue)
    {
      var incoming := preds[i];
      assert incoming in preds;
      SelectOneMore(cfg, preds, i);
      SelectionsGrow(cfg, preds, i + 1);
      var store := UniqueStore(cfg[incoming]);
      if store.Some? && store.value.StoreConstant? {
        if initBlock.Some? {
          repeated := true;
          return;
        }
        initBlock, initValue := Some(incoming), store.value.value;
      } else if store.Some? && store.value.AddToSlot? && store.value.amount != 0 {
        if updateBlock.Some? {
          repeated := true;
          return;
        }
        updateBlock, stepValue := Some(incoming), store.value.amount;
      }
    }
    assert preds[..|preds|] == preds;
  }

  lemma SelectOneMore(cfg: Cfg, blocks: seq<nat>, i: nat)
    requires i < |blocks|
    ensures Initialising(cfg, blocks[..i + 1]) ==
            Initialising(cfg, blocks[..i]) + if IsInit(cfg, blocks[i]) then [blocks[i]] else []
    ensures Updating(cfg, blocks[..i + 1]) ==
            Updating(cfg, blocks[..i]) + if IsUpdate(cfg, blocks[i]) then [blocks[i]] else []
  {
    assert blocks[..i + 1][..i] == blocks[..i];
  }

  lemma {:induction false} SelectionsGrow(cfg: Cfg, blocks: seq<nat>, i: nat)
    requires i <= |blocks|
    ensures |Initialising(cfg, blocks[..i])| <= |Initialising(cfg, blocks)|
    ensures |Updating(cfg, blocks[..i])| <= |Updating(cfg, blocks)|
    decreases |blocks|
  {
    if i == |blocks| {
      assert blocks[..i] == blocks;
    } else {
      var shorter := blocks[..|blocks| - 1];
      assert shorter[..i] == blocks[..i];
      SelectionsGrow(cfg, shorter, i);
    }
  }

  /** The scan found exactly one block of each kind if and only if the two blocks are those. */
  lemma SelectionsOfTwo(cfg: Cfg, blocks: seq<nat>, i: nat, u: nat)
    requires IsInit(cfg, i) && IsUpdate(cfg, u)
    ensures |blocks| == 2 && Initialising(cfg, blocks) == [i] && Updating(cfg, blocks) == [u]
            <==> blocks == [i, u] || blocks == [u, i]
  {
    if |blocks| == 2 {
      SelectOneMore(cfg, blocks, 0);
      SelectOneMore(cfg, blocks, 1);
      assert blocks[..0] == [] && blocks[..2] == blocks && blocks == [blocks[0], blocks[1]];
      var inits, updates := Initialising(cfg, blocks), Updating(cfg, blocks);
      assert inits == [i] ==> inits[0] == i;
      assert updates == [u] ==> updates[0] == u;
    }
  }

  /** What the scan must have seen whenever the shape is there. */
  lemma ShapeIsScanned(cfg: Cfg, g: Guard, l: Loop)
    requires LoopShape(cfg, g, l)
    ensures var preds := Predecessors(cfg, g.cond);
            |preds| == 2 && Initialising(cfg, preds) == [l.initBlock] && Updating(cfg, preds) == [l.updateBlock]
  {
    SelectionsOfTwo(cfg, Predecessors(cfg, g.cond), l.initBlock, l.updateBlock);
  }

  method DeriveBoundedRange(cfg: Cfg, g: Guard, takesTrueEdge: bool, keyIsStackSlot: bool)
    returns (range: Option<IntRange>, ghost loop: Loop)
    requires GuardShape(cfg, g)
    ensures range.Some? ==>
              takesTrueEdge && keyIsStackSlot && LoopShape(cfg, g, loop) &&
              range == RangeOf(loop.init, loop.step, g.bound) &&
              (Fits64(loop.init, loop.step, g.bound) ==>
                 LandsOnBound(loop.init, loop.step, g.bound) &&
                 range == Some(Covered(loop.init, loop.step, g.bound)))
    ensures range.None? && takesTrueEdge && keyIsStackSlot ==>
              forall l :: LoopShape(cfg, g, l) ==>
                RangeOf(l.init, l.step, g.bound).None? &&
                (Fits64(l.init, l.step, g.bound) ==> !LandsOnBound(l.init, l.step, g.bound))
  {
    loop := Loop(0, 0, 0, 0);
    if !takesTrueEdge || !keyIsStackSlot || CountStores(cfg) != 2 {
      return None, loop;
    }
    var preds := Predecessors(cfg, g.cond);
    forall b | b in preds ensures b < |cfg| {
      PredecessorMember(cfg, g.cond, b);
    }
    var repeated, initBlock, initValue, updateBlock, stepValue := ScanPredecessors(cfg, preds);
    forall l | LoopShape(cfg, g, l)
      ensures !repeated && |preds| == 2 && initBlock == Some(l.initBlock) && updateBlock == Some(l.updateBlock)
    {
      ShapeIsScanned(cfg, g, l);
    }
    forall l: Loop | Fits64(l.init, l.step, g.bound)
      ensures RangeOf(l.init, l.step, g.bound).Some? <==> LandsOnBound(l.init, l.step, g.bound)
      ensures RangeOf(l.init, l.step, g.bound).Some? ==>
                RangeOf(l.init, l.step, g.bound) == Some(Covered(l.init, l.step, g.bound))
    {
      RangeExactlyWhenLanding(l.init, l.step, g.bound);
      if RangeOf(l.init, l.step, g.bound).Some? {
        var n := StepsToBound(l.init, l.step, g.bound);
      }
    }
    if repeated || |preds| != 2 || initBlock.None? || updateBlock.None? {
      return None, loop;
    }
    if updateBlock.value != g.target && updateBlock.value !in cfg[g.target].successors {
      return None, loop;
    }
    SelectionsOfTwo(cfg, preds, initBlock.value, updateBlock.value);
    loop := Loop(initBlock.value, updateBlock.value, initValue, stepValue);
    range := RangeOf(initValue, stepValue, g.bound);
  }

  lemma {:induction false} CopiesMember(b: nat, successors: seq<nat>, target: nat)
    ensures forall x :: x in Copies(b, successors, target) ==> x == b
    ensures target in successors <==> b in Copies(b, successors, target)
  {
    if successors != [] {
      CopiesMember(b, successors[1..], target);
    }
  }

  lemma {:induction false} PredecessorMember(cfg: Cfg, target: nat, b: nat)
    ensures b in Predecessors(cfg, target) <==> b < |cfg| && target in cfg[b].successors
    decreases |cfg|
  {
    if cfg != [] {
      var n := |cfg| - 1;
      PredecessorMember(cfg[..n], target, b);
      CopiesMember(n, cfg[n].successors, target);
    }
  }
}
