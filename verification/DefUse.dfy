/** Def-use graphs of integers and pointers: the backward steps the provenance searches take, and
    what the values evaluate to. */
module DefUse {
  import opened MachineInt

  type Value = nat

  datatype SlotStore = SelfUpdate(stored: Value, delta: int) | Seed(stored: Value) | Dependent(stored: Value)

  datatype IntNode =
    | PtrToInt(operand: Value)
    | AddSub(isSub: bool, lhs: Value, rhs: Value, lhsConstant: bool, lhsValue: int, rhsConstant: bool, rhsValue: int)
    | IntMerge(incoming: seq<Value>)          // phi and select
    | IntSlotLoad(stores: seq<SlotStore>)     // load of an integer stack slot
    | IntLeaf

  datatype PtrNode =
    | Alloca(ofPointerType: bool, stored: seq<Value>)
    | PtrCast(source: Value)
    | ConstantGep(base: Value, offset: int)
    | IntToPtr(operand: Value)
    | PtrSlotLoad(pointerOperand: Value, fromPointerSlot: bool)
    | PtrMerge(incoming: seq<Value>)
    | PtrLeaf

  /** strip removes integer casts; the two views classify the definitions of values. */
  datatype Graph = Graph(strip: Value -> Value, ints: Value -> IntNode, ptrs: Value -> PtrNode)

  /** One backward step: the value traced next, what it adds to the offset, and whether it
      counts as pointer arithmetic. */
  datatype Hop = Hop(target: Value, delta: int, sawOffset: bool)

  function Plain(values: seq<Value>): (hops: seq<Hop>)
    ensures |hops| == |values|
    ensures forall i :: 0 <= i < |values| ==> hops[i] == Hop(values[i], 0, false)
  {
    seq(|values|, i requires 0 <= i < |values| => Hop(values[i], 0, false))
  }

  function Seeds(stores: seq<SlotStore>): seq<Value> {
    if stores == [] then []
    else (if stores[0].Seed? then [stores[0].stored] else []) + Seeds(stores[1..])
  }

  function Deltas(stores: seq<SlotStore>): seq<int> {
    if stores == [] then []
    else (if stores[0].SelfUpdate? then [stores[0].delta] else []) + Deltas(stores[1..])
  }

  function AllStored(stores: seq<SlotStore>): seq<Value> {
    if stores == [] then [] else [stores[0].stored] + AllStored(stores[1..])
  }

  function Shifted(seed: Value, deltas: seq<int>): seq<Hop> {
    if deltas == [] then [] else [Hop(seed, deltas[0], true)] + Shifted(seed, deltas[1..])
  }

  function SeedHops(seeds: seq<Value>, deltas: seq<int>): seq<Hop> {
    if seeds == [] then []
    else [Hop(seeds[0], 0, false)] + Shifted(seeds[0], deltas) + SeedHops(seeds[1..], deltas)
  }

  function IntHops(node: IntNode): seq<Hop> {
    match node
    case PtrToInt(_) => []
    case AddSub(isSub, lhs, rhs, lhsConstant, lhsValue, rhsConstant, rhsValue) =>
      if rhsConstant then [Hop(lhs, if isSub then -rhsValue else rhsValue, true)]
      else if lhsConstant && !isSub then [Hop(rhs, lhsValue, true)]
      else []
    case IntMerge(incoming) => Plain(incoming)
    case IntSlotLoad(stores) =>
      if Seeds(stores) != [] then SeedHops(Seeds(stores), Deltas(stores)) else Plain(AllStored(stores))
    case IntLeaf => []
  }

  /** Steps out of a pointer definition, except those found by the integer search. */
  function PtrHops(node: PtrNode): seq<Hop> {
    match node
    case Alloca(ofPointerType, stored) => if ofPointerType then Plain(stored) else []
    case PtrCast(source) => [Hop(source, 0, false)]
    case ConstantGep(base, offset) => [Hop(base, offset, false)]
    case IntToPtr(_) => []
    case PtrSlotLoad(pointerOperand, fromPointerSlot) => if fromPointerSlot then [Hop(pointerOperand, 0, false)] else []
    case PtrMerge(incoming) => Plain(incoming)
    case PtrLeaf => []
  }

  predicate IsObject(g: Graph, v: Value) {
    g.ptrs(v).Alloca? && !g.ptrs(v).ofPointerType
  }

  // What values evaluate to

  /** The address of a pointer plus a constant; sawOffset: the constant was computed with. */
  datatype PtrIntMatch = PtrIntMatch(ptrOperand: Value, offset: int, sawOffset: bool)

  /** The address of a stack object plus a constant. */
  datatype PtrOrigin = PtrOrigin(allocation: Value, offset: int)

  ghost function Plus(x: PtrIntMatch, delta: int): PtrIntMatch {
    PtrIntMatch(x.ptrOperand, x.offset + delta, true)
  }

  ghost function Minus(x: PtrIntMatch, delta: int): PtrIntMatch {
    PtrIntMatch(x.ptrOperand, x.offset - delta, true)
  }

  /** Within n definitions, v can evaluate to the address m.ptrOperand plus m.offset. An integer
      slot holds what was stored to it; if it was seeded, the seed, or the seed after one of the
      updates the slot makes to itself. */
  ghost predicate IntDenotes(g: Graph, n: nat, v: Value, m: PtrIntMatch)
    decreases n
  {
    match g.ints(g.strip(v))
    case PtrToInt(operand) => m == PtrIntMatch(operand, 0, false)
    case AddSub(isSub, lhs, rhs, lhsConstant, lhsValue, rhsConstant, rhsValue) =>
      n > 0 &&
      if rhsConstant then
        exists x :: IntDenotes(g, n - 1, lhs, x) && m == if isSub then Minus(x, rhsValue) else Plus(x, rhsValue)
      else
        lhsConstant && !isSub && exists x :: IntDenotes(g, n - 1, rhs, x) && m == Plus(x, lhsValue)
    case IntMerge(incoming) =>
      n > 0 && exists i :: 0 <= i < |incoming| && IntDenotes(g, n - 1, incoming[i], m)
    case IntSlotLoad(stores) =>
      n > 0 && exists k, x ::
        0 <= k < |stores| && IntDenotes(g, n - 1, stores[k].stored, x) && SlotHolds(stores, k, x, m)
    case IntLeaf => false
  }

  ghost predicate Seeded(stores: seq<SlotStore>) {
    exists k :: 0 <= k < |stores| && stores[k].Seed?
  }

  /** m may be in the slot because x, the value of store k, was put there. */
  ghost predicate SlotHolds(stores: seq<SlotStore>, k: nat, x: PtrIntMatch, m: PtrIntMatch)
    requires k < |stores|
  {
    if Seeded(stores) then
      stores[k].Seed? && (m == x || exists delta :: UpdatesBy(stores, delta) && m == Plus(x, delta))
    else
      m == x
  }

  ghost predicate UpdatesBy(stores: seq<SlotStore>, delta: int) {
    exists u :: 0 <= u < |stores| && stores[u].SelfUpdate? && stores[u].delta == delta
  }

  ghost predicate IntCanDenote(g: Graph, v: Value, x: PtrIntMatch) {
    exists n: nat :: IntDenotes(g, n, v, x)
  }

  /** In 64-bit arithmetic, v can evaluate to the address of m.ptrOperand plus m.offset. */
  ghost predicate IntEvaluates(g: Graph, v: Value, m: PtrIntMatch) {
    exists x :: IntCanDenote(g, v, x) && m == x.(offset := Wrap64(x.offset))
  }

  /** Within n definitions, v can evaluate to the address of a stack object plus an offset. A
      pointer variable holds what was stored to it, and a pointer made from an integer is
      wherever the integer says. */
  ghost predicate PtrDenotes(g: Graph, n: nat, v: Value, o: PtrOrigin)
    decreases n
  {
    match g.ptrs(v)
    case Alloca(ofPointerType, stored) =>
      if ofPointerType then n > 0 && exists i :: 0 <= i < |stored| && PtrDenotes(g, n - 1, stored[i], o)
      else o == PtrOrigin(v, 0)
    case PtrCast(source) => n > 0 && PtrDenotes(g, n - 1, source, o)
    case ConstantGep(base, offset) =>
      n > 0 && exists x :: PtrDenotes(g, n - 1, base, x) && o == PtrOrigin(x.allocation, x.offset + offset)
    case IntToPtr(operand) =>
      n > 0 && exists m, x ::
        && IntEvaluates(g, operand, m) && PtrDenotes(g, n - 1, m.ptrOperand, x)
        && o == PtrOrigin(x.allocation, x.offset + m.offset)
    case PtrSlotLoad(pointerOperand, fromPointerSlot) =>
      n > 0 && fromPointerSlot && PtrDenotes(g, n - 1, pointerOperand, o)
    case PtrMerge(incoming) =>
      n > 0 && exists i :: 0 <= i < |incoming| && PtrDenotes(g, n - 1, incoming[i], o)
    case PtrLeaf => false
  }

  /** In 64-bit arithmetic, v can evaluate to the address of o.allocation plus o.offset. */
  ghost predicate PtrEvaluates(g: Graph, v: Value, o: PtrOrigin) {
    exists n: nat, x :: PtrDenotes(g, n, v, x) && o == x.(offset := Wrap64(x.offset))
  }

  // The steps follow the evaluation

  ghost function PlusHop(x: PtrIntMatch, hop: Hop): PtrIntMatch {
    PtrIntMatch(x.ptrOperand, x.offset + hop.delta, x.sawOffset || hop.sawOffset)
  }

  lemma {:induction false} SeedsAreSeeds(stores: seq<SlotStore>, v: Value)
    ensures v in Seeds(stores) <==> exists k :: 0 <= k < |stores| && stores[k] == Seed(v)
  {
    if stores != [] {
      SeedsAreSeeds(stores[1..], v);
      assert stores == [stores[0]] + stores[1..];
    }
  }

  lemma {:induction false} DeltasAreUpdates(stores: seq<SlotStore>, delta: int)
    ensures delta in Deltas(stores) <==> UpdatesBy(stores, delta)
  {
    if stores != [] {
      DeltasAreUpdates(stores[1..], delta);
      assert stores == [stores[0]] + stores[1..];
    }
  }

  lemma {:induction false} AllStoredAreStores(stores: seq<SlotStore>)
    ensures |AllStored(stores)| == |stores|
    ensures forall k :: 0 <= k < |stores| ==> AllStored(stores)[k] == stores[k].stored
  {
    if stores != [] {
      AllStoredAreStores(stores[1..]);
    }
  }

  lemma {:induction false} ShiftedAre(seed: Value, deltas: seq<int>, hop: Hop)
    ensures hop in Shifted(seed, deltas) <==> hop.target == seed && hop.sawOffset && hop.delta in deltas
  {
    if deltas != [] {
      ShiftedAre(seed, deltas[1..], hop);
      assert deltas == [deltas[0]] + deltas[1..];
    }
  }

  lemma {:induction false} SeedHopsAre(seeds: seq<Value>, deltas: seq<int>, hop: Hop)
    ensures hop in SeedHops(seeds, deltas) <==>
            hop.target in seeds && if hop.sawOffset then hop.delta in deltas else hop.delta == 0
  {
    if seeds != [] {
      SeedHopsAre(seeds[1..], deltas, hop);
      ShiftedAre(seeds[0], deltas, hop);
      assert seeds == [seeds[0]] + seeds[1..];
    }
  }

  /** The hop leads to what store k put into the slot, with what the slot adds to it. */
  ghost predicate SlotHop(stores: seq<SlotStore>, k: nat, hop: Hop)
    requires k < |stores|
  {
    && hop.target == stores[k].stored
    && if Seeded(stores) then
         stores[k].Seed? && if hop.sawOffset then UpdatesBy(stores, hop.delta) else hop.delta == 0
       else
         hop.delta == 0 && !hop.sawOffset
  }

  lemma SlotHopsAre(stores: seq<SlotStore>, hop: Hop)
    ensures hop in IntHops(IntSlotLoad(stores)) <==> exists k :: 0 <= k < |stores| && SlotHop(stores, k, hop)
  {
    SeededHasSeeds(stores);
    if Seeded(stores) {
      SeededHopsAre(stores, hop);
    } else {
      var values := AllStored(stores);
      AllStoredAreStores(stores);
      if hop in Plain(values) {
        var k :| 0 <= k < |values| && hop == Plain(values)[k];
        assert SlotHop(stores, k, hop);
      }
      if k :| 0 <= k < |stores| && SlotHop(stores, k, hop) {
        assert hop == Plain(values)[k];
      }
    }
  }

  lemma SeededHasSeeds(stores: seq<SlotStore>)
    ensures Seeded(stores) <==> Seeds(stores) != []
  {
    if k :| 0 <= k < |stores| && stores[k].Seed? {
      SeedsAreSeeds(stores, stores[k].stored);
    }
    if Seeds(stores) != [] {
      SeedsAreSeeds(stores, Seeds(stores)[0]);
    }
  }

  lemma SeededHopsAre(stores: seq<SlotStore>, hop: Hop)
    requires Seeded(stores)
    ensures hop in SeedHops(Seeds(stores), Deltas(stores)) <==>
            exists k :: 0 <= k < |stores| && SlotHop(stores, k, hop)
  {
    SeedHopsAre(Seeds(stores), Deltas(stores), hop);
    SeedsAreSeeds(stores, hop.target);
    DeltasAreUpdates(stores, hop.delta);
    if k :| 0 <= k < |stores| && stores[k] == Seed(hop.target) && hop in SeedHops(Seeds(stores), Deltas(stores)) {
      assert SlotHop(stores, k, hop);
    }
    if k :| 0 <= k < |stores| && SlotHop(stores, k, hop) {
      assert stores[k] == Seed(hop.target);
    }
  }

  lemma SlotHopHolds(stores: seq<SlotStore>, hop: Hop, x: PtrIntMatch) returns (k: nat)
    requires hop in IntHops(IntSlotLoad(stores))
    ensures k < |stores| && hop.target == stores[k].stored && SlotHolds(stores, k, x, PlusHop(x, hop))
  {
    SlotHopsAre(stores, hop);
    k :| 0 <= k < |stores| && SlotHop(stores, k, hop);
    if hop.sawOffset {
      assert PlusHop(x, hop) == Plus(x, hop.delta);
    }
  }

  lemma SlotValueHasHop(stores: seq<SlotStore>, k: nat, x: PtrIntMatch, m: PtrIntMatch) returns (hop: Hop)
    requires k < |stores| && SlotHolds(stores, k, x, m)
    ensures hop in IntHops(IntSlotLoad(stores)) && hop.target == stores[k].stored && m == PlusHop(x, hop)
  {
    if m == x {
      hop := Hop(stores[k].stored, 0, false);
    } else {
      var delta :| UpdatesBy(stores, delta) && m == Plus(x, delta);
      hop := Hop(stores[k].stored, delta, true);
    }
    assert SlotHop(stores, k, hop);
    SlotHopsAre(stores, hop);
  }

  lemma SumEvaluates(g: Graph, n: nat, v: Value, hop: Hop, x: PtrIntMatch)
    requires g.ints(g.strip(v)).AddSub? && hop in IntHops(g.ints(g.strip(v))) && IntDenotes(g, n, hop.target, x)
    ensures IntDenotes(g, n + 1, v, PlusHop(x, hop))
  {
    var node := g.ints(g.strip(v));
    assert PlusHop(x, hop) == if node.isSub && node.rhsConstant then Minus(x, -hop.delta) else Plus(x, hop.delta);
  }

  lemma MergeEvaluates(g: Graph, n: nat, v: Value, hop: Hop, x: PtrIntMatch)
    requires g.ints(g.strip(v)).IntMerge? && hop in IntHops(g.ints(g.strip(v))) && IntDenotes(g, n, hop.target, x)
    ensures IntDenotes(g, n + 1, v, PlusHop(x, hop))
  {
    var incoming := g.ints(g.strip(v)).incoming;
    var i :| 0 <= i < |incoming| && hop == Hop(incoming[i], 0, false);
    assert IntDenotes(g, n, incoming[i], PlusHop(x, hop));
  }

  lemma SlotLoadEvaluates(g: Graph, n: nat, v: Value, hop: Hop, x: PtrIntMatch)
    requires g.ints(g.strip(v)).IntSlotLoad? && hop in IntHops(g.ints(g.strip(v))) && IntDenotes(g, n, hop.target, x)
    ensures IntDenotes(g, n + 1, v, PlusHop(x, hop))
  {
    var stores := g.ints(g.strip(v)).stores;
    var k := SlotHopHolds(stores, hop, x);
    assert IntDenotes(g, n, stores[k].stored, x) && SlotHolds(stores, k, x, PlusHop(x, hop));
  }

  /** Whatever the target of a hop evaluates to, the hop's source evaluates to with the hop's delta
      added. */
  lemma IntHopEvaluates(g: Graph, n: nat, v: Value, hop: Hop, x: PtrIntMatch)
    requires hop in IntHops(g.ints(g.strip(v))) && IntDenotes(g, n, hop.target, x)
    ensures IntDenotes(g, n + 1, v, PlusHop(x, hop))
  {
    match g.ints(g.strip(v)) {
      case AddSub(_, _, _, _, _, _, _) => SumEvaluates(g, n, v, hop, x);
      case IntMerge(_) => MergeEvaluates(g, n, v, hop, x);
      case IntSlotLoad(_) => SlotLoadEvaluates(g, n, v, hop, x);
      case _ =>
    }
  }

  /** And every evaluation comes from a hop, or from the pointer the integer was made from. */
  lemma IntEvaluatesByHop(g: Graph, n: nat, v: Value, m: PtrIntMatch) returns (hop: Hop, x: PtrIntMatch)
    requires IntDenotes(g, n, v, m) && !g.ints(g.strip(v)).PtrToInt?
    ensures n > 0 && hop in IntHops(g.ints(g.strip(v)))
    ensures IntDenotes(g, n - 1, hop.target, x) && m == PlusHop(x, hop)
  {
    match g.ints(g.strip(v)) {
      case AddSub(isSub, lhs, rhs, lhsConstant, lhsValue, rhsConstant, rhsValue) =>
        if rhsConstant {
          x :| IntDenotes(g, n - 1, lhs, x) && m == if isSub then Minus(x, rhsValue) else Plus(x, rhsValue);
          hop := Hop(lhs, m.offset - x.offset, true);
        } else {
          x :| IntDenotes(g, n - 1, rhs, x) && m == Plus(x, lhsValue);
          hop := Hop(rhs, m.offset - x.offset, true);
        }
      case IntMerge(incoming) =>
        var i :| 0 <= i < |incoming| && IntDenotes(g, n - 1, incoming[i], m);
        hop, x := Plain(incoming)[i], m;
      case IntSlotLoad(stores) =>
        var k, y :| 0 <= k < |stores| && IntDenotes(g, n - 1, stores[k].stored, y) && SlotHolds(stores, k, y, m);
        hop := SlotValueHasHop(stores, k, y, m);
        x := y;
    }
  }

  /** One backward step from a pointer, the integer search included. */
  ghost predicate PtrEdge(g: Graph, v: Value, hop: Hop) {
    || hop in PtrHops(g.ptrs(v))
    || (g.ptrs(v).IntToPtr?
        && exists m :: IntEvaluates(g, g.ptrs(v).operand, m) && hop == Hop(m.ptrOperand, m.offset, false))
  }

  lemma PtrHopEvaluates(g: Graph, n: nat, v: Value, hop: Hop, x: PtrOrigin)
    requires PtrEdge(g, v, hop) && PtrDenotes(g, n, hop.target, x)
    ensures PtrDenotes(g, n + 1, v, PtrOrigin(x.allocation, x.offset + hop.delta))
  {
    var o := PtrOrigin(x.allocation, x.offset + hop.delta);
    match g.ptrs(v) {
      case Alloca(ofPointerType, stored) =>
        var i :| 0 <= i < |stored| && hop == Hop(stored[i], 0, false);
        assert PtrDenotes(g, n, stored[i], o);
      case PtrMerge(incoming) =>
        var i :| 0 <= i < |incoming| && hop == Hop(incoming[i], 0, false);
        assert PtrDenotes(g, n, incoming[i], o);
      case _ =>
    }
  }

  lemma PtrEvaluatesByHop(g: Graph, n: nat, v: Value, o: PtrOrigin) returns (hop: Hop, x: PtrOrigin)
    requires PtrDenotes(g, n, v, o) && !IsObject(g, v)
    ensures n > 0 && PtrEdge(g, v, hop)
    ensures PtrDenotes(g, n - 1, hop.target, x) && o == PtrOrigin(x.allocation, x.offset + hop.delta)
  {
    x := o;
    match g.ptrs(v) {
      case Alloca(ofPointerType, stored) =>
        var i :| 0 <= i < |stored| && PtrDenotes(g, n - 1, stored[i], o);
        hop := Plain(stored)[i];
      case PtrCast(source) => hop := Hop(source, 0, false);
      case ConstantGep(base, offset) =>
        x :| PtrDenotes(g, n - 1, base, x) && o == PtrOrigin(x.allocation, x.offset + offset);
        hop := PtrHops(g.ptrs(v))[0];
      case IntToPtr(operand) =>
        var m, y :| IntEvaluates(g, operand, m) && PtrDenotes(g, n - 1, m.ptrOperand, y)
          && o == PtrOrigin(y.allocation, y.offset + m.offset);
        hop, x := Hop(m.ptrOperand, m.offset, false), y;
      case PtrSlotLoad(pointerOperand, _) => hop := Hop(pointerOperand, 0, false);
      case PtrMerge(incoming) =>
        var i :| 0 <= i < |incoming| && PtrDenotes(g, n - 1, incoming[i], o);
        hop := Plain(incoming)[i];
    }
  }
}
