/** Worklist searches that trace integers and pointers back to the stack objects they were
    computed from, under one shared work budget. */
module PointerProvenance {
  import opened MachineInt
  import opened Reachability
  import opened DefUse

  const MAX_INVALID_BASE_WORK: nat := 200000

  // The budget

  class WorkBudget {
    var remaining: nat
    ghost var granted: nat   // work allowed so far
    ghost var failed: bool   // some request was refused

    constructor ()
      ensures Valid() && remaining == 200000 && granted == 0 && !failed
    {
      remaining, granted, failed := MAX_INVALID_BASE_WORK, 0, false;
    }

    /** However the budget is shared, no more than its initial value is ever granted, and a
        budget that is not exhausted has never refused anything. */
    ghost predicate Valid()
      reads this
    {
      granted + remaining <= MAX_INVALID_BASE_WORK && (failed ==> remaining == 0)
    }

    method Consume(amount: nat) returns (ok: bool)
      requires Valid()
      modifies this
      ensures Valid() && (ok <==> old(remaining) >= amount)
      ensures ok ==> remaining == old(remaining) - amount && granted == old(granted) + amount && failed == old(failed)
      ensures !ok ==> remaining == 0 && granted == old(granted) && failed
    {
      if remaining < amount {
        remaining, failed := 0, true;
        return false;
      }
      remaining, granted := remaining - amount, granted + amount;
      return true;
    }
  }

  // The declarative meaning: walks

  type EdgeRelation = (Value, Hop) -> bool

  function EndOf(start: Value, walk: seq<Hop>): Value {
    if walk == [] then start else walk[|walk| - 1].target
  }

  ghost predicate IsWalk(edge: EdgeRelation, start: Value, walk: seq<Hop>) {
    walk == [] ||
    (var n := |walk| - 1; IsWalk(edge, start, walk[..n]) && edge(EndOf(start, walk[..n]), walk[n]))
  }

  ghost function TotalDelta(walk: seq<Hop>): int {
    if walk == [] then 0 else TotalDelta(walk[..|walk| - 1]) + walk[|walk| - 1].delta
  }

  ghost predicate AnyOffset(walk: seq<Hop>) {
    exists i :: 0 <= i < |walk| && walk[i].sawOffset
  }

  ghost function IntEdges(g: Graph): EdgeRelation {
    (v: Value, hop: Hop) => hop in IntHops(g.ints(g.strip(v)))
  }

  /** A pointer reaches the integer along some walk whose constants add up to the offset. */
  ghost predicate IsIntMatch(g: Graph, start: Value, m: PtrIntMatch) {
    exists walk ::
      && IsWalk(IntEdges(g), start, walk)
      && g.ints(g.strip(EndOf(start, walk))) == PtrToInt(m.ptrOperand)
      && m.offset == Wrap64(TotalDelta(walk))
      && m.sawOffset == AnyOffset(walk)
  }

  ghost function PtrEdges(g: Graph): EdgeRelation {
    (v: Value, hop: Hop) => PtrEdge(g, v, hop)
  }

  /** The pointer is derived from the stack object along a walk whose constants add up. */
  ghost predicate IsOrigin(g: Graph, start: Value, o: PtrOrigin) {
    exists walk ::
      && IsWalk(PtrEdges(g), start, walk)
      && EndOf(start, walk) == o.allocation && IsObject(g, o.allocation)
      && o.offset == Wrap64(TotalDelta(walk))
  }

  // Walks follow the evaluation

  lemma AnyOffsetOneMore(walk: seq<Hop>, hop: Hop)
    ensures AnyOffset(walk + [hop]) == (AnyOffset(walk) || hop.sawOffset)
  {
    var longer := walk + [hop];
    assert longer[|walk|] == hop;
    assert forall i :: 0 <= i < |walk| ==> longer[i] == walk[i];
  }

  lemma AnyOffsetOneBefore(walk: seq<Hop>, hop: Hop)
    ensures AnyOffset([hop] + walk) == (AnyOffset(walk) || hop.sawOffset)
  {
    var longer := [hop] + walk;
    assert longer[0] == hop;
    if i :| 0 <= i < |walk| && walk[i].sawOffset {
      assert longer[i + 1].sawOffset;
    }
    if i :| 0 < i < |longer| && longer[i].sawOffset {
      assert walk[i - 1].sawOffset;
    }
  }

  lemma {:induction false} PrependHop(edge: EdgeRelation, v: Value, hop: Hop, walk: seq<Hop>)
    requires edge(v, hop) && IsWalk(edge, hop.target, walk)
    ensures IsWalk(edge, v, [hop] + walk) && EndOf(v, [hop] + walk) == EndOf(hop.target, walk)
    ensures TotalDelta([hop] + walk) == hop.delta + TotalDelta(walk)
    ensures AnyOffset([hop] + walk) == (hop.sawOffset || AnyOffset(walk))
    decreases |walk|
  {
    var longer := [hop] + walk;
    AnyOffsetOneBefore(walk, hop);
    if walk == [] {
      assert longer[..0] == [] && IsWalk(edge, v, longer[..0]);
    } else {
      var n := |walk| - 1;
      PrependHop(edge, v, hop, walk[..n]);
      assert longer[..n + 1] == [hop] + walk[..n];
    }
  }

  /** means is preserved backwards along hops, deltas added. */
  ghost predicate FollowsHops(edge: EdgeRelation, means: (Value, PtrIntMatch) -> bool) {
    forall v, hop, x :: edge(v, hop) && means(hop.target, x) ==> means(v, PlusHop(x, hop))
  }

  /** If the end of a walk evaluates to an address, its start does with the deltas added. */
  lemma {:induction false} WalkEvaluates(
    edge: EdgeRelation, means: (Value, PtrIntMatch) -> bool, start: Value, walk: seq<Hop>, x: PtrIntMatch)
    requires FollowsHops(edge, means) && IsWalk(edge, start, walk) && means(EndOf(start, walk), x)
    ensures means(start, PtrIntMatch(x.ptrOperand, x.offset + TotalDelta(walk), x.sawOffset || AnyOffset(walk)))
    decreases |walk|
  {
    if walk != [] {
      var k := |walk| - 1;
      WalkEvaluates(edge, means, start, walk[..k], PlusHop(x, walk[k]));
      assert walk == walk[..k] + [walk[k]];
      AnyOffsetOneMore(walk[..k], walk[k]);
    }
  }

  ghost function IntMeaning(g: Graph): (Value, PtrIntMatch) -> bool {
    (v: Value, x: PtrIntMatch) => IntCanDenote(g, v, x)
  }

  lemma IntMeaningFollowsHops(g: Graph)
    ensures FollowsHops(IntEdges(g), IntMeaning(g))
  {
    forall v, hop, x | IntEdges(g)(v, hop) && IntMeaning(g)(hop.target, x) ensures IntMeaning(g)(v, PlusHop(x, hop)) {
      var n: nat :| IntDenotes(g, n, hop.target, x);
      IntHopEvaluates(g, n, v, hop, x);
    }
  }

  lemma {:induction false} EvaluationIsWalk(g: Graph, n: nat, v: Value, m: PtrIntMatch) returns (walk: seq<Hop>)
    requires IntDenotes(g, n, v, m)
    ensures IsWalk(IntEdges(g), v, walk) && g.ints(g.strip(EndOf(v, walk))) == PtrToInt(m.ptrOperand)
    ensures TotalDelta(walk) == m.offset && AnyOffset(walk) == m.sawOffset
    decreases n
  {
    if g.ints(g.strip(v)).PtrToInt? {
      walk := [];
    } else {
      var hop, x := IntEvaluatesByHop(g, n, v, m);
      var rest := EvaluationIsWalk(g, n - 1, hop.target, x);
      PrependHop(IntEdges(g), v, hop, rest);
      walk := [hop] + rest;
    }
  }

  lemma ConversionDenotes(g: Graph, v: Value, ptrOperand: Value)
    requires g.ints(g.strip(v)) == PtrToInt(ptrOperand)
    ensures IntMeaning(g)(v, PtrIntMatch(ptrOperand, 0, false))
  {
    assert IntDenotes(g, 0, v, PtrIntMatch(ptrOperand, 0, false));
  }

  lemma WalkToPointerDenotes(g: Graph, start: Value, walk: seq<Hop>, ptrOperand: Value)
    requires IsWalk(IntEdges(g), start, walk) && g.ints(g.strip(EndOf(start, walk))) == PtrToInt(ptrOperand)
    ensures IntCanDenote(g, start, PtrIntMatch(ptrOperand, TotalDelta(walk), AnyOffset(walk)))
  {
    IntMeaningFollowsHops(g);
    ConversionDenotes(g, EndOf(start, walk), ptrOperand);
    WalkEvaluates(IntEdges(g), IntMeaning(g), start, walk, PtrIntMatch(ptrOperand, 0, false));
    assert IntMeaning(g)(start, PtrIntMatch(ptrOperand, 0 + TotalDelta(walk), false || AnyOffset(walk)));
  }

  lemma MatchEvaluates(g: Graph, start: Value, m: PtrIntMatch)
    requires IsIntMatch(g, start, m)
    ensures IntEvaluates(g, start, m)
  {
    var walk :| IsWalk(IntEdges(g), start, walk) && g.ints(g.strip(EndOf(start, walk))) == PtrToInt(m.ptrOperand)
      && m.offset == Wrap64(TotalDelta(walk)) && m.sawOffset == AnyOffset(walk);
    WalkToPointerDenotes(g, start, walk, m.ptrOperand);
    var x := PtrIntMatch(m.ptrOperand, TotalDelta(walk), AnyOffset(walk));
    assert m == x.(offset := Wrap64(x.offset));
  }

  lemma EvaluationMatches(g: Graph, start: Value, m: PtrIntMatch)
    requires IntEvaluates(g, start, m)
    ensures IsIntMatch(g, start, m)
  {
    var x :| IntCanDenote(g, start, x) && m == x.(offset := Wrap64(x.offset));
    var n: nat :| IntDenotes(g, n, start, x);
    var walk := EvaluationIsWalk(g, n, start, x);
  }

  /** A walk to a pointer is an evaluation to its address, constants included. */
  lemma IntMatchMeans(g: Graph, start: Value, m: PtrIntMatch)
    ensures IsIntMatch(g, start, m) <==> IntEvaluates(g, start, m)
  {
    if IsIntMatch(g, start, m) {
      MatchEvaluates(g, start, m);
    }
    if IntEvaluates(g, start, m) {
      EvaluationMatches(g, start, m);
    }
  }

  lemma {:induction false} PtrWalkEvaluates(g: Graph, start: Value, walk: seq<Hop>, n: nat, x: PtrOrigin)
    requires IsWalk(PtrEdges(g), start, walk) && PtrDenotes(g, n, EndOf(start, walk), x)
    ensures PtrDenotes(g, n + |walk|, start, PtrOrigin(x.allocation, x.offset + TotalDelta(walk)))
    decreases |walk|
  {
    if walk != [] {
      var k := |walk| - 1;
      PtrHopEvaluates(g, n, EndOf(start, walk[..k]), walk[k], x);
      PtrWalkEvaluates(g, start, walk[..k], n + 1, PtrOrigin(x.allocation, x.offset + walk[k].delta));
    }
  }

  lemma {:induction false} PtrEvaluationIsWalk(g: Graph, n: nat, v: Value, o: PtrOrigin) returns (walk: seq<Hop>)
    requires PtrDenotes(g, n, v, o)
    ensures IsWalk(PtrEdges(g), v, walk) && EndOf(v, walk) == o.allocation && IsObject(g, o.allocation)
    ensures TotalDelta(walk) == o.offset
    decreases n
  {
    if IsObject(g, v) {
      walk := [];
    } else {
      var hop, x := PtrEvaluatesByHop(g, n, v, o);
      var rest := PtrEvaluationIsWalk(g, n - 1, hop.target, x);
      PrependHop(PtrEdges(g), v, hop, rest);
      walk := [hop] + rest;
    }
  }

  /** A walk to a stack object is an evaluation to its address, constants included. */
  lemma OriginMeans(g: Graph, start: Value, o: PtrOrigin)
    ensures IsOrigin(g, start, o) <==> PtrEvaluates(g, start, o)
  {
    if IsOrigin(g, start, o) {
      var walk :| IsWalk(PtrEdges(g), start, walk) && EndOf(start, walk) == o.allocation && IsObject(g, o.allocation)
        && o.offset == Wrap64(TotalDelta(walk));
      assert PtrDenotes(g, 0, o.allocation, PtrOrigin(o.allocation, 0));
      PtrWalkEvaluates(g, start, walk, 0, PtrOrigin(o.allocation, 0));
    }
    if PtrEvaluates(g, start, o) {
      var n: nat, x :| PtrDenotes(g, n, start, x) && o == x.(offset := Wrap64(x.offset));
      var walk := PtrEvaluationIsWalk(g, n, start, x);
    }
  }

  // Search states

  datatype State = State(val: Value, offset: int, sawOffset: bool)

  function Start(v: Value): State {
    State(v, 0, false)
  }

  function Advance(s: State, hop: Hop): State {
    State(hop.target, Wrap64(s.offset + hop.delta), s.sawOffset || hop.sawOffset)
  }

  ghost function StartOnly(v: Value): State -> bool {
    s => s == Start(v)
  }

  ghost predicate Advances(edge: EdgeRelation, s: State, t: State) {
    exists hop :: edge(s.val, hop) && t == Advance(s, hop)
  }

  ghost function StateSteps(edge: EdgeRelation): (State, State) -> bool {
    (s, t) => Advances(edge, s, t)
  }

  ghost predicate Explored(edge: EdgeRelation, start: Value, s: State) {
    Reachable(StartOnly(start), StateSteps(edge), s)
  }

  ghost function StateAfter(start: Value, walk: seq<Hop>): State {
    State(EndOf(start, walk), Wrap64(TotalDelta(walk)), AnyOffset(walk))
  }

  lemma AfterOneMore(start: Value, walk: seq<Hop>, hop: Hop)
    ensures StateAfter(start, walk + [hop]) == Advance(StateAfter(start, walk), hop)
  {
    var w := walk + [hop];
    assert w[..|w| - 1] == walk;
    WrapAbsorbs(TotalDelta(walk), hop.delta);
    AnyOffsetOneMore(walk, hop);
  }

  lemma {:induction false} WalkIsExplored(edge: EdgeRelation, start: Value, walk: seq<Hop>)
    requires IsWalk(edge, start, walk)
    ensures Explored(edge, start, StateAfter(start, walk))
    decreases |walk|
  {
    if walk == [] {
      InitReachable(StartOnly(start), StateSteps(edge), Start(start));
    } else {
      var n := |walk| - 1;
      WalkIsExplored(edge, start, walk[..n]);
      assert walk == walk[..n] + [walk[n]];
      AfterOneMore(start, walk[..n], walk[n]);
      assert StateSteps(edge)(StateAfter(start, walk[..n]), StateAfter(start, walk));
      StepReachable(StartOnly(start), StateSteps(edge), StateAfter(start, walk[..n]), StateAfter(start, walk));
    }
  }

  lemma {:induction false} ExploredIsWalk(edge: EdgeRelation, start: Value, n: nat, s: State)
    requires ReachIn(StartOnly(start), StateSteps(edge), n, s)
    ensures exists walk :: IsWalk(edge, start, walk) && s == StateAfter(start, walk)
    decreases n
  {
    if s == Start(start) {
      assert IsWalk(edge, start, []) && s == StateAfter(start, []);
    } else {
      var w :| ReachIn(StartOnly(start), StateSteps(edge), n - 1, w) && StateSteps(edge)(w, s);
      ExploredIsWalk(edge, start, n - 1, w);
      var walk :| IsWalk(edge, start, walk) && w == StateAfter(start, walk);
      var hop :| edge(w.val, hop) && s == Advance(w, hop);
      AfterOneMore(start, walk, hop);
      var longer := walk + [hop];
      assert longer[..|longer| - 1] == walk;
      assert IsWalk(edge, start, longer);
    }
  }

  // The worklist

  /** visited only holds explored states; those no longer pending have been expanded. */
  ghost predicate SearchInvariant(edge: EdgeRelation, start: Value, worklist: seq<State>, visited: set<State>) {
    && Start(start) in visited
    && (forall s :: s in visited ==> Explored(edge, start, s))
    && (forall s :: s in worklist ==> s in visited)
    && (forall s, t :: s in visited && s !in worklist && StateSteps(edge)(s, t) ==> t in visited)
  }

  lemma SearchStart(edge: EdgeRelation, start: Value)
    ensures SearchInvariant(edge, start, [Start(start)], {Start(start)})
  {
    InitReachable(StartOnly(start), StateSteps(edge), Start(start));
  }

  /** Popping s and recording all its successors preserves the invariant. */
  lemma SearchStep(edge: EdgeRelation, start: Value, worklist: seq<State>, visited: set<State>, s: State,
                   worklist': seq<State>, visited': set<State>)
    requires worklist != [] && s == worklist[|worklist| - 1]
    requires SearchInvariant(edge, start, worklist, visited)
    requires visited <= visited'
    requires forall t :: t in visited' ==> t in visited || StateSteps(edge)(s, t)
    requires forall t :: StateSteps(edge)(s, t) ==> t in visited'
    requires forall t :: t in worklist' <==> t in worklist[..|worklist| - 1] || (t in visited' && t !in visited)
    ensures SearchInvariant(edge, start, worklist', visited')
  {
    forall t | t in visited' ensures Explored(edge, start, t) {
      if t !in visited {
        StepReachable(StartOnly(start), StateSteps(edge), s, t);
      }
    }
    forall w, t | w in visited' && w !in worklist' && StateSteps(edge)(w, t) ensures t in visited' {
      if w != s {
        assert w in visited && w !in worklist;
      }
    }
  }

  lemma SearchEnd(edge: EdgeRelation, start: Value, visited: set<State>)
    requires SearchInvariant(edge, start, [], visited)
    ensures forall s :: Explored(edge, start, s) <==> s in visited
  {
    ClosedContainsReachable(StartOnly(start), StateSteps(edge), s => s in visited);
  }

  /** recordVisited followed by push_back, for each hop in turn. */
  method PushNew(s: State, hops: seq<Hop>, worklist: seq<State>, visited: set<State>)
    returns (worklist': seq<State>, visited': set<State>)
    ensures visited <= visited'
    ensures forall t :: t in visited' <==> t in visited || exists i :: 0 <= i < |hops| && t == Advance(s, hops[i])
    ensures forall t :: t in worklist' <==> t in worklist || (t in visited' && t !in visited)
  {
    worklist', visited' := worklist, visited;
    for i := 0 to |hops|
      invariant visited <= visited'
      invariant forall t :: t in visited' <==> t in visited || exists k :: 0 <= k < i && t == Advance(s, hops[k])
      invariant forall t :: t in worklist' <==> t in worklist || (t in visited' && t !in visited)
    {
      var t := Advance(s, hops[i]);
      if t !in visited' {
        visited' := visited' + {t};
        worklist' := worklist' + [t];
      }
    }
  }

  // The two collectors

  ghost predicate EmitsMatch(g: Graph, s: State, m: PtrIntMatch) {
    g.ints(g.strip(s.val)) == PtrToInt(m.ptrOperand) && m.offset == s.offset && m.sawOffset == s.sawOffset
  }

  lemma MatchIsExplored(g: Graph, start: Value, m: PtrIntMatch)
    ensures IsIntMatch(g, start, m) <==> exists s :: Explored(IntEdges(g), start, s) && EmitsMatch(g, s, m)
  {
    var edge := IntEdges(g);
    if IsIntMatch(g, start, m) {
      var walk :| IsWalk(edge, start, walk) && g.ints(g.strip(EndOf(start, walk))) == PtrToInt(m.ptrOperand)
        && m.offset == Wrap64(TotalDelta(walk)) && m.sawOffset == AnyOffset(walk);
      WalkIsExplored(edge, start, walk);
      assert EmitsMatch(g, StateAfter(start, walk), m);
    }
    if s :| Explored(edge, start, s) && EmitsMatch(g, s, m) {
      var n: nat :| ReachIn(StartOnly(start), StateSteps(edge), n, s);
      ExploredIsWalk(edge, start, n, s);
      var walk :| IsWalk(edge, start, walk) && s == StateAfter(start, walk);
    }
  }

  ghost predicate MatchSearch(g: Graph, start: Value, worklist: seq<State>, visited: set<State>,
                              out: seq<PtrIntMatch>) {
    && SearchInvariant(IntEdges(g), start, worklist, visited)
    && (forall m :: m in out ==> exists s :: Explored(IntEdges(g), start, s) && EmitsMatch(g, s, m))
    && (forall s, m :: s in visited && s !in worklist && EmitsMatch(g, s, m) ==> m in out)
  }

  lemma MatchStep(g: Graph, start: Value, before: seq<State>, seen: set<State>, found: seq<PtrIntMatch>,
                  s: State, worklist: seq<State>, visited: set<State>, out: seq<PtrIntMatch>)
    requires before != [] && s == before[|before| - 1]
    requires MatchSearch(g, start, before, seen, found)
    requires var hops := IntHops(g.ints(g.strip(s.val)));
      && seen <= visited
      && (forall t :: t in visited <==> t in seen || exists i :: 0 <= i < |hops| && t == Advance(s, hops[i]))
    requires forall t :: t in worklist <==> t in before[..|before| - 1] || (t in visited && t !in seen)
    requires var node := g.ints(g.strip(s.val));
      out == if node.PtrToInt? then found + [PtrIntMatch(node.operand, s.offset, s.sawOffset)] else found
    ensures MatchSearch(g, start, worklist, visited, out)
  {
    IntSuccessors(g, s);
    SearchStep(IntEdges(g), start, before, seen, s, worklist, visited);
    forall m | m in out && m !in found ensures EmitsMatch(g, s, m) {}
    forall w, m | w in visited && w !in worklist && EmitsMatch(g, w, m) ensures m in out {
      if w == s {
        assert m == PtrIntMatch(m.ptrOperand, s.offset, s.sawOffset);
      } else {
        assert w in seen && w !in before;
      }
    }
  }

  lemma MatchesSound(g: Graph, start: Value, worklist: seq<State>, visited: set<State>, out: seq<PtrIntMatch>)
    requires MatchSearch(g, start, worklist, visited, out)
    ensures forall m :: m in out ==> IntEvaluates(g, start, m)
    ensures worklist == [] ==> forall m :: IntEvaluates(g, start, m) ==> m in out
  {
    forall m ensures IntEvaluates(g, start, m) <==> exists s :: Explored(IntEdges(g), start, s) && EmitsMatch(g, s, m) {
      MatchIsExplored(g, start, m);
      IntMatchMeans(g, start, m);
    }
    if worklist == [] {
      SearchEnd(IntEdges(g), start, visited);
    }
  }

  /** collectPtrToIntMatches: every match has a walk behind it, and unless the budget refused
      work every walk yields its match. Each iteration is paid for, so cyclic graphs with
      unboundedly many offsets terminate. */
  method CollectPtrToIntMatches(g: Graph, start: Value, budget: WorkBudget)
    returns (out: seq<PtrIntMatch>, ghost pops: nat)
    requires budget.Valid()
    modifies budget
    ensures budget.Valid() && budget.remaining <= old(budget.remaining)
    ensures budget.granted == old(budget.granted) + pops
    ensures old(budget.failed) ==> budget.failed
    ensures forall m :: m in out ==> IntEvaluates(g, start, m)
    ensures !budget.failed ==> forall m :: IntEvaluates(g, start, m) ==> m in out
  {
    out, pops := [], 0;
    var worklist := [Start(start)];
    var visited := {Start(start)};
    SearchStart(IntEdges(g), start);
    while worklist != []
      invariant budget.Valid() && budget.remaining <= old(budget.remaining)
      invariant budget.granted == old(budget.granted) + pops
      invariant old(budget.failed) ==> budget.failed
      invariant MatchSearch(g, start, worklist, visited, out)
      decreases budget.remaining, |worklist|
    {
      var ok := budget.Consume(1);
      if !ok {
        MatchesSound(g, start, worklist, visited, out);
        return;
      }
      pops := pops + 1;
      var s := worklist[|worklist| - 1];
      var node := g.ints(g.strip(s.val));
      ghost var before, seen, found := worklist, visited, out;
      worklist, visited := PushNew(s, IntHops(node), worklist[..|worklist| - 1], visited);
      if node.PtrToInt? {
        out := out + [PtrIntMatch(node.operand, s.offset, s.sawOffset)];
      }
      MatchStep(g, start, before, seen, found, s, worklist, visited, out);
    }
    MatchesSound(g, start, worklist, visited, out);
  }

  lemma IntSuccessors(g: Graph, s: State)
    ensures forall t :: StateSteps(IntEdges(g))(s, t) <==>
              var hops := IntHops(g.ints(g.strip(s.val))); exists i :: 0 <= i < |hops| && t == Advance(s, hops[i])
  {
    var hops := IntHops(g.ints(g.strip(s.val)));
    forall t ensures StateSteps(IntEdges(g))(s, t) <==> exists i :: 0 <= i < |hops| && t == Advance(s, hops[i]) {
      if i :| 0 <= i < |hops| && t == Advance(s, hops[i]) {
        assert IntEdges(g)(s.val, hops[i]);
      }
    }
  }

  ghost predicate EmitsOrigin(g: Graph, s: State, o: PtrOrigin) {
    s.val == o.allocation && IsObject(g, s.val) && o.offset == s.offset
  }

  lemma OriginIsExplored(g: Graph, start: Value, o: PtrOrigin)
    ensures IsOrigin(g, start, o) <==> exists s :: Explored(PtrEdges(g), start, s) && EmitsOrigin(g, s, o)
  {
    var edge := PtrEdges(g);
    if IsOrigin(g, start, o) {
      var walk :| IsWalk(edge, start, walk) && EndOf(start, walk) == o.allocation && IsObject(g, o.allocation)
        && o.offset == Wrap64(TotalDelta(walk));
      WalkIsExplored(edge, start, walk);
      assert EmitsOrigin(g, StateAfter(start, walk), o);
    }
    if s :| Explored(edge, start, s) && EmitsOrigin(g, s, o) {
      var n: nat :| ReachIn(StartOnly(start), StateSteps(edge), n, s);
      ExploredIsWalk(edge, start, n, s);
      var walk :| IsWalk(edge, start, walk) && s == StateAfter(start, walk);
    }
  }

  /** The hops out of a pointer, running the integer search when it was made from an integer. */
  method HopsFrom(g: Graph, v: Value, budget: WorkBudget) returns (hops: seq<Hop>, ghost pops: nat)
    requires budget.Valid()
    modifies budget
    ensures budget.Valid() && budget.remaining <= old(budget.remaining)
    ensures budget.granted == old(budget.granted) + pops
    ensures old(budget.failed) ==> budget.failed
    ensures forall hop :: hop in hops ==> PtrEdge(g, v, hop)
    ensures !budget.failed ==> forall hop :: PtrEdge(g, v, hop) ==> hop in hops
  {
    hops, pops := PtrHops(g.ptrs(v)), 0;
    match g.ptrs(v) {
      case IntToPtr(operand) =>
        var matches, nested := CollectPtrToIntMatches(g, operand, budget);
        pops := nested;
        for i := 0 to |matches|
          invariant forall hop :: hop in hops <==>
                    exists k :: 0 <= k < i && hop == Hop(matches[k].ptrOperand, matches[k].offset, false)
        {
          hops := hops + [Hop(matches[i].ptrOperand, matches[i].offset, false)];
        }
        forall hop | hop in hops ensures PtrEdge(g, v, hop) {
          var k :| 0 <= k < |matches| && hop == Hop(matches[k].ptrOperand, matches[k].offset, false);
          assert IntEvaluates(g, operand, matches[k]);
        }
      case _ =>
    }
  }

  /** collectPointerOrigins, nesting the integer search under the same budget. */
  method CollectPointerOrigins(g: Graph, start: Value, budget: WorkBudget)
    returns (out: seq<PtrOrigin>, ghost pops: nat)
    requires budget.Valid()
    modifies budget
    ensures budget.Valid() && budget.remaining <= old(budget.remaining)
    ensures budget.granted == old(budget.granted) + pops
    ensures old(budget.failed) ==> budget.failed
    ensures forall o :: o in out ==> PtrEvaluates(g, start, o)
    ensures !budget.failed ==> forall o :: PtrEvaluates(g, start, o) ==> o in out
  {
    out, pops := [], 0;
    var worklist := [Start(start)];
    var visited := {Start(start)};
    SearchStart(PtrEdges(g), start);
    while worklist != []
      invariant budget.Valid() && budget.remaining <= old(budget.remaining)
      invariant budget.granted == old(budget.granted) + pops
      invariant old(budget.failed) ==> budget.failed
      invariant OriginSearch(g, start, worklist, visited, out, budget.failed)
      decreases budget.remaining, |worklist|
    {
      ghost var before, seen, found, refused := worklist, visited, out, budget.failed;
      var ok := budget.Consume(1);
      if !ok {
        OriginsSound(g, start, worklist, visited, out, refused);
        return;
      }
      var s := worklist[|worklist| - 1];
      var hops, nested := HopsFrom(g, s.val, budget);
      pops := pops + 1 + nested;
      worklist, visited := PushNew(s, hops, worklist[..|worklist| - 1], visited);
      if IsObject(g, s.val) {
        out := out + [PtrOrigin(s.val, s.offset)];
      }
      OriginStep(g, start, before, seen, found, refused, s, hops, worklist, visited, out, budget.failed);
    }
    OriginsSound(g, start, worklist, visited, out, budget.failed);
  }

  /** Once a nested search was cut short only soundness is kept. */
  ghost predicate OriginSearch(g: Graph, start: Value, worklist: seq<State>, visited: set<State>, out: seq<PtrOrigin>,
                               failed: bool) {
    && (forall s :: s in visited ==> Explored(PtrEdges(g), start, s))
    && (forall s :: s in worklist ==> s in visited)
    && (forall o :: o in out ==> exists s :: Explored(PtrEdges(g), start, s) && EmitsOrigin(g, s, o))
    && (!failed ==>
          && SearchInvariant(PtrEdges(g), start, worklist, visited)
          && forall s, o :: s in visited && s !in worklist && EmitsOrigin(g, s, o) ==> o in out)
  }

  lemma OriginsSound(g: Graph, start: Value, worklist: seq<State>, visited: set<State>, out: seq<PtrOrigin>,
                     failed: bool)
    requires OriginSearch(g, start, worklist, visited, out, failed)
    ensures forall o :: o in out ==> PtrEvaluates(g, start, o)
    ensures worklist == [] && !failed ==> forall o :: PtrEvaluates(g, start, o) ==> o in out
  {
    forall o
      ensures PtrEvaluates(g, start, o) <==> exists s :: Explored(PtrEdges(g), start, s) && EmitsOrigin(g, s, o)
    {
      OriginIsExplored(g, start, o);
      OriginMeans(g, start, o);
    }
    if worklist == [] && !failed {
      SearchEnd(PtrEdges(g), start, visited);
    }
  }

  lemma OriginStep(g: Graph, start: Value, before: seq<State>, seen: set<State>, found: seq<PtrOrigin>, refused: bool,
                   s: State, hops: seq<Hop>, worklist: seq<State>, visited: set<State>,
                   out: seq<PtrOrigin>, failed: bool)
    requires before != [] && s == before[|before| - 1]
    requires OriginSearch(g, start, before, seen, found, refused) && (refused ==> failed)
    requires forall hop :: hop in hops ==> PtrEdge(g, s.val, hop)
    requires !failed ==> forall hop :: PtrEdge(g, s.val, hop) ==> hop in hops
    requires seen <= visited
    requires forall t :: t in visited <==> t in seen || exists i :: 0 <= i < |hops| && t == Advance(s, hops[i])
    requires forall t :: t in worklist <==> t in before[..|before| - 1] || (t in visited && t !in seen)
    requires out == if IsObject(g, s.val) then found + [PtrOrigin(s.val, s.offset)] else found
    ensures OriginSearch(g, start, worklist, visited, out, failed)
  {
    var edge := PtrEdges(g);
    forall t | t in visited && t !in seen ensures StateSteps(edge)(s, t) {
      var i :| 0 <= i < |hops| && t == Advance(s, hops[i]);
      assert edge(s.val, hops[i]);
    }
    forall t | t in visited ensures Explored(edge, start, t) {
      if t !in seen {
        assert s in before && s in seen && Explored(edge, start, s);
        assert StateSteps(edge)(s, t);
        StepReachable(StartOnly(start), StateSteps(edge), s, t);
      }
    }
    assert forall o :: o in out && o !in found ==> EmitsOrigin(g, s, o);
    if !failed {
      forall t | StateSteps(edge)(s, t) ensures t in visited {
        var hop :| edge(s.val, hop) && t == Advance(s, hop);
        assert hop in hops;
      }
      SearchStep(edge, start, before, seen, s, worklist, visited);
      forall w, o | w in visited && w !in worklist && EmitsOrigin(g, w, o) ensures o in out {
        if w == s {
          assert o == PtrOrigin(s.val, s.offset);
        } else {
          assert w in seen && w !in before;
        }
      }
    }
  }
}
