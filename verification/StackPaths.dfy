/** Whole-program stack totals and the call path printed to explain them. */
module StackPaths {
  import opened Options
  import opened Sequences

  type Fn = nat
  type CallGraph = map<Fn, seq<Fn>>

  datatype StackEstimate = StackEstimate(bytes: nat, isUnknown: bool)

  type Locals = map<Fn, StackEstimate>
  type Totals = map<Fn, StackEstimate>

  function Callees(cg: CallGraph, f: Fn): seq<Fn> {
    if f in cg then cg[f] else []
  }

  function EstimateOf(table: map<Fn, StackEstimate>, f: Fn): StackEstimate {
    if f in table then table[f] else StackEstimate(0, false)
  }

  // The declarative meaning: call chains and what they cost

  ghost predicate IsChain(cg: CallGraph, chain: seq<Fn>) {
    && chain != []
    && forall i :: 0 < i < |chain| ==> chain[i] in Callees(cg, chain[i - 1])
  }

  ghost predicate ChainFrom(cg: CallGraph, f: Fn, chain: seq<Fn>) {
    IsChain(cg, chain) && chain[0] == f
  }

  ghost function Cost(locals: Locals, chain: seq<Fn>): nat {
    if chain == [] then 0
    else (if chain[0] in locals then locals[chain[0]].bytes else 0) + Cost(locals, chain[1..])
  }

  ghost predicate EndsUnknown(locals: Locals, chain: seq<Fn>) {
    chain != [] && var last := chain[|chain| - 1]; last in locals && locals[last].isUnknown
  }

  /** The estimate is what some real call chain costs; a doubt has a chain behind it too. */
  ghost predicate Witnessed(cg: CallGraph, locals: Locals, f: Fn, est: StackEstimate) {
    && (exists chain :: ChainFrom(cg, f, chain) && Cost(locals, chain) == est.bytes)
    && (est.isUnknown ==> exists chain :: ChainFrom(cg, f, chain) && EndsUnknown(locals, chain))
  }

  /** No call chain costs more, and no doubt is missed. */
  ghost predicate Maximal(cg: CallGraph, locals: Locals, f: Fn, est: StackEstimate) {
    forall chain :: ChainFrom(cg, f, chain) ==>
      Cost(locals, chain) <= est.bytes && (EndsUnknown(locals, chain) ==> est.isUnknown)
  }

  /** No call chain returns to where it started. */
  ghost predicate Acyclic(cg: CallGraph) {
    forall chain :: IsChain(cg, chain) && |chain| > 1 ==> chain[0] != chain[|chain| - 1]
  }

  /** Every call goes down in rank. */
  ghost predicate Ranked(cg: CallGraph, rank: Fn -> nat) {
    forall f: Fn, g: Fn :: g in Callees(cg, f) ==> rank(g) < rank(f)
  }

  lemma ExtendedCost(locals: Locals, f: Fn, chain: seq<Fn>)
    requires chain != []
    ensures Cost(locals, [f] + chain) == EstimateOf(locals, f).bytes + Cost(locals, chain)
    ensures EndsUnknown(locals, [f] + chain) <==> EndsUnknown(locals, chain)
  {
    var longer := [f] + chain;
    assert longer[1..] == chain;
  }

  lemma Extend(cg: CallGraph, locals: Locals, f: Fn, chain: seq<Fn>)
    requires IsChain(cg, chain) && chain[0] in Callees(cg, f)
    ensures ChainFrom(cg, f, [f] + chain)
    ensures Cost(locals, [f] + chain) == EstimateOf(locals, f).bytes + Cost(locals, chain)
    ensures EndsUnknown(locals, [f] + chain) <==> EndsUnknown(locals, chain)
  {
    ExtendedCost(locals, f, chain);
    var longer := [f] + chain;
    forall i | 0 < i < |longer| ensures longer[i] in Callees(cg, longer[i - 1]) {
      if i > 1 {
        assert longer[i] == chain[i - 1] && longer[i - 1] == chain[i - 2];
      }
    }
  }

  lemma Shorten(cg: CallGraph, locals: Locals, f: Fn, chain: seq<Fn>)
    requires ChainFrom(cg, f, chain) && |chain| > 1
    ensures ChainFrom(cg, chain[1], chain[1..]) && chain[1] in Callees(cg, f)
    ensures Cost(locals, chain) == EstimateOf(locals, f).bytes + Cost(locals, chain[1..])
    ensures EndsUnknown(locals, chain) <==> EndsUnknown(locals, chain[1..])
  {
    var tail := chain[1..];
    forall i | 0 < i < |tail| ensures tail[i] in Callees(cg, tail[i - 1]) {
      assert tail[i] == chain[i + 1] && tail[i - 1] == chain[i];
    }
  }

  lemma Alone(cg: CallGraph, locals: Locals, f: Fn)
    ensures ChainFrom(cg, f, [f]) && Cost(locals, [f]) == EstimateOf(locals, f).bytes
    ensures EndsUnknown(locals, [f]) <==> EstimateOf(locals, f).isUnknown
  {
    assert [f][1..] == [];
  }

  // Acyclic graphs have a rank: how many functions can be reached

  ghost predicate Reaches(cg: CallGraph, f: Fn, g: Fn) {
    exists chain :: ChainFrom(cg, f, chain) && |chain| > 1 && chain[|chain| - 1] == g
  }

  ghost function Called(cg: CallGraph): set<Fn> {
    set f, g | f in cg && g in cg[f] :: g
  }

  ghost function Below(cg: CallGraph, f: Fn): set<Fn> {
    set g | g in Called(cg) && Reaches(cg, f, g)
  }

  ghost function RankOf(cg: CallGraph): Fn -> nat {
    (f: Fn) => |Below(cg, f)|
  }

  lemma AcyclicIsRanked(cg: CallGraph)
    ensures Acyclic(cg) <==> Ranked(cg, RankOf(cg))
  {
    if Acyclic(cg) {
      forall f: Fn, g: Fn | g in Callees(cg, f) ensures RankOf(cg)(g) < RankOf(cg)(f) {
        CalleeIsBelowCaller(cg, f, g);
      }
    }
    if Ranked(cg, RankOf(cg)) {
      forall chain | IsChain(cg, chain) && |chain| > 1 ensures chain[0] != chain[|chain| - 1] {
        ChainFalls(cg, RankOf(cg), chain);
      }
    }
  }

  lemma CalleeIsBelowCaller(cg: CallGraph, f: Fn, g: Fn)
    requires Acyclic(cg) && g in Callees(cg, f)
    ensures |Below(cg, g)| < |Below(cg, f)|
  {
    assert ChainFrom(cg, f, [f, g]);
    assert g in Below(cg, f);
    forall h | h in Below(cg, g) ensures h in Below(cg, f) {
      var chain :| ChainFrom(cg, g, chain) && |chain| > 1 && chain[|chain| - 1] == h;
      Extend(cg, map[], f, chain);
      assert ([f] + chain)[|chain|] == h;
    }
    assert g !in Below(cg, g);
    SmallerSet(Below(cg, g), Below(cg, f), g);
  }

  lemma SmallerSet(a: set<Fn>, b: set<Fn>, x: Fn)
    requires a <= b && x in b && x !in a
    ensures |a| < |b|
  {
    assert |b| == |a| + |b - a| by {
      assert b == a + (b - a);
    }
    assert x in b - a;
  }

  lemma {:induction false} ChainFalls(cg: CallGraph, rank: Fn -> nat, chain: seq<Fn>)
    requires Ranked(cg, rank) && IsChain(cg, chain)
    ensures rank(chain[|chain| - 1]) <= rank(chain[0])
    ensures |chain| > 1 ==> rank(chain[|chain| - 1]) < rank(chain[0])
    decreases |chain|
  {
    if |chain| > 1 {
      Shorten(cg, map[], chain[0], chain);
      ChainFalls(cg, rank, chain[1..]);
    }
  }

  // computeGlobalStackUsage

  datatype VisitState = Visiting | Visited

  type States = map<Fn, VisitState>

  ghost predicate Consistent(cg: CallGraph, locals: Locals, rank: Fn -> nat, state: States, totals: Totals) {
    && (forall f :: f in totals <==> f in state && state[f] == Visited)
    && (forall f :: f in totals ==> Witnessed(cg, locals, f, totals[f]))
    && (Ranked(cg, rank) ==> TotalsAreMaxima(cg, locals, totals))
  }

  /** On an acyclic graph nothing still being visited can be met again. */
  ghost predicate OpenAbove(cg: CallGraph, rank: Fn -> nat, state: States, f: Fn) {
    Ranked(cg, rank) ==> forall v :: v in state && state[v] == Visiting ==> rank(v) > rank(f)
  }

  /** Visits are only added, and all of them finished. */
  ghost predicate Progress(before: States, after: States) {
    && (forall v :: v in before ==> v in after && after[v] == before[v])
    && (forall v :: v in after && after[v] == Visiting ==> v in before)
  }

  ghost predicate ClosedUnderCalls(cg: CallGraph, nodes: set<Fn>) {
    forall v: Fn, g: Fn :: v in nodes && g in Callees(cg, v) ==> g in nodes
  }

  class StackComputation {
    var state: States
    var totals: Totals

    constructor ()
      ensures state == map[] && totals == map[]
    {
      state, totals := map[], map[];
    }

    ghost predicate Valid(cg: CallGraph, locals: Locals, rank: Fn -> nat)
      reads this
    {
      Consistent(cg, locals, rank, state, totals)
    }

    /** dfsComputeStack. Cycles are cut by using the frame of the function being visited; even
        then the result is the cost of a real chain. */
    method ComputeStack(f: Fn, cg: CallGraph, locals: Locals, ghost nodes: set<Fn>, ghost rank: Fn -> nat)
      returns (total: StackEstimate)
      requires f in nodes && ClosedUnderCalls(cg, nodes)
      requires Valid(cg, locals, rank) && OpenAbove(cg, rank, state, f)
      modifies this
      ensures Valid(cg, locals, rank) && Progress(old(state), state) && f in state
      ensures Witnessed(cg, locals, f, total)
      ensures Ranked(cg, rank) ==> Maximal(cg, locals, f, total) && f in totals
      decreases nodes - state.Keys, 1
    {
      if f in state {
        if state[f] == Visiting {
          Alone(cg, locals, f);
          return EstimateOf(locals, f);
        }
        return totals[f];
      }
      ghost var before := state;
      state := state[f := Visiting];
      assert nodes - state.Keys < nodes - old(state).Keys by {
        assert f in nodes - old(state).Keys && f !in nodes - state.Keys;
        assert nodes - state.Keys <= nodes - old(state).Keys;
      }
      var local := EstimateOf(locals, f);
      var maxCallee := VisitCallees(f, cg, locals, nodes, rank);
      total := StackEstimate(local.bytes + maxCallee.bytes, local.isUnknown || maxCallee.isUnknown);
      FinishVisit(cg, locals, rank, before, state, totals, f, maxCallee, total);
      totals := totals[f := total];
      state := state[f := Visited];
    }

    /** The loop over the callees, with the running maximum. */
    method VisitCallees(f: Fn, cg: CallGraph, locals: Locals, ghost nodes: set<Fn>, ghost rank: Fn -> nat)
      returns (maxCallee: StackEstimate)
      requires f in nodes && ClosedUnderCalls(cg, nodes)
      requires Valid(cg, locals, rank) && f in state
      requires OpenFrom(cg, rank, state, f)
      modifies this
      ensures Valid(cg, locals, rank) && Progress(old(state), state)
      ensures Seen(cg, locals, rank, totals, Callees(cg, f), maxCallee)
      decreases nodes - state.Keys, 2
    {
      maxCallee := StackEstimate(0, false);
      var callees := Callees(cg, f);
      for i := 0 to |callees|
        invariant Valid(cg, locals, rank) && Progress(old(state), state)
        invariant Seen(cg, locals, rank, totals, callees[..i], maxCallee)
      {
        ghost var open, earlier, previous := state, totals, maxCallee;
        CalleeIsBelow(cg, rank, old(state), open, f, i);
        var calleeStack := ComputeStack(callees[i], cg, locals, nodes, rank);
        if calleeStack.bytes > maxCallee.bytes {
          maxCallee := maxCallee.(bytes := calleeStack.bytes);
        }
        if calleeStack.isUnknown {
          maxCallee := maxCallee.(isUnknown := true);
        }
        SeenStep(cg, locals, rank, open, earlier, state, totals, callees, i, previous, calleeStack, maxCallee);
      }
      assert callees[..|callees|] == callees;
    }
  }

  ghost predicate OpenFrom(cg: CallGraph, rank: Fn -> nat, state: States, f: Fn) {
    Ranked(cg, rank) ==> forall v :: v in state && state[v] == Visiting ==> rank(v) >= rank(f)
  }

  /** The running maximum is the right one for the callees seen so far. */
  ghost predicate Seen(cg: CallGraph, locals: Locals, rank: Fn -> nat, totals: Totals, seen: seq<Fn>,
                       m: StackEstimate) {
    && OverCallees(cg, locals, seen, m)
    && (Ranked(cg, rank) ==> BoundsCallees(cg, locals, seen, m) && forall g :: g in seen ==> g in totals)
  }

  lemma CalleeIsBelow(cg: CallGraph, rank: Fn -> nat, before: States, state: States, f: Fn, i: nat)
    requires i < |Callees(cg, f)| && OpenFrom(cg, rank, before, f) && Progress(before, state)
    ensures OpenAbove(cg, rank, state, Callees(cg, f)[i])
  {
    assert Callees(cg, f)[i] in Callees(cg, f);
  }

  lemma SeenStep(cg: CallGraph, locals: Locals, rank: Fn -> nat, open: States, earlier: Totals,
                 state: States, totals: Totals,
                 callees: seq<Fn>, i: nat, previous: StackEstimate, est: StackEstimate, m: StackEstimate)
    requires i < |callees| && Seen(cg, locals, rank, earlier, callees[..i], previous)
    requires Consistent(cg, locals, rank, open, earlier) && Consistent(cg, locals, rank, state, totals) &&
             Progress(open, state)
    requires Witnessed(cg, locals, callees[i], est)
    requires Ranked(cg, rank) ==> Maximal(cg, locals, callees[i], est) && callees[i] in totals
    requires m.bytes == if est.bytes > previous.bytes then est.bytes else previous.bytes
    requires m.isUnknown == (est.isUnknown || previous.isUnknown)
    ensures Seen(cg, locals, rank, totals, callees[..i + 1], m)
  {
    OneMoreCallee(cg, locals, callees, i, previous, est, m, Ranked(cg, rank));
    forall g | g in earlier ensures g in totals {
      assert g in open && open[g] == Visited;
    }
    assert callees[..i + 1] == callees[..i] + [callees[i]];
  }

  lemma FinishVisit(cg: CallGraph, locals: Locals, rank: Fn -> nat, before: States, state: States, totals: Totals,
                    f: Fn, m: StackEstimate, total: StackEstimate)
    requires f !in before && Progress(before[f := Visiting], state) && Consistent(cg, locals, rank, state, totals)
    requires Seen(cg, locals, rank, totals, Callees(cg, f), m) && AddsUp(locals, f, m, total)
    ensures Consistent(cg, locals, rank, state[f := Visited], totals[f := total])
    ensures Progress(before, state[f := Visited])
    ensures Witnessed(cg, locals, f, total) && (Ranked(cg, rank) ==> Maximal(cg, locals, f, total))
  {
    TotalIsWitnessed(cg, locals, f, m, total);
    var t := totals[f := total];
    forall h | h in t ensures Witnessed(cg, locals, h, t[h]) {
      if h != f { assert t[h] == totals[h]; }
    }
    if Ranked(cg, rank) {
      TotalIsMaximal(cg, locals, f, m, total);
      AddMaximum(cg, locals, totals, f, total);
    }
  }

  lemma AddMaximum(cg: CallGraph, locals: Locals, totals: Totals, f: Fn, total: StackEstimate)
    requires TotalsAreMaxima(cg, locals, totals)
    requires Witnessed(cg, locals, f, total) && Maximal(cg, locals, f, total)
    requires forall g :: g in Callees(cg, f) ==> g in totals
    ensures TotalsAreMaxima(cg, locals, totals[f := total])
  {
    var t := totals[f := total];
    forall h | h in t ensures Witnessed(cg, locals, h, t[h]) && Maximal(cg, locals, h, t[h]) {
      if h != f { assert t[h] == totals[h]; }
    }
  }

  /** The running maximum is zero or belongs to one of the callees seen. */
  ghost predicate OverCallees(cg: CallGraph, locals: Locals, seen: seq<Fn>, m: StackEstimate) {
    && (m.bytes > 0 ==> exists chain :: IsChain(cg, chain) && chain[0] in seen && Cost(locals, chain) == m.bytes)
    && (m.isUnknown ==> exists chain :: IsChain(cg, chain) && chain[0] in seen && EndsUnknown(locals, chain))
  }

  ghost predicate BoundsCallees(cg: CallGraph, locals: Locals, seen: seq<Fn>, m: StackEstimate) {
    forall chain :: IsChain(cg, chain) && chain[0] in seen ==>
      Cost(locals, chain) <= m.bytes && (EndsUnknown(locals, chain) ==> m.isUnknown)
  }

  lemma OneMoreCallee(cg: CallGraph, locals: Locals, callees: seq<Fn>, i: nat, previous: StackEstimate,
                      est: StackEstimate, m: StackEstimate, acyclic: bool)
    requires i < |callees|
    requires OverCallees(cg, locals, callees[..i], previous) && Witnessed(cg, locals, callees[i], est)
    requires acyclic ==> BoundsCallees(cg, locals, callees[..i], previous) && Maximal(cg, locals, callees[i], est)
    requires m.bytes == if est.bytes > previous.bytes then est.bytes else previous.bytes
    requires m.isUnknown == (est.isUnknown || previous.isUnknown)
    ensures OverCallees(cg, locals, callees[..i + 1], m)
    ensures acyclic ==> BoundsCallees(cg, locals, callees[..i + 1], m)
  {
    assert callees[..i + 1] == callees[..i] + [callees[i]];
    assert forall g: Fn :: g in callees[..i + 1] <==> g in callees[..i] || g == callees[i];
    if est.bytes > previous.bytes {
      var chain :| ChainFrom(cg, callees[i], chain) && Cost(locals, chain) == est.bytes;
      assert IsChain(cg, chain) && chain[0] in callees[..i + 1];
    } else if previous.bytes > 0 {
      var chain :| IsChain(cg, chain) && chain[0] in callees[..i] && Cost(locals, chain) == previous.bytes;
      assert chain[0] in callees[..i + 1];
    }
    if est.isUnknown {
      var chain :| ChainFrom(cg, callees[i], chain) && EndsUnknown(locals, chain);
      assert IsChain(cg, chain) && chain[0] in callees[..i + 1];
    } else if previous.isUnknown {
      var chain :| IsChain(cg, chain) && chain[0] in callees[..i] && EndsUnknown(locals, chain);
      assert chain[0] in callees[..i + 1];
    }
    if acyclic {
      forall chain | IsChain(cg, chain) && chain[0] in callees[..i + 1]
        ensures Cost(locals, chain) <= m.bytes && (EndsUnknown(locals, chain) ==> m.isUnknown)
      {
        if chain[0] == callees[i] { assert ChainFrom(cg, callees[i], chain); }
      }
    }
  }

  ghost predicate AddsUp(locals: Locals, f: Fn, m: StackEstimate, total: StackEstimate) {
    && total.bytes == EstimateOf(locals, f).bytes + m.bytes
    && total.isUnknown == (EstimateOf(locals, f).isUnknown || m.isUnknown)
  }

  lemma TotalIsWitnessed(cg: CallGraph, locals: Locals, f: Fn, m: StackEstimate, total: StackEstimate)
    requires OverCallees(cg, locals, Callees(cg, f), m) && AddsUp(locals, f, m, total)
    ensures Witnessed(cg, locals, f, total)
  {
    Alone(cg, locals, f);
    if m.bytes > 0 {
      var chain :| IsChain(cg, chain) && chain[0] in Callees(cg, f) && Cost(locals, chain) == m.bytes;
      Extend(cg, locals, f, chain);
    }
    if total.isUnknown && !EstimateOf(locals, f).isUnknown {
      var chain :| IsChain(cg, chain) && chain[0] in Callees(cg, f) && EndsUnknown(locals, chain);
      Extend(cg, locals, f, chain);
    }
  }

  lemma TotalIsMaximal(cg: CallGraph, locals: Locals, f: Fn, m: StackEstimate, total: StackEstimate)
    requires BoundsCallees(cg, locals, Callees(cg, f), m) && AddsUp(locals, f, m, total)
    ensures Maximal(cg, locals, f, total)
  {
    forall chain | ChainFrom(cg, f, chain)
      ensures Cost(locals, chain) <= total.bytes && (EndsUnknown(locals, chain) ==> total.isUnknown)
    {
      if |chain| == 1 {
        assert chain == [f];
        Alone(cg, locals, f);
      } else {
        Shorten(cg, locals, f, chain);
      }
    }
  }

  ghost function Nodes(cg: CallGraph, locals: Locals): set<Fn> {
    locals.Keys + cg.Keys + set f, g | f in cg && g in cg[f] :: g
  }

  /** The table for every function with a frame: each total is the cost of a real chain, and on
      an acyclic graph no chain costs more. */
  method ComputeGlobalStackUsage(cg: CallGraph, locals: Locals) returns (totals: Totals)
    ensures locals.Keys <= totals.Keys
    ensures forall f :: f in totals ==> Witnessed(cg, locals, f, totals[f])
    ensures Acyclic(cg) ==> TotalsAreMaxima(cg, locals, totals)
  {
    var computation := new StackComputation();
    ghost var nodes, rank := Nodes(cg, locals), RankOf(cg);
    NodesAreClosed(cg, locals);
    var todo := locals.Keys;
    while todo != {}
      invariant todo <= locals.Keys && fresh(computation) && computation.Valid(cg, locals, rank)
      invariant NoneOpen(computation.state)
      invariant locals.Keys <= todo + computation.state.Keys
      decreases todo
    {
      var f :| f in todo;
      todo := todo - {f};
      if f !in computation.state {
        ghost var before := computation.state;
        var total := computation.ComputeStack(f, cg, locals, nodes, rank);
        RootVisited(before, computation.state, f);
      }
    }
    totals := computation.totals;
    CompleteTable(cg, locals, computation.state, totals);
  }

  ghost predicate NoneOpen(state: States) {
    forall v :: v in state ==> state[v] == Visited
  }

  lemma RootVisited(before: States, after: States, f: Fn)
    requires NoneOpen(before) && Progress(before, after) && f in after
    ensures NoneOpen(after) && before.Keys + {f} <= after.Keys
  {
  }

  lemma NodesAreClosed(cg: CallGraph, locals: Locals)
    ensures ClosedUnderCalls(cg, Nodes(cg, locals)) && locals.Keys <= Nodes(cg, locals)
  {
  }

  lemma CompleteTable(cg: CallGraph, locals: Locals, state: States, totals: Totals)
    requires Consistent(cg, locals, RankOf(cg), state, totals) && NoneOpen(state)
    ensures totals.Keys == state.Keys
    ensures forall f :: f in totals ==> Witnessed(cg, locals, f, totals[f])
    ensures Acyclic(cg) ==> TotalsAreMaxima(cg, locals, totals)
  {
    AcyclicIsRanked(cg);
  }

  ghost predicate TotalsAreMaxima(cg: CallGraph, locals: Locals, totals: Totals) {
    && (forall f :: f in totals ==> Witnessed(cg, locals, f, totals[f]) && Maximal(cg, locals, f, totals[f]))
    && (forall f, g :: f in totals && g in Callees(cg, f) ==> g in totals)
  }

  // buildMaxStackCallPath

  function BytesOf(totals: Totals, f: Fn): nat {
    EstimateOf(totals, f).bytes
  }

  /** g is the first of the callees with the largest total. */
  ghost predicate IsBestCallee(callees: seq<Fn>, totals: Totals, g: Fn) {
    exists i :: 0 <= i < |callees| && callees[i] == g
      && (forall j :: 0 <= j < |callees| ==> BytesOf(totals, callees[j]) <= BytesOf(totals, g))
      && (forall j :: 0 <= j < i ==> BytesOf(totals, callees[j]) < BytesOf(totals, g))
  }

  method BestCallee(callees: seq<Fn>, totals: Totals) returns (best: Option<Fn>)
    ensures best.None? <==> callees == []
    ensures best.Some? ==> IsBestCallee(callees, totals, best.value)
  {
    best := None;
    ghost var at := 0;
    for i := 0 to |callees|
      invariant best.None? <==> i == 0
      invariant best.Some? ==> 0 <= at < i && callees[at] == best.value
      invariant best.Some? ==> forall j :: 0 <= j < i ==> BytesOf(totals, callees[j]) <= BytesOf(totals, best.value)
      invariant best.Some? ==> forall j :: 0 <= j < at ==> BytesOf(totals, callees[j]) < BytesOf(totals, best.value)
    {
      if best.None? || BytesOf(totals, callees[i]) > BytesOf(totals, best.value) {
        best := Some(callees[i]);
        at := i;
      }
    }
  }

  /** Each step goes to a best callee that still needs stack. */
  ghost predicate Greedy(cg: CallGraph, totals: Totals, path: seq<Fn>) {
    forall i :: 0 < i < |path| ==> GreedyStep(cg, totals, path[i - 1], path[i])
  }

  ghost predicate GreedyStep(cg: CallGraph, totals: Totals, f: Fn, g: Fn) {
    IsBestCallee(Callees(cg, f), totals, g) && BytesOf(totals, g) > 0
  }

  /** The walk stops where nothing more is called, the rest is free, or a cycle closes. */
  ghost predicate Stops(cg: CallGraph, totals: Totals, path: seq<Fn>, last: Fn) {
    || (forall g :: g in Callees(cg, last) ==> BytesOf(totals, g) == 0)
    || (exists g :: g in path && GreedyStep(cg, totals, last, g))
  }

  method BuildMaxStackCallPath(f: Fn, cg: CallGraph, totals: Totals) returns (path: seq<Fn>)
    ensures GreedyWalk(cg, totals, f, path) && Stops(cg, totals, path, path[|path| - 1])
  {
    path := [];
    var visited: set<Fn> := {};
    var current := f;
    ghost var nodes := {f} + Nodes(cg, map[]);
    while true
      invariant current in nodes && visited <= nodes
      invariant forall g :: g in visited <==> g in path
      invariant Walked(cg, totals, f, path, current)
      decreases nodes - visited
    {
      if current in visited {
        assert Stops(cg, totals, path, path[|path| - 1]);
        break;
      }
      visited := visited + {current};
      WalkedOn(cg, totals, f, path, current);
      path := path + [current];
      if current !in cg {
        break;
      }
      var best := BestCallee(cg[current], totals);
      if best.None? || BytesOf(totals, best.value) == 0 {
        assert Stops(cg, totals, path, current);
        break;
      }
      assert current in cg && best.value in cg[current];
      current := best.value;
    }
  }

  ghost predicate GreedyWalk(cg: CallGraph, totals: Totals, f: Fn, path: seq<Fn>) {
    path != [] && path[0] == f && NoDuplicates(path) && Greedy(cg, totals, path)
  }

  /** The path so far, and the function about to join it. */
  ghost predicate Walked(cg: CallGraph, totals: Totals, f: Fn, path: seq<Fn>, current: Fn) {
    if path == [] then current == f
    else GreedyWalk(cg, totals, f, path) && GreedyStep(cg, totals, path[|path| - 1], current)
  }

  lemma WalkedOn(cg: CallGraph, totals: Totals, f: Fn, path: seq<Fn>, current: Fn)
    requires Walked(cg, totals, f, path, current) && current !in path
    ensures GreedyWalk(cg, totals, f, path + [current])
  {
    var longer := path + [current];
    forall i | 0 < i < |longer| ensures GreedyStep(cg, totals, longer[i - 1], longer[i]) {
      if i < |path| {
        assert GreedyStep(cg, totals, path[i - 1], path[i]);
      }
    }
  }

  /** At a maximal total, the frame plus the best callee's total is the total. */
  lemma TotalThroughBestCallee(cg: CallGraph, locals: Locals, totals: Totals, f: Fn, g: Fn)
    requires TotalsAreMaxima(cg, locals, totals) && f in totals && IsBestCallee(Callees(cg, f), totals, g)
    ensures totals[f].bytes == EstimateOf(locals, f).bytes + BytesOf(totals, g)
  {
    assert g in Callees(cg, f);
    var down :| ChainFrom(cg, g, down) && Cost(locals, down) == totals[g].bytes;
    Extend(cg, locals, f, down);
    var chain :| ChainFrom(cg, f, chain) && Cost(locals, chain) == totals[f].bytes;
    if |chain| == 1 {
      assert chain == [f];
      Alone(cg, locals, f);
    } else {
      Shorten(cg, locals, f, chain);
      assert BytesOf(totals, chain[1]) <= BytesOf(totals, g);
    }
  }

  lemma TotalOfLeaf(cg: CallGraph, locals: Locals, totals: Totals, f: Fn)
    requires TotalsAreMaxima(cg, locals, totals) && f in totals
    requires forall g :: g in Callees(cg, f) ==> BytesOf(totals, g) == 0
    ensures totals[f].bytes == EstimateOf(locals, f).bytes
  {
    Alone(cg, locals, f);
    var chain :| ChainFrom(cg, f, chain) && Cost(locals, chain) == totals[f].bytes;
    if |chain| == 1 {
      assert chain == [f];
    } else {
      Shorten(cg, locals, f, chain);
    }
  }

  lemma {:induction false} RankFalls(cg: CallGraph, totals: Totals, rank: Fn -> nat, path: seq<Fn>, i: nat)
    requires Ranked(cg, rank) && Greedy(cg, totals, path) && i < |path|
    ensures rank(path[|path| - 1]) <= rank(path[i])
    decreases |path| - i
  {
    if i < |path| - 1 {
      assert GreedyStep(cg, totals, path[i + 1 - 1], path[i + 1]);
      RankFalls(cg, totals, rank, path, i + 1);
    }
  }

  /** On an acyclic call graph the frames along the printed path add up to the reported total,
      which no call chain from the function exceeds. */
  lemma {:induction false} PathExplainsTotal(cg: CallGraph, locals: Locals, totals: Totals, path: seq<Fn>)
    requires TotalsAreMaxima(cg, locals, totals)
    requires path != [] && path[0] in totals && Greedy(cg, totals, path)
    requires forall g :: g in Callees(cg, path[|path| - 1]) ==> BytesOf(totals, g) == 0
    ensures Cost(locals, path) == totals[path[0]].bytes
    decreases |path|
  {
    if |path| == 1 {
      TotalOfLeaf(cg, locals, totals, path[0]);
      assert path[1..] == [];
    } else {
      assert GreedyStep(cg, totals, path[1 - 1], path[1]);
      TotalThroughBestCallee(cg, locals, totals, path[0], path[1]);
      forall i | 0 < i < |path[1..]| ensures GreedyStep(cg, totals, path[1..][i - 1], path[1..][i]) {
        assert GreedyStep(cg, totals, path[i + 1 - 1], path[i + 1]);
      }
      PathExplainsTotal(cg, locals, totals, path[1..]);
    }
  }

  /** No cycle can close on an acyclic graph, so the walk really ends at the bottom. */
  lemma AcyclicWalkEndsAtTheBottom(cg: CallGraph, totals: Totals, path: seq<Fn>)
    requires Acyclic(cg) && path != [] && Greedy(cg, totals, path)
    requires Stops(cg, totals, path, path[|path| - 1])
    ensures forall g :: g in Callees(cg, path[|path| - 1]) ==> BytesOf(totals, g) == 0
  {
    var last, rank := path[|path| - 1], RankOf(cg);
    AcyclicIsRanked(cg);
    forall g | g in path ensures !GreedyStep(cg, totals, last, g) {
      var i :| 0 <= i < |path| && path[i] == g;
      RankFalls(cg, totals, rank, path, i);
      assert g in Callees(cg, last) ==> rank(g) < rank(last);
    }
  }

  /** End to end: totals, path and their agreement. */
  method ExplainStack(f: Fn, cg: CallGraph, locals: Locals) returns (total: StackEstimate, path: seq<Fn>)
    requires f in locals && Acyclic(cg)
    ensures ChainFrom(cg, f, path) && Cost(locals, path) == total.bytes
    ensures Maximal(cg, locals, f, total)
  {
    var totals := ComputeGlobalStackUsage(cg, locals);
    path := BuildMaxStackCallPath(f, cg, totals);
    total := totals[f];
    AcyclicWalkEndsAtTheBottom(cg, totals, path);
    PathExplainsTotal(cg, locals, totals, path);
    forall i | 0 < i < |path| ensures path[i] in Callees(cg, path[i - 1]) {
      assert GreedyStep(cg, totals, path[i - 1], path[i]);
    }
  }
}
