/** Whether a pointer parameter may be written through: a worklist over the values derived
    from it, joining what their uses say. */
module WriteState {
  import opened Reachability

  datatype ParamWriteState = NoWrite | Unknown | MayWrite

  function Rank(s: ParamWriteState): nat {
    match s
    case NoWrite => 0
    case Unknown => 1
    case MayWrite => 2
  }

  /** mergeParamWriteState. */
  function Merge(lhs: ParamWriteState, rhs: ParamWriteState): ParamWriteState {
    if lhs == MayWrite || rhs == MayWrite then MayWrite
    else if lhs == Unknown || rhs == Unknown then Unknown
    else NoWrite
  }

  /** Merging is the least upper bound of NoWrite < Unknown < MayWrite. */
  lemma MergeIsLeastUpperBound(a: ParamWriteState, b: ParamWriteState, c: ParamWriteState)
    ensures Rank(Merge(a, b)) <= Rank(c) <==> Rank(a) <= Rank(c) && Rank(b) <= Rank(c)
  {
  }

  // Uses of a value

  type Value = nat

  datatype Use =
    | StoreTo                                                  // the value is the address
    | StoreOf(toLocalSlot: bool, slotLoads: seq<Value>)        // the value is stored
    | Atomic(asPointer: bool)
    | CallArgument(states: seq<ParamWriteState>)               // per argument position it fills
    | Derived(result: Value)                                   // gep, bitcast, address-space cast
    | Merged(result: Value, isPointer: bool)                   // phi, select
    | Cast(result: Value, isPointer: bool)                      // ptrtoint among them
    | OtherUse

  type Graph = seq<seq<Use>>

  /** What the use adds to the answer. Every ptrtoint is a cast and is caught by the cast test,
      so the later ptrtoint test never runs. */
  function Contributions(use: Use): seq<ParamWriteState> {
    match use
    case StoreTo => [MayWrite]
    case StoreOf(toLocalSlot, _) => if toLocalSlot then [] else [Unknown]
    case Atomic(asPointer) => if asPointer then [MayWrite] else []
    case CallArgument(states) => states
    case Derived(_) => []
    case Merged(_, _) => []
    case Cast(_, _) => []
    case OtherUse => []
  }

  /** The values the use derives. */
  function Successors(use: Use): seq<Value> {
    match use
    case StoreOf(toLocalSlot, slotLoads) => if toLocalSlot then slotLoads else []
    case Derived(result) => [result]
    case Merged(result, isPointer) => if isPointer then [result] else []
    case Cast(result, isPointer) => if isPointer then [result] else []
    case _ => []
  }

  ghost predicate Wellformed(g: Graph) {
    forall v, use, t :: 0 <= v < |g| && use in g[v] && t in Successors(use) ==> t < |g|
  }

  // The declarative meaning

  ghost predicate Derives(g: Graph, v: Value, t: Value) {
    v < |g| && exists use :: use in g[v] && t in Successors(use)
  }

  ghost function Root(root: Value): Value -> bool {
    (v: Value) => v == root
  }

  ghost function DeriveSteps(g: Graph): (Value, Value) -> bool {
    (v: Value, t: Value) => Derives(g, v, t)
  }

  ghost predicate DerivedFrom(g: Graph, root: Value, v: Value) {
    Reachable(Root(root), DeriveSteps(g), v)
  }

  ghost predicate ContributesAt(g: Graph, v: Value, s: ParamWriteState) {
    v < |g| && exists use :: use in g[v] && s in Contributions(use)
  }

  /** Some use of some value derived from the root contributes s. */
  ghost predicate Contributed(g: Graph, root: Value, s: ParamWriteState) {
    exists v :: DerivedFrom(g, root, v) && ContributesAt(g, v, s)
  }

  /** The join of everything contributed. */
  ghost predicate IsJoin(g: Graph, root: Value, result: ParamWriteState) {
    && (forall s :: Contributed(g, root, s) ==> Rank(s) <= Rank(result))
    && (result == NoWrite || Contributed(g, root, result))
  }

  /** The value is an address written to, here or by a called function. */
  ghost predicate Written(g: Graph, v: Value) {
    v < |g| && exists use ::
      use in g[v] && (use.StoreTo? || use == Atomic(true) || (use.CallArgument? && MayWrite in use.states))
  }

  /** The value goes where its uses can no longer be followed. */
  ghost predicate OutOfSight(g: Graph, v: Value) {
    v < |g| && exists use ::
      use in g[v] && ((use.StoreOf? && !use.toLocalSlot) || (use.CallArgument? && Unknown in use.states))
  }

  lemma ContributionMeans(g: Graph, v: Value)
    ensures ContributesAt(g, v, MayWrite) <==> Written(g, v)
    ensures ContributesAt(g, v, Unknown) <==> OutOfSight(g, v)
  {
    if use :| v < |g| && use in g[v] && (use.StoreTo? || use == Atomic(true)) {
      assert Contributions(use)[0] == MayWrite;
    }
    if use :| v < |g| && use in g[v] && use.StoreOf? && !use.toLocalSlot {
      assert Contributions(use)[0] == Unknown;
    }
  }

  /** The three answers: something derived from the root is written; nothing is, and all uses were
      followed; or neither can be said. */
  lemma JoinMeans(g: Graph, root: Value, result: ParamWriteState)
    requires IsJoin(g, root, result)
    ensures result == MayWrite <==> exists v :: DerivedFrom(g, root, v) && Written(g, v)
    ensures result == NoWrite <==> forall v :: DerivedFrom(g, root, v) ==> !Written(g, v) && !OutOfSight(g, v)
  {
    forall v
      ensures ContributesAt(g, v, MayWrite) <==> Written(g, v)
      ensures ContributesAt(g, v, Unknown) <==> OutOfSight(g, v)
    {
      ContributionMeans(g, v);
    }
    if v :| DerivedFrom(g, root, v) && Written(g, v) {
      assert Contributed(g, root, MayWrite);
    }
    if v :| DerivedFrom(g, root, v) && OutOfSight(g, v) {
      assert Contributed(g, root, Unknown);
    }
  }

  // The worklist

  ghost predicate Searching(g: Graph, root: Value, worklist: seq<Value>, visited: set<Value>) {
    && (root in visited || root in worklist)
    && (forall v :: v in visited || v in worklist ==> v < |g| && DerivedFrom(g, root, v))
    && (forall v, t :: v in visited && Derives(g, v, t) ==> t in visited || t in worklist)
  }

  ghost predicate JoinOver(g: Graph, visited: set<Value>, aggregate: ParamWriteState) {
    && aggregate != MayWrite
    && (forall v, s :: v in visited && ContributesAt(g, v, s) ==> Rank(s) <= Rank(aggregate))
    && (aggregate != NoWrite ==> exists v :: v in visited && ContributesAt(g, v, aggregate))
  }

  /** The argument loop of a call use; stop means MayWrite was found. */
  method JoinArguments(states: seq<ParamWriteState>, before: ParamWriteState)
    returns (aggregate: ParamWriteState, stop: bool)
    requires before != MayWrite
    ensures stop <==> MayWrite in states
    ensures !stop ==> aggregate == if Unknown in states then Unknown else before
  {
    aggregate, stop := before, false;
    for i := 0 to |states|
      invariant forall k :: 0 <= k < i ==> states[k] != MayWrite
      invariant aggregate == if exists k :: 0 <= k < i && states[k] == Unknown then Unknown else before
    {
      if states[i] == MayWrite {
        return aggregate, true;
      }
      aggregate := Merge(aggregate, states[i]);
    }
  }

  /** All uses of one value. */
  method VisitUses(g: Graph, v: Value, before: ParamWriteState, worklist: seq<Value>)
    returns (aggregate: ParamWriteState, worklist': seq<Value>, stop: bool)
    requires v < |g| && before != MayWrite
    ensures stop <==> ContributesAt(g, v, MayWrite)
    ensures !stop ==> aggregate == if ContributesAt(g, v, Unknown) then Unknown else before
    ensures !stop ==> forall t :: t in worklist' <==> t in worklist || Derives(g, v, t)
  {
    aggregate, worklist', stop := before, worklist, false;
    var uses := g[v];
    for i := 0 to |uses|
      invariant forall k :: 0 <= k < i ==> MayWrite !in Contributions(uses[k])
      invariant aggregate == if exists k :: 0 <= k < i && Unknown in Contributions(uses[k]) then Unknown else before
      invariant forall t :: t in worklist' <==> t in worklist || exists k :: 0 <= k < i && t in Successors(uses[k])
    {
      var use := uses[i];
      ghost var joined, pushed := aggregate, worklist';
      assert use in g[v];
      match use {
        case StoreTo =>
          assert Contributions(use)[0] == MayWrite;
          return aggregate, worklist', true;
        case StoreOf(toLocalSlot, slotLoads) =>
          if toLocalSlot {
            worklist' := worklist' + slotLoads;
          } else {
            assert Contributions(use)[0] == Unknown;
            aggregate := Merge(aggregate, Unknown);
          }
        case Atomic(asPointer) =>
          if asPointer {
            assert Contributions(use)[0] == MayWrite;
            return aggregate, worklist', true;
          }
        case CallArgument(states) =>
          var found;
          aggregate, found := JoinArguments(states, aggregate);
          if found {
            return aggregate, worklist', true;
          }
        case Derived(result) =>
          worklist' := worklist' + [result];
        case Merged(result, isPointer) =>
          if isPointer {
            worklist' := worklist' + [result];
          }
        case Cast(result, isPointer) =>
          if isPointer {
            worklist' := worklist' + [result];
          }
        case OtherUse =>
      }
      assert MayWrite !in Contributions(use);
      assert aggregate == if Unknown in Contributions(use) then Unknown else joined;
      assert worklist' == pushed + Successors(use);
    }
  }

  /** valueWriteState: the join of all contributions of all derived values, whatever the order
      of the worklist and despite leaving at the first MayWrite. */
  method ValueWriteState(g: Graph, root: Value) returns (result: ParamWriteState)
    requires Wellformed(g) && root < |g|
    ensures IsJoin(g, root, result)
  {
    var visited: set<Value> := {};
    var worklist := [root];
    var aggregate := NoWrite;
    ghost var all := Indices(|g|);
    InitReachable(Root(root), DeriveSteps(g), root);
    while worklist != []
      invariant Searching(g, root, worklist, visited) && JoinOver(g, visited, aggregate)
      decreases all - visited, |worklist|
    {
      var v := worklist[|worklist| - 1];
      ghost var before, seen, joined := worklist, visited, aggregate;
      worklist := worklist[..|worklist| - 1];
      assert forall t: Value :: t in before <==> t in worklist || t == v;
      if v in visited {
        continue;
      }
      visited := visited + {v};
      IndexIn(|g|, v);
      var stop;
      aggregate, worklist, stop := VisitUses(g, v, aggregate, worklist);
      if stop {
        MayWriteIsJoin(g, root, v);
        return MayWrite;
      }
      VisitStep(g, root, before, seen, v, worklist);
      JoinStep(g, seen, joined, v, aggregate);
    }
    JoinFinished(g, root, visited, aggregate);
    return aggregate;
  }

  ghost function Indices(n: nat): set<nat> {
    if n == 0 then {} else Indices(n - 1) + {n - 1}
  }

  lemma {:induction false} IndexIn(n: nat, v: nat)
    ensures v in Indices(n) <==> v < n
  {
    if n > 0 {
      IndexIn(n - 1, v);
    }
  }

  lemma VisitStep(g: Graph, root: Value, before: seq<Value>, seen: set<Value>, v: Value, worklist: seq<Value>)
    requires Wellformed(g) && Searching(g, root, before, seen) && v in before
    requires forall t :: t in before ==> t in worklist || t == v
    requires forall t :: t in worklist ==> t in before || Derives(g, v, t)
    requires forall t :: Derives(g, v, t) ==> t in worklist
    ensures Searching(g, root, worklist, seen + {v})
  {
    forall t: Value | t in worklist ensures t < |g| && DerivedFrom(g, root, t) {
      if t !in before {
        StepReachable(Root(root), DeriveSteps(g), v, t);
      }
    }
  }

  lemma JoinStep(g: Graph, seen: set<Value>, joined: ParamWriteState, v: Value, aggregate: ParamWriteState)
    requires JoinOver(g, seen, joined) && !ContributesAt(g, v, MayWrite)
    requires aggregate == if ContributesAt(g, v, Unknown) then Unknown else joined
    ensures JoinOver(g, seen + {v}, aggregate)
  {
    if aggregate != NoWrite {
      if ContributesAt(g, v, Unknown) {
        assert v in seen + {v} && ContributesAt(g, v, aggregate);
      } else {
        var w :| w in seen && ContributesAt(g, w, joined);
        assert w in seen + {v} && ContributesAt(g, w, aggregate);
      }
    }
  }

  lemma VisitedIsDerived(g: Graph, root: Value, visited: set<Value>)
    requires Searching(g, root, [], visited)
    ensures forall v :: DerivedFrom(g, root, v) <==> v in visited
  {
    ClosedContainsReachable(Root(root), DeriveSteps(g), (v: Value) => v in visited);
  }

  lemma JoinFinished(g: Graph, root: Value, visited: set<Value>, aggregate: ParamWriteState)
    requires Searching(g, root, [], visited) && JoinOver(g, visited, aggregate)
    ensures IsJoin(g, root, aggregate)
  {
    VisitedIsDerived(g, root, visited);
  }

  lemma MayWriteIsJoin(g: Graph, root: Value, v: Value)
    requires DerivedFrom(g, root, v) && ContributesAt(g, v, MayWrite)
    ensures IsJoin(g, root, MayWrite)
  {
  }

  /** The join is unique, so any pop order gives the same answer. */
  lemma JoinUnique(g: Graph, root: Value, a: ParamWriteState, b: ParamWriteState)
    requires IsJoin(g, root, a) && IsJoin(g, root, b)
    ensures a == b
  {
    if a == NoWrite {
      assert b == NoWrite || Contributed(g, root, b);
    } else {
      assert Contributed(g, root, a) && Rank(a) <= Rank(b);
      assert b == NoWrite || Contributed(g, root, b);
    }
  }
}
