/** Memoised depth-first search deciding whether a function is deterministic. */
module Determinism {
  import opened Reachability

  datatype Intrinsic = DebugMarker | LifetimeOrAssume | OtherIntrinsic

  datatype Target =
    | InlineAsm
    | Indirect
    | IntrinsicCall(kind: Intrinsic, mayWrite: bool)
    | Declared(noReturn: bool, known: bool)
    | Defined(f: nat)

  /** Instructions as the scan classifies them; the flags are the answers of the
      pointer-provenance queries on their operands. */
  datatype Instruction =
    | Debug
    | Load(isVolatile: bool, allowedRead: bool)
    | Store(isVolatile: bool, localWrite: bool)
    | AtomicRMW(localWrite: bool)
    | CmpXchg(localWrite: bool)
    | MemTransfer(localWrite: bool, allowedRead: bool)
    | MemSet(localWrite: bool)
    | Call(target: Target)
    | Other(mayWrite: bool)

  datatype Function = Declaration(known: bool) | Definition(body: seq<Instruction>)

  type Program = seq<Function>

  ghost predicate Wellformed(prog: Program) {
    forall f: nat, g: nat :: Calls(prog, f, g) ==> g < |prog| && prog[g].Definition?
  }

  predicate InProgram(prog: Program, f: nat) {
    f < |prog|
  }

  ghost function AllFunctions(prog: Program): set<nat> {
    set f: nat | f < |prog| && InProgram(prog, f)
  }

  // What makes code depend on, or reach, the world outside its own memory

  ghost predicate ReadsOutside(instr: Instruction) {
    (instr.Load? || instr.MemTransfer?) && !instr.allowedRead
  }

  ghost predicate WritesOutside(instr: Instruction) {
    || ((instr.Store? || instr.AtomicRMW? || instr.CmpXchg? || instr.MemTransfer? || instr.MemSet?) &&
        !instr.localWrite)
    || (instr.Call? && instr.target.IntrinsicCall? && instr.target.kind == OtherIntrinsic && instr.target.mayWrite)
    || (instr.Other? && instr.mayWrite)
  }

  ghost predicate AccessesDevice(instr: Instruction) {
    (instr.Load? || instr.Store?) && instr.isVolatile
  }

  ghost predicate RunsUnknownCode(instr: Instruction) {
    && instr.Call?
    && (|| instr.target.InlineAsm? || instr.target.Indirect?
        || (instr.target.Declared? && !instr.target.noReturn && !instr.target.known))
  }

  ghost predicate Hazard(instr: Instruction) {
    ReadsOutside(instr) || WritesOutside(instr) || AccessesDevice(instr) || RunsUnknownCode(instr)
  }

  /** The instruction is acceptable apart from what a called definition may do. */
  predicate LocallyFine(instr: Instruction): (fine: bool)
    ensures fine <==> !Hazard(instr)
  {
    match instr
    case Debug => true
    case Load(isVolatile, allowedRead) => !isVolatile && allowedRead
    case Store(isVolatile, localWrite) => !isVolatile && localWrite
    case AtomicRMW(localWrite) => localWrite
    case CmpXchg(localWrite) => localWrite
    case MemTransfer(localWrite, allowedRead) => localWrite && allowedRead
    case MemSet(localWrite) => localWrite
    case Call(InlineAsm) => false
    case Call(Indirect) => false
    case Call(IntrinsicCall(kind, mayWrite)) => kind != OtherIntrinsic || !mayWrite
    case Call(Declared(noReturn, known)) => noReturn || known
    case Call(Defined(g)) => true
    case Other(mayWrite) => !mayWrite
  }

  ghost predicate Calls(prog: Program, f: nat, g: nat) {
    f < |prog| && prog[f].Definition? && Call(Defined(g)) in prog[f].body
  }

  /** The function's own code has no hazard. */
  ghost predicate BodyFine(prog: Program, f: nat)
    requires f < |prog|
  {
    match prog[f]
    case Declaration(known) => known
    case Definition(body) => forall instr :: instr in body ==> !Hazard(instr)
  }

  /** Deterministic with a proof of height at most n. */
  ghost predicate DeterministicIn(prog: Program, n: nat, f: nat)
    decreases n
  {
    && f < |prog|
    && BodyFine(prog, f)
    && forall g :: Calls(prog, f, g) ==> n > 0 && DeterministicIn(prog, n - 1, g)
  }

  /** The least set of functions with acceptable code that call only members of the set. */
  ghost predicate Deterministic(prog: Program, f: nat) {
    exists n: nat :: DeterministicIn(prog, n, f)
  }

  lemma {:induction false} HigherProof(prog: Program, m: nat, n: nat, f: nat)
    requires m <= n && DeterministicIn(prog, m, f)
    ensures DeterministicIn(prog, n, f)
    decreases m
  {
    forall g | Calls(prog, f, g) ensures n > 0 && DeterministicIn(prog, n - 1, g) {
      HigherProof(prog, m - 1, n - 1, g);
    }
  }

  ghost function CallsIn(body: seq<Instruction>): set<nat> {
    set i | 0 <= i < |body| && body[i].Call? && body[i].target.Defined? :: body[i].target.f
  }

  lemma {:induction false} CommonHeight(prog: Program, fs: set<nat>) returns (n: nat)
    requires forall g :: g in fs ==> Deterministic(prog, g)
    ensures forall g :: g in fs ==> DeterministicIn(prog, n, g)
    decreases fs
  {
    if fs == {} {
      n := 0;
    } else {
      var f :| f in fs;
      var m := CommonHeight(prog, fs - {f});
      var k: nat :| DeterministicIn(prog, k, f);
      n := if m > k then m else k;
      forall g | g in fs ensures DeterministicIn(prog, n, g) {
        HigherProof(prog, if g == f then k else m, n, g);
      }
    }
  }

  /** The defining equation of the least fixpoint. */
  lemma DeterministicUnfolds(prog: Program, f: nat)
    requires f < |prog|
    ensures Deterministic(prog, f) <==> BodyFine(prog, f) && forall g :: Calls(prog, f, g) ==> Deterministic(prog, g)
  {
    if Deterministic(prog, f) {
      var n: nat :| DeterministicIn(prog, n, f);
      forall g | Calls(prog, f, g) ensures Deterministic(prog, g) {
        assert DeterministicIn(prog, n - 1, g);
      }
    }
    if BodyFine(prog, f) && forall g :: Calls(prog, f, g) ==> Deterministic(prog, g) {
      var callees := if prog[f].Definition? then CallsIn(prog[f].body) else {};
      forall g ensures Calls(prog, f, g) <==> g in callees {}
      var n := CommonHeight(prog, callees);
      assert DeterministicIn(prog, n + 1, f);
    }
  }

  // Call chains

  ghost function CalledBy(prog: Program, v: nat): nat -> bool {
    (g: nat) => Calls(prog, v, g)
  }

  ghost function CallEdges(prog: Program): (nat, nat) -> bool {
    (g: nat, h: nat) => Calls(prog, g, h)
  }

  /** v reaches f through at least one call. */
  ghost predicate Reaches(prog: Program, v: nat, f: nat) {
    Reachable(CalledBy(prog, v), CallEdges(prog), f)
  }

  lemma ReachesCallee(prog: Program, v: nat, f: nat, g: nat)
    requires v == f || Reaches(prog, v, f)
    requires Calls(prog, f, g)
    ensures Reaches(prog, v, g)
  {
    if v == f {
      InitReachable(CalledBy(prog, v), CallEdges(prog), g);
    } else {
      StepReachable(CalledBy(prog, v), CallEdges(prog), f, g);
    }
  }

  /** Further along a call chain proofs get strictly lower. */
  lemma {:induction false} ProofsShrink(prog: Program, v: nat, n: nat, f: nat, height: nat)
    requires ReachIn(CalledBy(prog, v), CallEdges(prog), n, f) && DeterministicIn(prog, height, v)
    ensures height > 0 && DeterministicIn(prog, height - 1, f)
    decreases n
  {
    if !CalledBy(prog, v)(f) {
      var w :| ReachIn(CalledBy(prog, v), CallEdges(prog), n - 1, w) && CallEdges(prog)(w, f);
      ProofsShrink(prog, v, n - 1, w, height);
      assert Calls(prog, w, f);
      HigherProof(prog, height - 2, height - 1, f);
    } else {
      assert Calls(prog, v, f);
    }
  }

  /** A function on a call cycle has no proof: answering false on meeting it again is right. */
  lemma CycleIsNotDeterministic(prog: Program, f: nat)
    requires Reaches(prog, f, f)
    ensures !Deterministic(prog, f)
  {
    var n: nat :| ReachIn(CalledBy(prog, f), CallEdges(prog), n, f);
    if height: nat :| DeterministicIn(prog, height, f) {
      NoProof(prog, f, n, height);
    }
  }

  lemma {:induction false} NoProof(prog: Program, f: nat, n: nat, height: nat)
    requires ReachIn(CalledBy(prog, f), CallEdges(prog), n, f)
    ensures !DeterministicIn(prog, height, f)
    decreases height
  {
    if DeterministicIn(prog, height, f) {
      ProofsShrink(prog, f, n, f, height);
      NoProof(prog, f, n, height - 1);
    }
  }

  ghost predicate FineAndOffCycles(prog: Program, g: nat) {
    g < |prog| && BodyFine(prog, g) && !Reaches(prog, g, g)
  }

  /** The least fixpoint in terms of the call graph: everything reachable is acceptable and
      nothing reachable lies on a call cycle. */
  lemma DeterministicMeans(prog: Program, f: nat)
    requires Wellformed(prog) && f < |prog|
    ensures Deterministic(prog, f) <==> forall g :: g == f || Reaches(prog, f, g) ==> FineAndOffCycles(prog, g)
  {
    if Deterministic(prog, f) {
      forall g | g == f || Reaches(prog, f, g) ensures FineAndOffCycles(prog, g) {
        var height: nat :| DeterministicIn(prog, height, f);
        if g != f {
          var n: nat :| ReachIn(CalledBy(prog, f), CallEdges(prog), n, g);
          ProofsShrink(prog, f, n, g, height);
        }
        if Reaches(prog, g, g) {
          CycleIsNotDeterministic(prog, g);
        }
      }
    }
    if forall g :: g == f || Reaches(prog, f, g) ==> FineAndOffCycles(prog, g) {
      AcyclicIsDeterministic(prog, f, {});
    }
  }

  lemma {:induction false} AcyclicIsDeterministic(prog: Program, f: nat, above: set<nat>)
    requires Wellformed(prog) && f < |prog| && f !in above
    requires forall v :: v in above ==> Reaches(prog, v, f)
    requires forall g :: g == f || Reaches(prog, f, g) ==> FineAndOffCycles(prog, g)
    ensures Deterministic(prog, f)
    decreases AllFunctions(prog) - above
  {
    assert InProgram(prog, f) && f in AllFunctions(prog) - above;
    assert FineAndOffCycles(prog, f);
    forall g | Calls(prog, f, g) ensures Deterministic(prog, g) {
      ReachesCallee(prog, f, f, g);
      forall v | v in above + {f} ensures Reaches(prog, v, g) {
        ReachesCallee(prog, v, f, g);
      }
      assert FineAndOffCycles(prog, g);
      forall h | h == g || Reaches(prog, g, h) ensures FineAndOffCycles(prog, h) {
        if h != g {
          ReachesOn(prog, f, g, h);
        }
      }
      AcyclicIsDeterministic(prog, g, above + {f});
    }
    DeterministicUnfolds(prog, f);
  }

  lemma ReachesOn(prog: Program, v: nat, f: nat, g: nat)
    requires Reaches(prog, v, f) && Reaches(prog, f, g)
    ensures Reaches(prog, v, g)
  {
    var n: nat :| ReachIn(CalledBy(prog, f), CallEdges(prog), n, g);
    ReachesOnIn(prog, v, f, n, g);
  }

  lemma {:induction false} ReachesOnIn(prog: Program, v: nat, f: nat, n: nat, g: nat)
    requires Reaches(prog, v, f) && ReachIn(CalledBy(prog, f), CallEdges(prog), n, g)
    ensures Reaches(prog, v, g)
    decreases n
  {
    if CalledBy(prog, f)(g) {
      ReachesCallee(prog, v, f, g);
    } else {
      var w :| ReachIn(CalledBy(prog, f), CallEdges(prog), n - 1, w) && CallEdges(prog)(w, g);
      ReachesOnIn(prog, v, f, n - 1, w);
      ReachesCallee(prog, v, w, g);
    }
  }

  class DeterminismCache {
    var memo: map<nat, bool>
    var visiting: set<nat>

    constructor ()
      ensures memo == map[] && visiting == {}
    {
      memo, visiting := map[], {};
    }

    /** Every memoised answer is final, including those recorded while ancestors are open. */
    ghost predicate MemoCorrect(prog: Program)
      reads this
    {
      forall f :: f in memo ==> f < |prog| && memo[f] == Deterministic(prog, f)
    }

    ghost predicate AncestorsOf(prog: Program, f: nat)
      reads this
    {
      forall v :: v in visiting ==> v < |prog| && Reaches(prog, v, f)
    }

    method IsFunctionDeterministic(prog: Program, f: nat) returns (deterministic: bool)
      requires f < |prog| && Wellformed(prog)
      requires MemoCorrect(prog) && AncestorsOf(prog, f)
      modifies this
      ensures deterministic == Deterministic(prog, f)
      ensures MemoCorrect(prog) && visiting == old(visiting)
      ensures old(memo).Keys <= memo.Keys
      decreases AllFunctions(prog) - visiting, 0
    {
      if f in memo {
        return memo[f];
      }
      if f in visiting {
        CycleIsNotDeterministic(prog, f);
        return false;
      }
      ghost var outer := visiting;
      visiting := visiting + {f};
      assert InProgram(prog, f) && f in AllFunctions(prog) - outer;
      match prog[f] {
        case Declaration(known) =>
          deterministic := known;
        case Definition(body) =>
          deterministic := ScanBody(prog, f, body);
      }
      DeterministicUnfolds(prog, f);
      visiting := visiting - {f};
      assert visiting == outer;
      memo := memo[f := deterministic];
    }

    /** The instruction loop, leaving at the first instruction that spoils the answer. */
    method ScanBody(prog: Program, f: nat, body: seq<Instruction>) returns (deterministic: bool)
      requires f < |prog| && Wellformed(prog) && prog[f] == Definition(body)
      requires MemoCorrect(prog) && f in visiting
      requires forall v :: v in visiting ==> v < |prog| && (v == f || Reaches(prog, v, f))
      modifies this
      ensures deterministic <==> BodyFine(prog, f) && forall g :: Calls(prog, f, g) ==> Deterministic(prog, g)
      ensures MemoCorrect(prog) && visiting == old(visiting)
      ensures old(memo).Keys <= memo.Keys
      decreases AllFunctions(prog) - visiting, 1
    {
      for i := 0 to |body|
        invariant MemoCorrect(prog) && visiting == old(visiting)
        invariant old(memo).Keys <= memo.Keys
        invariant forall k :: 0 <= k < i ==> LocallyFine(body[k])
        invariant forall k, g :: 0 <= k < i && body[k].Call? && body[k].target.Defined? && body[k].target.f == g ==>
                  Deterministic(prog, g)
      {
        assert body[i] in body;
        if body[i].Call? && body[i].target.Defined? {
          var g := body[i].target.f;
          assert Calls(prog, f, g);
          forall v | v in visiting ensures Reaches(prog, v, g) {
            ReachesCallee(prog, v, f, g);
          }
          var fine := IsFunctionDeterministic(prog, g);
          if !fine {
            return false;
          }
        } else if !LocallyFine(body[i]) {
          return false;
        }
      }
      return true;
    }
  }

  /** A session of queries against one cache: each answer depends only on the program, not on
      the queries before it. */
  method AnswerQueries(prog: Program, queries: seq<nat>) returns (answers: seq<bool>)
    requires Wellformed(prog)
    requires forall i :: 0 <= i < |queries| ==> queries[i] < |prog|
    ensures |answers| == |queries|
    ensures forall i :: 0 <= i < |queries| ==> answers[i] == Deterministic(prog, queries[i])
  {
    var cache := new DeterminismCache();
    answers := [];
    for i := 0 to |queries|
      invariant fresh(cache) && cache.MemoCorrect(prog) && cache.visiting == {}
      invariant |answers| == i
      invariant forall k :: 0 <= k < i ==> answers[k] == Deterministic(prog, queries[k])
    {
      var answer := cache.IsFunctionDeterministic(prog, queries[i]);
      answers := answers + [answer];
    }
  }
}
