/** Wrapper summaries for the size-minus-k check: which (destination, length) parameter pairs
    of a function end up in a bounded write. */
module SizeMinusK {
  import opened Options
  import opened Reachability
  import Sequences

  datatype Sink = Sink(dstIdx: nat, lenIdx: nat)

  /** knownSink: the call is itself a library sink with these argument positions.
      args: for each actual argument, the caller's own parameter it carries, if any. */
  datatype CallSite = CallSite(knownSink: Option<Sink>, callee: Option<nat>, args: seq<Option<nat>>)

  datatype Function = Function(declaration: bool, arity: nat, calls: seq<CallSite>)

  type Program = seq<Function>
  type Summaries = map<nat, seq<Sink>>

  ghost predicate Wellformed(prog: Program) {
    forall f, call, i :: 0 <= f < |prog| && call in prog[f].calls && 0 <= i < |call.args| && call.args[i].Some? ==>
      call.args[i].value < prog[f].arity
  }

  // The declarative meaning

  datatype Fact = Fact(f: nat, sink: Sink)

  ghost predicate HandsOn(call: CallSite, position: nat, param: nat) {
    position < |call.args| && call.args[position] == Some(param)
  }

  /** The call hands the parameters of own on, as the destination and the length of sink. */
  ghost predicate Passes(call: CallSite, sink: Sink, own: Sink) {
    HandsOn(call, sink.dstIdx, own.dstIdx) && HandsOn(call, sink.lenIdx, own.lenIdx)
  }

  /** The caller's own parameters that a sink of the called function lands on. */
  function MapSink(call: CallSite, sink: Sink): (own: Option<Sink>)
    ensures own.Some? ==> Passes(call, sink, own.value)
    ensures own.None? ==> forall other :: !Passes(call, sink, other)
  {
    if sink.dstIdx >= |call.args| || sink.lenIdx >= |call.args| then None
    else
      match (call.args[sink.dstIdx], call.args[sink.lenIdx])
      case (Some(dst), Some(len)) => Some(Sink(dst, len))
      case _ => None
  }

  ghost predicate CallIn(prog: Program, f: nat, call: CallSite) {
    f < |prog| && !prog[f].declaration && call in prog[f].calls
  }

  predicate CallsDefined(prog: Program, call: CallSite, g: nat) {
    call.callee == Some(g) && g < |prog| && !prog[g].declaration
  }

  /** The call is a library sink on the caller's own parameters. */
  ghost predicate SinksInto(call: CallSite, sink: Sink) {
    call.knownSink.Some? && Passes(call, call.knownSink.value, sink)
  }

  /** The function passes its own arguments to a library sink. */
  ghost predicate DirectSink(prog: Program, x: Fact) {
    exists call :: CallIn(prog, x.f, call) && SinksInto(call, x.sink)
  }

  /** The function passes its own arguments to a sink of a function it calls. */
  ghost predicate WrapperSink(prog: Program, w: Fact, x: Fact) {
    exists call :: CallIn(prog, x.f, call) && CallsDefined(prog, call, w.f) && Passes(call, w.sink, x.sink)
  }

  ghost function DirectSinks(prog: Program): Fact -> bool {
    x => DirectSink(prog, x)
  }

  ghost function WrapperSteps(prog: Program): (Fact, Fact) -> bool {
    (w, x) => WrapperSink(prog, w, x)
  }

  /** The least set closed under both rules. */
  ghost predicate IsSink(prog: Program, x: Fact) {
    Reachable(DirectSinks(prog), WrapperSteps(prog), x)
  }

  ghost predicate Holds(s: Summaries, x: Fact) {
    x.f in s && x.sink in s[x.f]
  }

  ghost predicate SinksOnce(s: Summaries) {
    forall f :: f in s ==> Sequences.NoDuplicates(s[f])
  }

  ghost predicate Sound(prog: Program, s: Summaries) {
    forall x :: Holds(s, x) ==> IsSink(prog, x)
  }

  ghost predicate Grown(s: Summaries, t: Summaries) {
    forall x :: Holds(s, x) ==> Holds(t, x)
  }

  // Termination: only finitely many facts can ever be added

  ghost function SinkPairs(arity: nat): set<Sink> {
    set d: nat, l: nat | d < arity && l < arity :: Sink(d, l)
  }

  ghost function Universe(prog: Program): set<Fact> {
    set f: nat, p | f < |prog| && p in SinkPairs(prog[f].arity) :: Fact(f, p)
  }

  ghost function Missing(prog: Program, s: Summaries): set<Fact> {
    set x | x in Universe(prog) && !Holds(s, x)
  }

  lemma MappedIsPossible(prog: Program, f: nat, call: CallSite, sink: Sink)
    requires Wellformed(prog) && CallIn(prog, f, call) && MapSink(call, sink).Some?
    ensures Fact(f, MapSink(call, sink).value) in Universe(prog)
  {
    var mapped := MapSink(call, sink).value;
    assert mapped.dstIdx < prog[f].arity && mapped.lenIdx < prog[f].arity;
    assert mapped in SinkPairs(prog[f].arity);
  }

  // The loops

  /** addSummarySink. */
  method AddSummarySink(s: Summaries, f: nat, sink: Sink) returns (s': Summaries, added: bool)
    requires SinksOnce(s)
    ensures SinksOnce(s')
    ensures forall x :: Holds(s', x) <==> Holds(s, x) || x == Fact(f, sink)
    ensures added <==> !Holds(s, Fact(f, sink))
    ensures !added ==> s' == s
  {
    var sinks := if f in s then s[f] else [];
    if sink in sinks {
      return s, false;
    }
    s' := s[f := sinks + [sink]];
    added := true;
    forall x ensures Holds(s', x) <==> Holds(s, x) || x == Fact(f, sink) {
      assert x == Fact(x.f, x.sink);
    }
  }

  /** Pass 1: library sinks reached with the function's own arguments. */
  method DirectPass(prog: Program) returns (s: Summaries)
    ensures SinksOnce(s)
    ensures forall x :: Holds(s, x) <==> DirectSink(prog, x)
  {
    s := map[];
    for f := 0 to |prog|
      invariant SinksOnce(s)
      invariant forall x :: Holds(s, x) <==> x.f < f && DirectSink(prog, x)
    {
      if prog[f].declaration {
        continue;
      }
      var calls := prog[f].calls;
      for i := 0 to |calls|
        invariant SinksOnce(s)
        invariant forall x :: Holds(s, x) <==>
          || (x.f < f && DirectSink(prog, x))
          || (x.f == f && exists k :: 0 <= k < i && SinksInto(calls[k], x.sink))
      {
        var call := calls[i];
        if call.knownSink.Some? {
          var mapped := MapSink(call, call.knownSink.value);
          if mapped.Some? {
            var added;
            s, added := AddSummarySink(s, f, mapped.value);
          }
        }
      }
      forall x: Fact | x.f == f
        ensures DirectSink(prog, x) <==>
          exists k :: 0 <= k < |calls| && SinksInto(calls[k], x.sink)
      {
        if k :| 0 <= k < |calls| && SinksInto(calls[k], x.sink) {
          assert CallIn(prog, f, calls[k]);
        }
      }
    }
  }

  /** What one call adds, given the sinks its callee has when the call is visited. */
  ghost predicate AddsAt(call: CallSite, s: Summaries, f: nat, x: Fact) {
    && x.f == f && call.callee.Some?
    && exists w :: Holds(s, Fact(call.callee.value, w)) && Passes(call, w, x.sink)
  }

  method PropagateCall(prog: Program, f: nat, call: CallSite, s: Summaries) returns (s': Summaries, changed: bool)
    requires Wellformed(prog) && CallIn(prog, f, call) && SinksOnce(s)
    ensures SinksOnce(s')
    ensures forall x :: Holds(s', x) <==> Holds(s, x) || (CallsSomeDefined(prog, call) && AddsAt(call, s, f, x))
    ensures if changed then Missing(prog, s') < Missing(prog, s) else s' == s
  {
    s', changed := s, false;
    if call.callee.None? || call.callee.value >= |prog| || prog[call.callee.value].declaration {
      return;
    }
    if call.callee.value !in s {
      return;
    }
    var sinks := s[call.callee.value];
    for i := 0 to |sinks|
      invariant SinksOnce(s')
      invariant forall x :: Holds(s', x) <==>
        Holds(s, x) || (x.f == f && exists k :: 0 <= k < i && Passes(call, sinks[k], x.sink))
      invariant if changed then Missing(prog, s') < Missing(prog, s) else s' == s
    {
      var mapped := MapSink(call, sinks[i]);
      if mapped.Some? {
        ghost var before := s';
        var added;
        s', added := AddSummarySink(s', f, mapped.value);
        if added {
          MappedIsPossible(prog, f, call, sinks[i]);
          assert Fact(f, mapped.value) in Missing(prog, before);
          assert Missing(prog, s') <= Missing(prog, before);
          changed := true;
        }
      }
    }
    forall x ensures Holds(s', x) <==> Holds(s, x) || AddsAt(call, s, f, x) {
      AddsFromList(call, s, f, x);
    }
  }

  lemma AddsFromList(call: CallSite, s: Summaries, f: nat, x: Fact)
    requires call.callee.Some? && call.callee.value in s
    ensures var sinks := s[call.callee.value];
      AddsAt(call, s, f, x) <==> x.f == f && exists k :: 0 <= k < |sinks| && Passes(call, sinks[k], x.sink)
  {
    var g := call.callee.value;
    var sinks := s[g];
    if k :| 0 <= k < |sinks| && Passes(call, sinks[k], x.sink) {
      assert Holds(s, Fact(g, sinks[k]));
    }
    if AddsAt(call, s, f, x) {
      var w :| Holds(s, Fact(g, w)) && Passes(call, w, x.sink);
      var k :| 0 <= k < |sinks| && sinks[k] == w;
    }
  }

  predicate CallsSomeDefined(prog: Program, call: CallSite) {
    call.callee.Some? && CallsDefined(prog, call, call.callee.value)
  }

  lemma AddedIsSound(prog: Program, f: nat, call: CallSite, s: Summaries, x: Fact)
    requires Sound(prog, s) && CallIn(prog, f, call) && CallsSomeDefined(prog, call) && AddsAt(call, s, f, x)
    ensures IsSink(prog, x)
  {
    var w :| Holds(s, Fact(call.callee.value, w)) && Passes(call, w, x.sink);
    assert WrapperSteps(prog)(Fact(call.callee.value, w), x);
    StepReachable(DirectSinks(prog), WrapperSteps(prog), Fact(call.callee.value, w), x);
  }

  /** Every call of the first n in the function adds nothing to s. */
  ghost predicate Settled(prog: Program, f: nat, n: nat, s: Summaries)
    requires f < |prog| && n <= |prog[f].calls|
  {
    forall i, x :: 0 <= i < n && CallsSomeDefined(prog, prog[f].calls[i]) && AddsAt(prog[f].calls[i], s, f, x) ==>
      Holds(s, x)
  }

  method PropagateFunction(prog: Program, f: nat, s0: Summaries) returns (s: Summaries, changed: bool)
    requires Wellformed(prog) && f < |prog| && !prog[f].declaration
    requires SinksOnce(s0) && Sound(prog, s0)
    ensures SinksOnce(s) && Sound(prog, s) && Grown(s0, s)
    ensures if changed then Missing(prog, s) < Missing(prog, s0) else s == s0 && Settled(prog, f, |prog[f].calls|, s)
  {
    s, changed := s0, false;
    var calls := prog[f].calls;
    for i := 0 to |calls|
      invariant SinksOnce(s) && Sound(prog, s) && Grown(s0, s)
      invariant if changed then Missing(prog, s) < Missing(prog, s0) else s == s0 && Settled(prog, f, i, s)
    {
      assert CallIn(prog, f, calls[i]);
      ghost var before := s;
      var grew;
      s, grew := PropagateCall(prog, f, calls[i], s);
      forall x | Holds(s, x) ensures IsSink(prog, x) {
        if !Holds(before, x) { AddedIsSound(prog, f, calls[i], before, x); }
      }
      changed := changed || grew;
    }
  }

  /** One sweep of pass 2 over the module. */
  method PropagateOnce(prog: Program, s0: Summaries) returns (s: Summaries, changed: bool)
    requires Wellformed(prog) && SinksOnce(s0) && Sound(prog, s0)
    ensures SinksOnce(s) && Sound(prog, s) && Grown(s0, s)
    ensures if changed then Missing(prog, s) < Missing(prog, s0)
            else s == s0 && forall f :: 0 <= f < |prog| && !prog[f].declaration ==> Settled(prog, f, |prog[f].calls|, s)
  {
    s, changed := s0, false;
    for f := 0 to |prog|
      invariant SinksOnce(s) && Sound(prog, s) && Grown(s0, s)
      invariant if changed then Missing(prog, s) < Missing(prog, s0)
                else s == s0 && forall g :: 0 <= g < f && !prog[g].declaration ==> Settled(prog, g, |prog[g].calls|, s)
    {
      if prog[f].declaration {
        continue;
      }
      var grew;
      s, grew := PropagateFunction(prog, f, s);
      changed := changed || grew;
    }
  }

  /** buildSizeMinusKSummaries: terminates with exactly the least closed set, listing each
      pair once. */
  method BuildSummaries(prog: Program) returns (s: Summaries)
    requires Wellformed(prog)
    ensures SinksOnce(s)
    ensures forall x :: Holds(s, x) <==> IsSink(prog, x)
  {
    s := DirectPass(prog);
    ghost var direct := s;
    forall x | Holds(s, x) ensures IsSink(prog, x) {
      InitReachable(DirectSinks(prog), WrapperSteps(prog), x);
    }
    var changed := true;
    while changed
      invariant SinksOnce(s) && Sound(prog, s) && Grown(direct, s)
      invariant !changed ==> forall f :: 0 <= f < |prog| && !prog[f].declaration ==>
                Settled(prog, f, |prog[f].calls|, s)
      decreases Missing(prog, s), if changed then 1 else 0
    {
      s, changed := PropagateOnce(prog, s);
    }
    SettledIsClosed(prog, direct, s);
  }

  lemma SettledIsClosed(prog: Program, direct: Summaries, s: Summaries)
    requires forall x :: Holds(direct, x) <==> DirectSink(prog, x)
    requires Grown(direct, s)
    requires forall f :: 0 <= f < |prog| && !prog[f].declaration ==> Settled(prog, f, |prog[f].calls|, s)
    ensures forall x :: IsSink(prog, x) ==> Holds(s, x)
  {
    var inTable := x => Holds(s, x);
    forall w, x | inTable(w) && WrapperSteps(prog)(w, x) ensures inTable(x) {
      var call :| CallIn(prog, x.f, call) && CallsDefined(prog, call, w.f) && Passes(call, w.sink, x.sink);
      var i :| 0 <= i < |prog[x.f].calls| && prog[x.f].calls[i] == call;
      assert w == Fact(call.callee.value, w.sink);
      assert AddsAt(call, s, x.f, x);
      assert Settled(prog, x.f, |prog[x.f].calls|, s);
    }
    ClosedContainsReachable(DirectSinks(prog), WrapperSteps(prog), inTable);
    forall x | IsSink(prog, x) ensures Holds(s, x) {
      assert inTable(x);
    }
  }

  /** A table as BuildSummaries may return it, with any enumeration order of functions, calls
      and sinks, holds the same pairs for every function. */
  lemma VisitingOrderIsIrrelevant(prog: Program, s: Summaries, t: Summaries, f: nat)
    requires SinksOnce(s) && (forall x :: Holds(s, x) <==> IsSink(prog, x))
    requires SinksOnce(t) && (forall x :: Holds(t, x) <==> IsSink(prog, x))
    ensures multiset(if f in s then s[f] else []) == multiset(if f in t then t[f] else [])
  {
    var a, b := if f in s then s[f] else [], if f in t then t[f] else [];
    forall sink ensures sink in a <==> sink in b {
      assert Holds(s, Fact(f, sink)) <==> Holds(t, Fact(f, sink));
    }
    Sequences.NoDuplicatesMultiset(a);
    Sequences.NoDuplicatesMultiset(b);
    assert Sequences.Contents(a) == Sequences.Contents(b);
  }
}
