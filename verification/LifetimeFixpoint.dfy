/** The interprocedural resource-lifetime summaries: per-function effects computed in place,
    at most eight rounds over the module. */
module LifetimeFixpoint {
  import opened Options
  import opened MachineInt
  import opened Reachability
  import opened EffectSummaries
  import opened LifetimeRules
  import opened Sequences

  const MAX_ROUNDS: nat := 8

  // The declarative meaning: effects witnessed by a chain of calls ending in a model rule

  datatype Fact = Fact(f: nat, e: Effect)

  ghost predicate SiteOf(prog: Program, f: nat, site: CallSite) {
    Analysed(prog, f) && site in prog[f].sites
  }

  /** The effect comes straight from a model rule or from an imported summary. */
  ghost predicate EmitsDirectly(prog: Program, site: CallSite, e: Effect) {
    if site.rules != [] then exists rule :: rule in site.rules && RuleActs(site, rule, e)
    else exists effects, ce :: CallsImported(prog, site.callee, effects) && ce in effects && CallGives(site, ce, e)
  }

  /** The effect is what the call makes of an effect of the called function. */
  ghost predicate EmitsFrom(prog: Program, site: CallSite, w: Fact, e: Effect) {
    site.rules == [] && CallsAnalysed(prog, site.callee, w.f) && CallGives(site, w.e, e)
  }

  ghost predicate Direct(prog: Program, x: Fact) {
    exists site :: SiteOf(prog, x.f, site) && EmitsDirectly(prog, site, x.e)
  }

  ghost predicate ViaCall(prog: Program, w: Fact, x: Fact) {
    exists site :: SiteOf(prog, x.f, site) && EmitsFrom(prog, site, w, x.e)
  }

  ghost function DirectFacts(prog: Program): Fact -> bool {
    x => Direct(prog, x)
  }

  ghost function CallSteps(prog: Program): (Fact, Fact) -> bool {
    (w, x) => ViaCall(prog, w, x)
  }

  /** The least fixpoint. */
  ghost predicate Derivable(prog: Program, x: Fact) {
    Reachable(DirectFacts(prog), CallSteps(prog), x)
  }

  /** Derivable through at most n nested calls. */
  ghost predicate DerivableWithin(prog: Program, n: nat, x: Fact) {
    ReachIn(DirectFacts(prog), CallSteps(prog), n, x)
  }

  ghost predicate Holds(s: Summaries, x: Fact) {
    x.f in s && x.e in s[x.f]
  }

  /** One application of the rules on top of the current summaries. */
  ghost predicate Consequence(prog: Program, s: Summaries, x: Fact) {
    Direct(prog, x) || exists w :: Holds(s, w) && ViaCall(prog, w, x)
  }

  ghost predicate Wellformed(prog: Program, s: Summaries) {
    && (forall f :: f in s <==> Analysed(prog, f))
    && (forall f :: f in s ==> Canonical(s[f]))
  }

  // buildFunctionLifetimeSummary

  ghost predicate SiteEmits(prog: Program, s: Summaries, site: CallSite, e: Effect) {
    if site.rules != [] then exists rule :: rule in site.rules && RuleActs(site, rule, e)
    else exists ce :: ce in CalleeEffects(prog, s, site) && CallGives(site, ce, e)
  }

  function CalleeEffects(prog: Program, s: Summaries, site: CallSite): seq<Effect> {
    match SourceOf(prog, site.callee)
    case NoSummary => []
    case Internal(g) => if g in s then s[g] else []
    case External(effects) => effects
  }

  lemma SiteEmissions(prog: Program, s: Summaries, site: CallSite, e: Effect)
    ensures SiteEmits(prog, s, site, e) <==>
            EmitsDirectly(prog, site, e) || exists w :: Holds(s, w) && EmitsFrom(prog, site, w, e)
  {
    SourceIsKnown(prog, site.callee);
    if w :| Holds(s, w) && EmitsFrom(prog, site, w, e) {
      assert w.e in CalleeEffects(prog, s, site);
    }
    if SiteEmits(prog, s, site, e) && !EmitsDirectly(prog, site, e) {
      var ce :| ce in CalleeEffects(prog, s, site) && CallGives(site, ce, e);
      var w := Fact(SourceOf(prog, site.callee).f, ce);
      assert Holds(s, w) && EmitsFrom(prog, site, w, e);
    }
  }

  lemma ConsequenceIsEmission(prog: Program, s: Summaries, f: nat, e: Effect)
    requires Analysed(prog, f)
    ensures Consequence(prog, s, Fact(f, e)) <==> exists site :: site in prog[f].sites && SiteEmits(prog, s, site, e)
  {
    var x := Fact(f, e);
    if Consequence(prog, s, x) {
      if Direct(prog, x) {
        var site :| SiteOf(prog, f, site) && EmitsDirectly(prog, site, e);
        SiteEmissions(prog, s, site, e);
      } else {
        var w :| Holds(s, w) && ViaCall(prog, w, x);
        var site :| SiteOf(prog, f, site) && EmitsFrom(prog, site, w, e);
        SiteEmissions(prog, s, site, e);
      }
    }
    if site :| site in prog[f].sites && SiteEmits(prog, s, site, e) {
      assert SiteOf(prog, f, site);
      SiteEmissions(prog, s, site, e);
      if !EmitsDirectly(prog, site, e) {
        var w :| Holds(s, w) && EmitsFrom(prog, site, w, e);
        assert ViaCall(prog, w, x);
      }
    }
  }

  ghost predicate Collected(out: seq<Effect>, dedup: set<string>) {
    NoDuplicates(out) && KeysOf(dedup, out)
  }

  lemma AddOneEffect(out: seq<Effect>, dedup: set<string>, e: Effect)
    requires Collected(out, dedup)
    ensures EncodeKey(e) in dedup <==> e in out
    ensures EncodeKey(e) !in dedup ==> Collected(out + [e], dedup + {EncodeKey(e)})
    ensures Contents(out + [e]) == Contents(out) + {e}
  {
    KeysOfAdd(dedup, out, e);
  }

  /** addSummaryEffect, once per generated effect. */
  method AddSummaryEffects(out: seq<Effect>, dedup: set<string>, effects: seq<Effect>)
    returns (out': seq<Effect>, dedup': set<string>)
    requires Collected(out, dedup)
    ensures Collected(out', dedup')
    ensures forall e :: e in out' <==> e in out || e in effects
  {
    out', dedup' := out, dedup;
    for i := 0 to |effects|
      invariant Collected(out', dedup')
      invariant forall e :: e in out' <==> e in out || exists k :: 0 <= k < i && e == effects[k]
    {
      AddOneEffect(out', dedup', effects[i]);
      var key := EncodeKey(effects[i]);
      if key !in dedup' {
        dedup' := dedup' + {key};
        out' := out' + [effects[i]];
      }
    }
  }

  method AddRuleEffects(site: CallSite, out: seq<Effect>, dedup: set<string>)
    returns (out': seq<Effect>, dedup': set<string>)
    requires Collected(out, dedup)
    ensures Collected(out', dedup')
    ensures forall e :: e in out' <==>
            e in out || exists rule :: rule in site.rules && RuleActs(site, rule, e)
  {
    out', dedup' := out, dedup;
    for i := 0 to |site.rules|
      invariant Collected(out', dedup')
      invariant forall e :: e in out' <==> e in out || exists k :: 0 <= k < i && RuleActs(site, site.rules[k], e)
    {
      forall e ensures e in DirectEffects(site, site.rules[i]) <==> RuleActs(site, site.rules[i], e) {
        DirectEffectsAreRules(site, site.rules[i], e);
      }
      out', dedup' := AddSummaryEffects(out', dedup', DirectEffects(site, site.rules[i]));
    }
  }

  method AddCalleeEffects(site: CallSite, calleeEffects: seq<Effect>, out: seq<Effect>, dedup: set<string>)
    returns (out': seq<Effect>, dedup': set<string>)
    requires Collected(out, dedup)
    ensures Collected(out', dedup')
    ensures forall e :: e in out' <==>
            e in out || exists ce :: ce in calleeEffects && CallGives(site, ce, e)
  {
    out', dedup' := out, dedup;
    for i := 0 to |calleeEffects|
      invariant Collected(out', dedup')
      invariant forall e :: e in out' <==>
                e in out || exists k :: 0 <= k < i && CallGives(site, calleeEffects[k], e)
    {
      forall e ensures e in MappedEffects(site, calleeEffects[i]) <==> CallGives(site, calleeEffects[i], e) {
        MappedEffectsAreRules(site, calleeEffects[i], e);
      }
      out', dedup' := AddSummaryEffects(out', dedup', MappedEffects(site, calleeEffects[i]));
    }
  }

  method AddSiteEffects(prog: Program, s: Summaries, site: CallSite, out: seq<Effect>, dedup: set<string>)
    returns (out': seq<Effect>, dedup': set<string>)
    requires Collected(out, dedup)
    ensures Collected(out', dedup')
    ensures forall e :: e in out' <==> e in out || SiteEmits(prog, s, site, e)
  {
    if site.rules != [] {
      out', dedup' := AddRuleEffects(site, out, dedup);
    } else {
      out', dedup' := AddCalleeEffects(site, CalleeEffects(prog, s, site), out, dedup);
    }
  }

  /** The rebuilt summary holds exactly the consequences of the current table, in the one
      canonical order. */
  method BuildSummary(prog: Program, f: nat, s: Summaries) returns (out: seq<Effect>)
    requires Analysed(prog, f) && Wellformed(prog, s)
    ensures Canonical(out)
    ensures forall e :: e in out <==> Consequence(prog, s, Fact(f, e))
  {
    var dedup: set<string> := {};
    out := [];
    var sites := prog[f].sites;
    for i := 0 to |sites|
      invariant Collected(out, dedup)
      invariant forall e :: e in out <==> exists k :: 0 <= k < i && SiteEmits(prog, s, sites[k], e)
    {
      out, dedup := AddSiteEffects(prog, s, sites[i], out, dedup);
    }
    ghost var unsorted := out;
    SortCanonicalises(out);
    out := SortEffects(out);
    forall e ensures e in out <==> Consequence(prog, s, Fact(f, e)) {
      assert e in out <==> e in Contents(out);
      assert e in unsorted <==> e in Contents(unsorted);
      ConsequenceIsEmission(prog, s, f, e);
    }
  }

  // computeFunctionLifetimeSummaries

  ghost function CallerOf(): Fact -> nat {
    (x: Fact) => x.f
  }

  /** Derivable by a chain with at most n calls to a function that is not visited earlier in a
      round than its caller. Calls to earlier functions are free: their summaries are already
      those of the current round. */
  ghost predicate DerivableInRounds(prog: Program, n: nat, x: Fact) {
    ReachInRounds(DirectFacts(prog), CallSteps(prog), CallerOf(), n, x)
  }

  /** Present when function f is visited in the round after n complete ones. */
  ghost predicate ReadyBefore(prog: Program, n: nat, f: nat, w: Fact) {
    if w.f < f then DerivableInRounds(prog, n, w) else n > 0 && DerivableInRounds(prog, n - 1, w)
  }

  /** The table while function f is visited in the round after n complete ones, exactly. */
  ghost predicate AtVisit(prog: Program, s: Summaries, n: nat, f: nat) {
    Wellformed(prog, s) && forall x :: Holds(s, x) <==> ReadyBefore(prog, n, f, x)
  }

  ghost predicate Grown(s: Summaries, t: Summaries) {
    forall x :: Holds(s, x) ==> Holds(t, x)
  }

  ghost predicate Gained(s: Summaries, t: Summaries) {
    exists x :: Holds(t, x) && !Holds(s, x)
  }

  lemma DerivableUnfolds(prog: Program, n: nat, x: Fact)
    ensures DerivableInRounds(prog, n, x) <==>
            Direct(prog, x) || exists w :: ViaCall(prog, w, x) && ReadyBefore(prog, n, x.f, w)
  {
    if w :| ViaCall(prog, w, x) && ReadyBefore(prog, n, x.f, w) {
      assert CallSteps(prog)(w, x);
    }
    if DerivableInRounds(prog, n, x) && !DirectFacts(prog)(x) {
      var w :| CallSteps(prog)(w, x) &&
        if CallerOf()(w) < CallerOf()(x) then ReachInRounds(DirectFacts(prog), CallSteps(prog), CallerOf(), n, w)
        else n > 0 && ReachInRounds(DirectFacts(prog), CallSteps(prog), CallerOf(), n - 1, w);
      assert ViaCall(prog, w, x) && ReadyBefore(prog, n, x.f, w);
    }
  }

  lemma OnlyAnalysedDerive(prog: Program, n: nat, x: Fact)
    requires DerivableInRounds(prog, n, x)
    ensures Analysed(prog, x.f)
  {
    DerivableUnfolds(prog, n, x);
  }

  /** Rebuilding a summary from the exact table gives its exact next value. */
  lemma ConsequenceIsNext(prog: Program, s: Summaries, n: nat, f: nat, e: Effect)
    requires AtVisit(prog, s, n, f)
    ensures Consequence(prog, s, Fact(f, e)) <==> DerivableInRounds(prog, n, Fact(f, e))
  {
    var x := Fact(f, e);
    DerivableUnfolds(prog, n, x);
    if Consequence(prog, s, x) && !Direct(prog, x) {
      var w :| Holds(s, w) && ViaCall(prog, w, x);
      assert ReadyBefore(prog, n, x.f, w);
    }
    if DerivableInRounds(prog, n, x) && !Direct(prog, x) {
      var w :| ViaCall(prog, w, x) && ReadyBefore(prog, n, x.f, w);
      assert Holds(s, w);
    }
  }

  /** Overwriting one summary in place moves the exact table on by one function. */
  lemma UpdateIsExact(prog: Program, s: Summaries, n: nat, f: nat, out: seq<Effect>)
    requires AtVisit(prog, s, n, f) && Analysed(prog, f) && Canonical(out)
    requires forall e :: e in out <==> Consequence(prog, s, Fact(f, e))
    ensures AtVisit(prog, s[f := out], n, f + 1)
  {
    var t := s[f := out];
    forall x ensures Holds(t, x) <==> ReadyBefore(prog, n, f + 1, x) {
      if x.f == f {
        assert x == Fact(f, x.e);
        ConsequenceIsNext(prog, s, n, f, x.e);
      } else {
        assert Holds(t, x) <==> Holds(s, x);
      }
    }
  }

  lemma SkipIsExact(prog: Program, s: Summaries, n: nat, f: nat)
    requires AtVisit(prog, s, n, f) && !Analysed(prog, f)
    ensures AtVisit(prog, s, n, f + 1)
  {
    forall x ensures Holds(s, x) <==> ReadyBefore(prog, n, f + 1, x) {
      if x.f == f && DerivableInRounds(prog, n, x) {
        OnlyAnalysedDerive(prog, n, x);
      }
    }
  }

  /** Within a round and from round to round the table only grows. */
  lemma TableOnlyGrows(prog: Program, s: Summaries, t: Summaries, n: nat, f: nat, g: nat)
    requires AtVisit(prog, s, n, f) && AtVisit(prog, t, n, g) && f <= g
    ensures Grown(s, t)
  {
    forall x | Holds(s, x) ensures Holds(t, x) {
      assert ReadyBefore(prog, n, f, x);
      if x.f >= f && n > 0 {
        MoreRoundsReachMore(DirectFacts(prog), CallSteps(prog), CallerOf(), n - 1, n, x);
      }
      assert ReadyBefore(prog, n, g, x);
    }
  }

  lemma NewEffect(s: Summaries, t: Summaries, f: nat)
    requires f in s && f in t && Canonical(s[f]) && Canonical(t[f]) && s[f] != t[f] && Grown(s, t)
    ensures Gained(s, t)
  {
    if forall e :: e in t[f] ==> e in s[f] {
      forall e | e in s[f] ensures e in t[f] {
        assert Holds(s, Fact(f, e));
      }
      CanonicalUnique(s[f], t[f]);
    } else {
      var e :| e in t[f] && e !in s[f];
      assert Holds(t, Fact(f, e)) && !Holds(s, Fact(f, e));
    }
  }

  /** One function's turn in a round: rebuild its summary and store it if it differs. */
  method Revisit(prog: Program, s: Summaries, f: nat, changed: bool, ghost n: nat)
    returns (s': Summaries, changed': bool)
    requires f < |prog| && AtVisit(prog, s, n, f)
    ensures AtVisit(prog, s', n, f + 1)
    ensures if changed' == changed then Grown(s, s') && (!changed ==> s' == s) else changed' && Gained(s, s')
  {
    s', changed' := s, changed;
    if prog[f].analysed {
      var next := BuildSummary(prog, f, s);
      UpdateIsExact(prog, s, n, f, next);
      TableOnlyGrows(prog, s, s[f := next], n, f, f + 1);
      var same := SummaryEquals(s[f], next);
      if !same {
        s', changed' := s[f := next], true;
        NewEffect(s, s', f);
      } else {
        assert s[f := next] == s;
      }
    } else {
      SkipIsExact(prog, s, n, f);
    }
  }

  /** One round over the module, after n complete ones. */
  method Sweep(prog: Program, s0: Summaries, ghost n: nat) returns (s: Summaries, changed: bool)
    requires AtVisit(prog, s0, n, 0)
    ensures AtVisit(prog, s, n, |prog|) && Grown(s0, s)
    ensures if changed then Gained(s0, s) else s == s0
  {
    s, changed := s0, false;
    for f := 0 to |prog|
      invariant AtVisit(prog, s, n, f)
      invariant if changed then Gained(s0, s) else s == s0
    {
      ghost var before := s;
      s, changed := Revisit(prog, s, f, changed, n);
      TableOnlyGrows(prog, s0, before, n, 0, f);
      TableOnlyGrows(prog, before, s, n, f, f + 1);
    }
    TableOnlyGrows(prog, s0, s, n, 0, |prog|);
  }

  /** The end of one round is the start of the next. */
  lemma RoundIsComplete(prog: Program, s: Summaries, n: nat)
    requires AtVisit(prog, s, n, |prog|)
    ensures forall x :: Holds(s, x) <==> DerivableInRounds(prog, n, x)
    ensures AtVisit(prog, s, n + 1, 0)
  {
    forall x ensures Holds(s, x) <==> DerivableInRounds(prog, n, x) {
      assert Holds(s, x) <==> ReadyBefore(prog, n, |prog|, x);
      if DerivableInRounds(prog, n, x) {
        OnlyAnalysedDerive(prog, n, x);
      }
    }
  }

  /** Round n + 1 still finds effects. */
  ghost predicate DerivableLate(prog: Program, n: nat) {
    exists x :: LateFact(prog, n, x)
  }

  ghost predicate LateFact(prog: Program, n: nat, x: Fact) {
    DerivableInRounds(prog, n, x) && !(n > 0 && DerivableInRounds(prog, n - 1, x))
  }

  lemma LateIsGain(prog: Program, n: nat)
    ensures DerivableLate(prog, n) <==> GainsIn(DirectFacts(prog), CallSteps(prog), CallerOf(), n)
  {
    if GainsIn(DirectFacts(prog), CallSteps(prog), CallerOf(), n) {
      var x :| ReachInRounds(DirectFacts(prog), CallSteps(prog), CallerOf(), n, x)
        && !(n > 0 && ReachInRounds(DirectFacts(prog), CallSteps(prog), CallerOf(), n - 1, x));
      assert LateFact(prog, n, x);
    }
  }

  /** The exact result of the loop. */
  ghost predicate ReturnedBy(prog: Program, s: Summaries) {
    forall x :: Holds(s, x) <==> DerivableInRounds(prog, MAX_ROUNDS - 1, x)
  }

  /** computeFunctionLifetimeSummaries. On every exit, the cap included, the table holds exactly
      the effects with a chain of at most seven calls that go against the visiting order, and
      changed tells whether the eighth round was still finding some. */
  method ComputeSummaries(prog: Program) returns (s: Summaries, changed: bool)
    ensures Wellformed(prog, s)
    ensures ReturnedBy(prog, s)
    ensures changed <==> DerivableLate(prog, MAX_ROUNDS - 1)
    ensures !changed ==> Exact(prog, s)
    ensures changed ==> DeepFact(prog, MAX_ROUNDS - 2)
    ensures CompleteBelow(prog, s, MAX_ROUNDS) && WitnessedBelow(prog, s, MAX_ROUNDS * |prog|)
  {
    s := map f: nat | f < |prog| && prog[f].analysed :: [];
    changed := true;
    var iter := 0;
    EmptyTable(prog, s);
    while iter < MAX_ROUNDS && changed
      invariant iter <= MAX_ROUNDS && RoundsDone(prog, s, changed, iter)
    {
      s, changed := Round(prog, s, iter);
      iter := iter + 1;
    }
    Result(prog, s, changed, iter);
  }

  lemma EmptyTable(prog: Program, s: Summaries)
    requires s == map f: nat | f < |prog| && prog[f].analysed :: []
    ensures RoundsDone(prog, s, true, 0)
  {
  }

  lemma Result(prog: Program, s: Summaries, changed: bool, rounds: nat)
    requires rounds <= MAX_ROUNDS && RoundsDone(prog, s, changed, rounds) && (changed ==> rounds == MAX_ROUNDS)
    ensures Wellformed(prog, s) && ReturnedBy(prog, s)
    ensures changed <==> DerivableLate(prog, MAX_ROUNDS - 1)
    ensures !changed ==> Exact(prog, s)
    ensures changed ==> DeepFact(prog, MAX_ROUNDS - 2)
    ensures CompleteBelow(prog, s, MAX_ROUNDS) && WitnessedBelow(prog, s, MAX_ROUNDS * |prog|)
  {
    RoundsOver(prog, s, changed, rounds);
    ResultIsExactWhen(prog, s);
    ResultBounds(prog, s);
  }

  ghost predicate RoundsDone(prog: Program, s: Summaries, changed: bool, rounds: nat) {
    && AtVisit(prog, s, rounds, 0)
    && (rounds > 0 ==> (changed <==> DerivableLate(prog, rounds - 1)))
    && (rounds == 0 ==> changed)
  }

  method Round(prog: Program, s0: Summaries, ghost rounds: nat) returns (s: Summaries, changed: bool)
    requires AtVisit(prog, s0, rounds, 0)
    ensures RoundsDone(prog, s, changed, rounds + 1)
    ensures Grown(s0, s)
  {
    s, changed := Sweep(prog, s0, rounds);
    RoundIsComplete(prog, s, rounds);
    GainIsLate(prog, s0, s, rounds);
  }

  lemma GainIsLate(prog: Program, s0: Summaries, s: Summaries, n: nat)
    requires AtVisit(prog, s0, n, 0) && forall x :: Holds(s, x) <==> DerivableInRounds(prog, n, x)
    ensures Gained(s0, s) <==> DerivableLate(prog, n)
    ensures s == s0 ==> !DerivableLate(prog, n)
  {
    forall x ensures Holds(s0, x) <==> n > 0 && DerivableInRounds(prog, n - 1, x) {
      assert Holds(s0, x) <==> ReadyBefore(prog, n, 0, x);
    }
    forall x ensures LateFact(prog, n, x) <==> Holds(s, x) && !Holds(s0, x) {}
  }

  lemma RoundsOver(prog: Program, s: Summaries, changed: bool, rounds: nat)
    requires rounds <= MAX_ROUNDS && RoundsDone(prog, s, changed, rounds) && (changed ==> rounds == MAX_ROUNDS)
    ensures ReturnedBy(prog, s)
    ensures changed <==> DerivableLate(prog, MAX_ROUNDS - 1)
  {
    forall x ensures Holds(s, x) <==> DerivableInRounds(prog, MAX_ROUNDS - 1, x) {
      assert Holds(s, x) <==> ReadyBefore(prog, rounds, 0, x);
      if changed {
        assert rounds - 1 == MAX_ROUNDS - 1;
      } else {
        SettledStays(prog, rounds - 1, MAX_ROUNDS - 1, x);
      }
    }
    if !changed {
      NeverLater(prog, rounds - 1, MAX_ROUNDS - 1);
    }
  }

  /** After a round that finds nothing new, more rounds change nothing. */
  lemma SettledStays(prog: Program, n: nat, m: nat, x: Fact)
    requires !DerivableLate(prog, n) && n <= m
    ensures DerivableInRounds(prog, m, x) <==> DerivableInRounds(prog, n, x)
  {
    LateIsGain(prog, n);
    if DerivableInRounds(prog, m, x) {
      NothingLater(DirectFacts(prog), CallSteps(prog), CallerOf(), n, m, x);
    }
    if DerivableInRounds(prog, n, x) {
      MoreRoundsReachMore(DirectFacts(prog), CallSteps(prog), CallerOf(), n, m, x);
    }
  }

  lemma NeverLater(prog: Program, n: nat, m: nat)
    requires !DerivableLate(prog, n) && n <= m
    ensures !DerivableLate(prog, m)
  {
    LateIsGain(prog, n);
    LateIsGain(prog, m);
    NoLaterGain(DirectFacts(prog), CallSteps(prog), CallerOf(), n, m);
  }

  // What the exact table means against the least fixpoint

  /** Soundness: everything in the table has a witnessing call chain of fewer than depth calls. */
  ghost predicate WitnessedBelow(prog: Program, s: Summaries, depth: nat) {
    forall x :: Holds(s, x) ==> depth > 0 && DerivableWithin(prog, depth - 1, x)
  }

  /** Completeness: every effect whose call chain has fewer than depth calls is in the table. */
  ghost predicate CompleteBelow(prog: Program, s: Summaries, depth: nat) {
    depth > 0 ==> forall x :: DerivableWithin(prog, depth - 1, x) ==> Holds(s, x)
  }

  ghost predicate Exact(prog: Program, s: Summaries) {
    forall x :: Holds(s, x) <==> Derivable(prog, x)
  }

  /** Some effect needs more than n nested calls. */
  ghost predicate DeepFact(prog: Program, n: nat) {
    exists x :: Derivable(prog, x) && !DerivableWithin(prog, n, x)
  }

  /** Chains within n rounds are chains, of bounded length. */
  lemma RoundsAreCalls(prog: Program, n: nat, x: Fact)
    requires DerivableInRounds(prog, n, x)
    ensures x.f < |prog| && DerivableWithin(prog, n * |prog| + x.f, x)
  {
    OnlyAnalysedDerive(prog, n, x);
    OwnersAreFunctions(prog);
    RoundsAreSteps(DirectFacts(prog), CallSteps(prog), CallerOf(), |prog|, n, x);
    StepsInIsProduct(|prog|, n);
  }

  /** n calls never need more than n rounds. */
  lemma CallsAreRounds(prog: Program, n: nat, x: Fact)
    requires DerivableWithin(prog, n, x)
    ensures DerivableInRounds(prog, n, x)
  {
    StepsAreRounds(DirectFacts(prog), CallSteps(prog), CallerOf(), n, x);
  }

  /** The returned table is the least fixpoint if and only if no derivable effect needs more
      than seven calls against the visiting order. */
  lemma ResultIsExactWhen(prog: Program, s: Summaries)
    requires ReturnedBy(prog, s)
    ensures Exact(prog, s) <==> forall x :: Derivable(prog, x) ==> DerivableInRounds(prog, MAX_ROUNDS - 1, x)
    ensures !DerivableLate(prog, MAX_ROUNDS - 1) ==> Exact(prog, s)
  {
    forall x | DerivableInRounds(prog, MAX_ROUNDS - 1, x) ensures Derivable(prog, x) {
      RoundsAreCalls(prog, MAX_ROUNDS - 1, x);
    }
    if !DerivableLate(prog, MAX_ROUNDS - 1) {
      forall x | Derivable(prog, x) ensures Holds(s, x) {
        var n: nat :| ReachIn(DirectFacts(prog), CallSteps(prog), n, x);
        CallsAreRounds(prog, n, x);
        if n <= MAX_ROUNDS - 1 {
          MoreRoundsReachMore(DirectFacts(prog), CallSteps(prog), CallerOf(), n, MAX_ROUNDS - 1, x);
        } else {
          SettledStays(prog, MAX_ROUNDS - 1, n, x);
        }
      }
    }
  }

  /** Bounds that do not mention the visiting order: every effect through at most seven nested
      calls is recorded, every recorded effect has a chain of fewer than 8 |prog| calls, and a
      gain in the last round means that some effect needs more than six. */
  lemma ResultBounds(prog: Program, s: Summaries)
    requires ReturnedBy(prog, s)
    ensures CompleteBelow(prog, s, MAX_ROUNDS) && WitnessedBelow(prog, s, MAX_ROUNDS * |prog|)
    ensures DerivableLate(prog, MAX_ROUNDS - 1) ==> DeepFact(prog, MAX_ROUNDS - 2)
  {
    var last := MAX_ROUNDS - 1;
    if x :| LateFact(prog, last, x) {
      LateIsDeep(prog, last, x);
    }
    forall x | DerivableWithin(prog, last, x) ensures Holds(s, x) {
      CallsAreRounds(prog, last, x);
    }
    forall x | Holds(s, x) ensures MAX_ROUNDS * |prog| > 0 && DerivableWithin(prog, MAX_ROUNDS * |prog| - 1, x) {
      RoundsAreBoundedCalls(prog, x);
    }
  }

  lemma RoundsAreBoundedCalls(prog: Program, x: Fact)
    requires DerivableInRounds(prog, MAX_ROUNDS - 1, x)
    ensures MAX_ROUNDS * |prog| > 0 && DerivableWithin(prog, MAX_ROUNDS * |prog| - 1, x)
  {
    OnlyAnalysedDerive(prog, MAX_ROUNDS - 1, x);
    OwnersAreFunctions(prog);
    RoundsAreBounded(DirectFacts(prog), CallSteps(prog), CallerOf(), |prog|, MAX_ROUNDS - 1, x);
  }

  lemma OwnersAreFunctions(prog: Program)
    ensures OwnersBelow(CallSteps(prog), CallerOf(), |prog|)
  {
    forall w, y | CallSteps(prog)(w, y) ensures CallerOf()(w) < |prog| {
      assert ViaCall(prog, w, y);
    }
  }

  lemma LateIsDeep(prog: Program, n: nat, x: Fact)
    requires n > 0 && LateFact(prog, n, x)
    ensures DeepFact(prog, n - 1)
  {
    RoundsAreCalls(prog, n, x);
    if DerivableWithin(prog, n - 1, x) {
      CallsAreRounds(prog, n - 1, x);
    }
    assert Derivable(prog, x);
  }

  /** What the returned table holds, in terms of the rules alone: every effect a call site has of
      its own, and beyond these only what calls make of effects it holds; all of that too unless
      the eighth round was still finding some. */
  lemma ResultFollowsRules(prog: Program, s: Summaries)
    requires ReturnedBy(prog, s)
    ensures forall x :: Direct(prog, x) ==> Holds(s, x)
    ensures forall x :: Holds(s, x) ==> Consequence(prog, s, x)
    ensures !DerivableLate(prog, MAX_ROUNDS - 1) ==> forall x :: Consequence(prog, s, x) ==> Holds(s, x)
  {
    var last := MAX_ROUNDS - 1;
    forall x ensures (Direct(prog, x) ==> Holds(s, x)) && (Holds(s, x) ==> Consequence(prog, s, x)) {
      DerivableUnfolds(prog, last, x);
      if Holds(s, x) && !Direct(prog, x) {
        var w :| ViaCall(prog, w, x) && ReadyBefore(prog, last, x.f, w);
        if w.f >= x.f {
          MoreRoundsReachMore(DirectFacts(prog), CallSteps(prog), CallerOf(), last - 1, last, w);
        }
        assert Holds(s, w);
      }
    }
    if !DerivableLate(prog, last) {
      ResultIsExactWhen(prog, s);
      forall x | Consequence(prog, s, x) ensures Holds(s, x) {
        if w :| Holds(s, w) && ViaCall(prog, w, x) {
          StepReachable(DirectFacts(prog), CallSteps(prog), w, x);
        }
      }
    }
  }

  /** If every call goes to a function visited earlier, the first round finds everything. */
  lemma CalleesFirstIsExact(prog: Program, s: Summaries)
    requires ReturnedBy(prog, s)
    requires forall w, x :: ViaCall(prog, w, x) ==> w.f < x.f
    ensures Exact(prog, s) && !DerivableLate(prog, 1)
  {
    forall w, x | CallSteps(prog)(w, x) ensures CallerOf()(w) < CallerOf()(x) {
      assert ViaCall(prog, w, x);
    }
    forall x | LateFact(prog, 1, x) ensures false {
      OneRoundIsEnough(DirectFacts(prog), CallSteps(prog), CallerOf(), 1, x);
    }
    NeverLater(prog, 1, MAX_ROUNDS - 1);
    ResultIsExactWhen(prog, s);
  }

  /** An exact table is unique, so a converged result depends neither on the order in which
      functions are visited nor on when each update happens. */
  lemma ExactTableUnique(prog: Program, s: Summaries, t: Summaries)
    requires Wellformed(prog, s) && Exact(prog, s)
    requires Wellformed(prog, t) && Exact(prog, t)
    ensures s == t
  {
    assert s.Keys == t.Keys;
    forall f | f in s ensures s[f] == t[f] {
      forall e ensures e in s[f] <==> e in t[f] {
        assert Holds(s, Fact(f, e)) <==> Holds(t, Fact(f, e));
      }
      CanonicalUnique(s[f], t[f]);
    }
  }

  // The round cap is a real loss: a recursive function that releases its argument and calls
  // itself on the next element of eight bytes

  function ReleaseSite(): CallSite {
    CallSite(Callee(false, true, false, 0, None), [Rule(ReleaseArg, 0, "handle")],
             [Actual(Storage(true, 0, 0), None, false, Storage(true, 0, 0), Some((Parameter(0), 0)), map[])],
             true, false, [])
  }

  function RecursiveSite(): CallSite {
    CallSite(Callee(false, false, false, 0, None), [],
             [Actual(Storage(true, 0, 8), None, false, Storage(true, 0, 8), Some((Parameter(0), 8)), map[])],
             true, false, [])
  }

  function StrideProgram(): Program {
    [Function(true, [ReleaseSite(), RecursiveSite()])]
  }

  function ReleaseAt(offset: nat): Fact {
    Fact(0, Effect(ReleaseArg, 0, offset, false, "handle"))
  }

  lemma StrideSites(site: CallSite)
    ensures SiteOf(StrideProgram(), 0, site) <==> site == ReleaseSite() || site == RecursiveSite()
  {
    assert StrideProgram()[0].sites[0] == ReleaseSite() && StrideProgram()[0].sites[1] == RecursiveSite();
  }

  lemma StrideDirect(x: Fact)
    ensures Direct(StrideProgram(), x) <==> x == ReleaseAt(0)
  {
    var prog := StrideProgram();
    if Direct(prog, x) {
      var site :| SiteOf(prog, x.f, site) && EmitsDirectly(prog, site, x.e);
      StrideSites(site);
    }
    StrideSites(ReleaseSite());
    var rule := ReleaseSite().rules[0];
    assert HasActual(ReleaseSite(), 0, ReleaseSite().actuals[0]);
    assert rule in ReleaseSite().rules && RuleActs(ReleaseSite(), rule, ReleaseAt(0).e);
    assert EmitsDirectly(prog, ReleaseSite(), ReleaseAt(0).e);
  }

  lemma StrideStep(offset: nat, x: Fact)
    requires offset + 8 <= UINT64_MAX
    ensures ViaCall(StrideProgram(), ReleaseAt(offset), x) <==> x == ReleaseAt(offset + 8)
  {
    var prog := StrideProgram();
    MappedEffectsAreRules(RecursiveSite(), ReleaseAt(offset).e, x.e);
    assert MappedEffects(RecursiveSite(), ReleaseAt(offset).e) == [ReleaseAt(offset + 8).e];
    StrideSites(RecursiveSite());
    if ViaCall(prog, ReleaseAt(offset), x) {
      var site :| SiteOf(prog, x.f, site) && EmitsFrom(prog, site, ReleaseAt(offset), x.e);
      StrideSites(site);
    }
    if x == ReleaseAt(offset + 8) {
      assert EmitsFrom(prog, RecursiveSite(), ReleaseAt(offset), x.e);
    }
  }

  lemma {:induction false} StrideDepth(n: nat, x: Fact)
    requires n <= 8 && DerivableWithin(StrideProgram(), n, x)
    ensures exists k :: 0 <= k <= n && x == ReleaseAt(8 * k)
  {
    StrideDirect(x);
    if Direct(StrideProgram(), x) {
      assert x == ReleaseAt(8 * 0);
    } else {
      var w :| DerivableWithin(StrideProgram(), n - 1, w) && CallSteps(StrideProgram())(w, x);
      StrideDepth(n - 1, w);
      var k :| 0 <= k <= n - 1 && w == ReleaseAt(8 * k);
      StrideStep(8 * k, x);
      assert x == ReleaseAt(8 * (k + 1));
    }
  }

  lemma {:induction false} StrideDerivable(k: nat)
    requires 8 * k <= UINT64_MAX
    ensures DerivableWithin(StrideProgram(), k, ReleaseAt(8 * k))
  {
    StrideDirect(ReleaseAt(8 * k));
    if k > 0 {
      StrideDerivable(k - 1);
      StrideStep(8 * (k - 1), ReleaseAt(8 * k));
      assert CallSteps(StrideProgram())(ReleaseAt(8 * (k - 1)), ReleaseAt(8 * k));
    }
  }

  /** The release at offset 64 really happens, yet ComputeSummaries does not return it. */
  lemma RoundCapLosesEffects()
    ensures Derivable(StrideProgram(), ReleaseAt(64))
    ensures !DerivableInRounds(StrideProgram(), MAX_ROUNDS - 1, ReleaseAt(64))
  {
    StrideDerivable(8);
    if DerivableInRounds(StrideProgram(), MAX_ROUNDS - 1, ReleaseAt(64)) {
      RoundsAreCalls(StrideProgram(), MAX_ROUNDS - 1, ReleaseAt(64));
      StrideDepth(7, ReleaseAt(64));
      assert false;
    }
  }
}
