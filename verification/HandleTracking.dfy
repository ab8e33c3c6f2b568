/** Counting acquisitions and releases of local handles, and what gets reported about them. */
module HandleTracking {
  import opened Options

  datatype Scope = UnknownScope | Local | Global | Argument | ThisField

  datatype Storage = Storage(scope: Scope, key: string, localAlloca: Option<nat>, offset: nat)

  predicate ValidStorage(s: Storage) {
    s.scope != UnknownScope && s.key != []
  }

  /** What localStates is keyed by. */
  datatype Handle = Handle(storage: Storage, resourceKind: string)

  datatype Event = Acquire(handle: Handle) | Release(handle: Handle, fromSummary: bool)

  /** Facts about stack slots that other parts of the analysis answer. */
  datatype Env = Env(
    argumentShadow: nat -> bool,
    externalStore: (nat, nat) -> bool,
    escapesToUnmodeledCall: nat -> bool,
    worthReporting: Storage -> bool)

  datatype Ownership = UnknownOwner | Owned | Released

  datatype HandleState = HandleState(acquires: nat, releases: nat, ownership: Ownership)

  const NO_STATE := HandleState(0, 0, UnknownOwner)

  datatype Verdict = Fine | Excused | Doubted | DoubleRelease

  /** The verdict of trackRelease on a release, given the counts after it. */
  function ReleaseVerdict(env: Env, handle: Handle, acquires: nat, releases: nat, fromSummary: bool): Verdict {
    if releases <= acquires then Fine
    else if acquires == 0 && handle.storage.localAlloca.Some? then
      var slot := handle.storage.localAlloca.value;
      if env.argumentShadow(slot) then Excused
      else if env.externalStore(slot, handle.storage.offset) then Doubted
      else if env.escapesToUnmodeledCall(slot) then Doubted
      else if fromSummary then Doubted
      else DoubleRelease
    else DoubleRelease
  }

  // One handle on its own

  datatype Run = Run(state: HandleState, doubles: nat, doubted: bool)

  /** The effect of one event on its handle. */
  function StepHandle(env: Env, run: Run, e: Event): Run {
    if !ValidStorage(e.handle.storage) then run
    else
      var s := run.state;
      match e
      case Acquire(h) => run.(state := HandleState(s.acquires + 1, s.releases, Owned))
      case Release(h, fromSummary) =>
        if h.storage.scope != Local then run
        else
          var releases := s.releases + 1;
          match ReleaseVerdict(env, h, s.acquires, releases, fromSummary)
          case Fine =>
            run.(state := HandleState(s.acquires, releases, if releases == s.acquires then Released else Owned))
          case Excused => run.(state := HandleState(s.acquires, releases, s.ownership))
          case Doubted =>
            run.(state := HandleState(s.acquires, releases, UnknownOwner),
                 doubted := run.doubted || env.worthReporting(h.storage))
          case DoubleRelease =>
            run.(state := HandleState(s.acquires, releases, s.ownership), doubles := run.doubles + 1)
  }

  ghost function RunHandle(env: Env, events: seq<Event>): Run {
    if events == [] then Run(NO_STATE, 0, false)
    else StepHandle(env, RunHandle(env, events[..|events| - 1]), events[|events| - 1])
  }

  ghost function Project(events: seq<Event>, h: Handle): seq<Event> {
    if events == [] then []
    else
      var last := events[|events| - 1];
      Project(events[..|events| - 1], h) + (if last.handle == h then [last] else [])
  }

  // The tracker, all handles interleaved

  datatype IssueKind = DoubleReleaseIssue | IncompleteInterprocIssue | MissingReleaseIssue

  datatype Issue = Issue(kind: IssueKind, handle: Handle)

  ghost function Count(issues: seq<Issue>, issue: Issue): nat {
    multiset(issues)[issue]
  }

  /** The tables agree with the handle's own run. */
  ghost predicate Reflects(h: Handle, state: HandleState, issues: seq<Issue>, reported: set<Handle>, run: Run) {
    && state == run.state
    && Count(issues, Issue(DoubleReleaseIssue, h)) == run.doubles
    && Count(issues, Issue(IncompleteInterprocIssue, h)) == (if run.doubted then 1 else 0)
    && Count(issues, Issue(MissingReleaseIssue, h)) == 0
    && (h in reported <==> run.doubted)
  }

  /** How one release of h, with the counts already in s, changes the tables. */
  ghost predicate Recorded(env: Env, h: Handle, s: HandleState, fromSummary: bool, issues: seq<Issue>,
                           reported: set<Handle>, s': HandleState, issues': seq<Issue>, reported': set<Handle>) {
    var verdict := ReleaseVerdict(env, h, s.acquires, s.releases, fromSummary);
    var newDoubt := verdict == Doubted && env.worthReporting(h.storage) && h !in reported;
    && s' == (match verdict
              case Fine => s.(ownership := if s.releases == s.acquires then Released else Owned)
              case Doubted => s.(ownership := UnknownOwner)
              case _ => s)
    && issues' == (if verdict == DoubleRelease then issues + [Issue(DoubleReleaseIssue, h)]
                   else if newDoubt then issues + [Issue(IncompleteInterprocIssue, h)] else issues)
    && reported' == (if newDoubt then reported + {h} else reported)
  }

  lemma AcquireReflects(env: Env, h: Handle, s: HandleState, issues: seq<Issue>, reported: set<Handle>, run: Run)
    requires ValidStorage(h.storage) && Reflects(h, s, issues, reported, run)
    ensures Reflects(h, HandleState(s.acquires + 1, s.releases, Owned), issues, reported,
            StepHandle(env, run, Acquire(h)))
  {
  }

  lemma RecordedReflects(env: Env, h: Handle, s0: HandleState, fromSummary: bool, issues: seq<Issue>,
                         reported: set<Handle>,
                         s': HandleState, issues': seq<Issue>, reported': set<Handle>, run: Run)
    requires ValidStorage(h.storage) && h.storage.scope == Local && Reflects(h, s0, issues, reported, run)
    requires Recorded(env, h, s0.(releases := s0.releases + 1), fromSummary, issues, reported, s', issues', reported')
    ensures Reflects(h, s', issues', reported', StepHandle(env, run, Release(h, fromSummary)))
  {
  }

  lemma OthersUnaffected(env: Env, h: Handle, s: HandleState, fromSummary: bool, issues: seq<Issue>,
                         reported: set<Handle>,
                         s': HandleState, issues': seq<Issue>, reported': set<Handle>,
                         k: Handle, state: HandleState, run: Run)
    requires k != h && Reflects(k, state, issues, reported, run)
    requires Recorded(env, h, s, fromSummary, issues, reported, s', issues', reported')
    ensures Reflects(k, state, issues', reported', run)
  {
  }

  class HandleTracker {
    const env: Env
    var localStates: map<Handle, HandleState>
    var interprocReported: set<Handle>
    var escapeCache: map<nat, bool>
    var issues: seq<Issue>

    constructor (env: Env)
      ensures this.env == env && Matches([])
    {
      this.env := env;
      localStates, interprocReported, escapeCache, issues := map[], {}, map[], [];
    }

    function StateOf(h: Handle): HandleState
      reads this
    {
      if h in localStates then localStates[h] else NO_STATE
    }

    ghost predicate CacheCorrect()
      reads this
    {
      forall slot :: slot in escapeCache ==> escapeCache[slot] == env.escapesToUnmodeledCall(slot)
    }

    /** Every handle looks exactly as if only its own events had happened. */
    ghost predicate Matches(events: seq<Event>)
      reads this
    {
      && CacheCorrect()
      && (forall h :: MatchesHandle(h, RunHandle(env, Project(events, h))))
    }

    ghost predicate MatchesHandle(h: Handle, run: Run)
      reads this
    {
      Reflects(h, StateOf(h), issues, interprocReported, run)
    }

    method TrackAcquire(h: Handle, ghost events: seq<Event>)
      requires Matches(events)
      modifies this
      ensures Matches(events + [Acquire(h)])
    {
      ghost var e := Acquire(h);
      ProjectStep(env, events, e);
      if !ValidStorage(h.storage) {
        return;
      }
      var s := StateOf(h);
      localStates := localStates[h := HandleState(s.acquires + 1, s.releases, Owned)];
      forall k ensures MatchesHandle(k, RunHandle(env, Project(events + [e], k))) {
        ghost var run := RunHandle(env, Project(events, k));
        assert old(MatchesHandle(k, run));
        if k == h {
          AcquireReflects(env, h, s, issues, interprocReported, run);
        }
      }
    }

    method TrackRelease(h: Handle, fromSummary: bool, ghost events: seq<Event>)
      requires Matches(events)
      modifies this
      ensures Matches(events + [Release(h, fromSummary)])
    {
      ghost var e := Release(h, fromSummary);
      ProjectStep(env, events, e);
      if !ValidStorage(h.storage) || h.storage.scope != Local {
        return;
      }
      var s0 := StateOf(h);
      var s := s0.(releases := s0.releases + 1);
      var s' := s;
      ghost var issues0, reported0 := issues, interprocReported;
      if s.releases > s.acquires {
        s' := ReportSurplus(h, s, fromSummary);
      } else if s.releases == s.acquires {
        s' := s.(ownership := Released);
      } else {
        s' := s.(ownership := Owned);
      }
      localStates := localStates[h := s'];
      assert Recorded(env, h, s, fromSummary, issues0, reported0, s', issues, interprocReported);
      forall k ensures MatchesHandle(k, RunHandle(env, Project(events + [e], k))) {
        ghost var run := RunHandle(env, Project(events, k));
        assert old(MatchesHandle(k, run));
        if k == h {
          RecordedReflects(env, h, s0, fromSummary, issues0, reported0, s', issues, interprocReported, run);
        } else {
          OthersUnaffected(env, h, s, fromSummary, issues0, reported0, s', issues, interprocReported,
                           k, StateOf(k), run);
        }
      }
    }

    /** More releases than acquisitions: excused, doubted, or reported. */
    method ReportSurplus(h: Handle, s: HandleState, fromSummary: bool) returns (s': HandleState)
      requires CacheCorrect() && s.releases > s.acquires
      modifies this`issues, this`interprocReported, this`escapeCache
      ensures CacheCorrect()
      ensures Recorded(env, h, s, fromSummary, old(issues), old(interprocReported), s', issues, interprocReported)
    {
      s' := s;
      if s.acquires == 0 && h.storage.localAlloca.Some? {
        var slot := h.storage.localAlloca.value;
        if env.argumentShadow(slot) {
          return;
        }
        if env.externalStore(slot, h.storage.offset) {
          EmitIncompleteInterproc(h);
          s' := s.(ownership := UnknownOwner);
          return;
        }
        var mayEscape := MayEscape(slot);
        if mayEscape {
          EmitIncompleteInterproc(h);
          s' := s.(ownership := UnknownOwner);
          return;
        }
        if fromSummary {
          EmitIncompleteInterproc(h);
          s' := s.(ownership := UnknownOwner);
          return;
        }
      }
      issues := issues + [Issue(DoubleReleaseIssue, h)];
    }

    /** The memoised slot query. */
    method MayEscape(slot: nat) returns (escapes: bool)
      requires CacheCorrect()
      modifies this`escapeCache
      ensures CacheCorrect() && escapes == env.escapesToUnmodeledCall(slot)
    {
      if slot !in escapeCache {
        escapeCache := escapeCache[slot := env.escapesToUnmodeledCall(slot)];
      }
      escapes := escapeCache[slot];
    }

    method EmitIncompleteInterproc(h: Handle)
      modifies this`issues, this`interprocReported
      ensures if env.worthReporting(h.storage) && h !in old(interprocReported)
              then issues == old(issues) + [Issue(IncompleteInterprocIssue, h)] &&
                interprocReported == old(interprocReported) + {h}
              else issues == old(issues) && interprocReported == old(interprocReported)
    {
      if !env.worthReporting(h.storage) {
        return;
      }
      if h !in interprocReported {
        interprocReported := interprocReported + {h};
        issues := issues + [Issue(IncompleteInterprocIssue, h)];
      }
    }

    /** The closing loop over all handles. */
    method ReportMissingReleases(escapesViaReturn: Handle -> bool, ghost events: seq<Event>)
      requires Matches(events)
      modifies this`issues
      ensures forall h ::
                Count(issues, Issue(DoubleReleaseIssue, h)) ==
                old(Count(issues, Issue(DoubleReleaseIssue, h)))
      ensures forall h ::
                Count(issues, Issue(IncompleteInterprocIssue, h)) ==
                old(Count(issues, Issue(IncompleteInterprocIssue, h)))
      ensures forall h :: Count(issues, Issue(MissingReleaseIssue, h)) ==
                if IsMissing(env, escapesViaReturn, h, StateOf(h)) then 1 else 0
    {
      forall h ensures Count(issues, Issue(MissingReleaseIssue, h)) == 0 {
        assert MatchesHandle(h, RunHandle(env, Project(events, h)));
      }
      var todo := localStates.Keys;
      while todo != {}
        invariant todo <= localStates.Keys
        invariant forall h ::
                    Count(issues, Issue(DoubleReleaseIssue, h)) ==
                    old(Count(issues, Issue(DoubleReleaseIssue, h)))
        invariant forall h ::
                    Count(issues, Issue(IncompleteInterprocIssue, h)) ==
                    old(Count(issues, Issue(IncompleteInterprocIssue, h)))
        invariant forall h :: Count(issues, Issue(MissingReleaseIssue, h)) ==
                              if h !in todo && IsMissing(env, escapesViaReturn, h, StateOf(h)) then 1 else 0
        decreases todo
      {
        var h :| h in todo;
        if IsMissing(env, escapesViaReturn, h, localStates[h]) {
          issues := issues + [Issue(MissingReleaseIssue, h)];
        }
        todo := todo - {h};
      }
    }
  }

  /** The conditions under which a handle is reported as never released. */
  predicate IsMissing(env: Env, escapesViaReturn: Handle -> bool, h: Handle, s: HandleState) {
    && h.storage.scope == Local
    && s.acquires > 0 && s.releases < s.acquires
    && !escapesViaReturn(h)
    && !(h.storage.localAlloca.Some? && env.escapesToUnmodeledCall(h.storage.localAlloca.value))
  }

  lemma ProjectStep(env: Env, events: seq<Event>, e: Event)
    ensures forall h :: RunHandle(env, Project(events + [e], h)) ==
              if h == e.handle then StepHandle(env, RunHandle(env, Project(events, h)), e)
              else RunHandle(env, Project(events, h))
  {
    var longer := events + [e];
    assert longer[..|longer| - 1] == events;
    forall h ensures RunHandle(env, Project(longer, h)) ==
        if h == e.handle then StepHandle(env, RunHandle(env, Project(events, h)), e)
        else RunHandle(env, Project(events, h))
    {
      var p := Project(events, h);
      if h == e.handle {
        assert (p + [e])[..|p + [e]| - 1] == p;
      } else {
        assert p + [] == p;
      }
    }
  }

  // What the reports mean

  ghost function Acquires(events: seq<Event>): nat {
    if events == [] then 0 else Acquires(events[..|events| - 1]) + if events[|events| - 1].Acquire? then 1 else 0
  }

  ghost function Releases(events: seq<Event>): nat {
    if events == [] then 0 else Releases(events[..|events| - 1]) + if events[|events| - 1].Release? then 1 else 0
  }

  /** A handle kept in a local variable that has a name. */
  ghost predicate LocalHandle(h: Handle) {
    h.storage.scope == Local && h.storage.key != ""
  }

  ghost predicate EventsOf(h: Handle, events: seq<Event>) {
    LocalHandle(h) && forall e :: e in events ==> e.handle == h
  }

  // What the history of a handle says about its release at position i

  /** As many releases as acquisitions have gone before. */
  ghost predicate SurplusAt(events: seq<Event>, i: nat) {
    i < |events| && events[i].Release? && Releases(events[..i]) >= Acquires(events[..i])
  }

  /** The slot the handle is kept in, while nothing has been acquired into it. */
  ghost predicate UnfilledSlot(h: Handle, events: seq<Event>, i: nat, slot: nat) {
    i < |events| && h.storage.localAlloca == Some(slot) && Acquires(events[..i]) == 0
  }

  /** A surplus release of what the function got as an argument. */
  ghost predicate ExcusedAt(env: Env, h: Handle, events: seq<Event>, i: nat) {
    SurplusAt(events, i) && exists slot :: UnfilledSlot(h, events, i, slot) && env.argumentShadow(slot)
  }

  /** A surplus release of something that may have been acquired out of sight. */
  ghost predicate DoubtedAt(env: Env, h: Handle, events: seq<Event>, i: nat) {
    SurplusAt(events, i) && exists slot ::
      && UnfilledSlot(h, events, i, slot) && !env.argumentShadow(slot)
      && (env.externalStore(slot, h.storage.offset) || env.escapesToUnmodeledCall(slot) || events[i].fromSummary)
  }

  ghost predicate DoubleAt(env: Env, h: Handle, events: seq<Event>, i: nat) {
    SurplusAt(events, i) && !ExcusedAt(env, h, events, i) && !DoubtedAt(env, h, events, i)
  }

  ghost function Doubles(env: Env, h: Handle, events: seq<Event>): set<nat> {
    set i: nat | i < |events| && DoubleAt(env, h, events, i)
  }

  ghost predicate SomeDoubt(env: Env, h: Handle, events: seq<Event>) {
    exists i :: DoubtedAt(env, h, events, i)
  }

  /** More acquisitions than releases, and nobody else can see to the rest. */
  ghost predicate NeverGivenBack(env: Env, escapesViaReturn: Handle -> bool, h: Handle, events: seq<Event>) {
    && Acquires(events) > Releases(events)
    && !escapesViaReturn(h)
    && forall slot :: h.storage.localAlloca == Some(slot) ==> !env.escapesToUnmodeledCall(slot)
  }

  /** What is said about a release depends on what came before it only. */
  lemma PrefixSays(env: Env, h: Handle, events: seq<Event>, n: nat, i: nat)
    requires i < n <= |events|
    ensures SurplusAt(events[..n], i) == SurplusAt(events, i)
    ensures ExcusedAt(env, h, events[..n], i) == ExcusedAt(env, h, events, i)
    ensures DoubtedAt(env, h, events[..n], i) == DoubtedAt(env, h, events, i)
  {
    assert events[..n][..i] == events[..i] && events[..n][i] == events[i];
    assert forall slot :: UnfilledSlot(h, events[..n], i, slot) == UnfilledSlot(h, events, i, slot);
  }

  lemma VerdictMeans(env: Env, h: Handle, events: seq<Event>, i: nat)
    requires i < |events| && events[i].Release?
    ensures var verdict := ReleaseVerdict(env, h, Acquires(events[..i]), Releases(events[..i]) + 1,
                                          events[i].fromSummary);
      && (verdict == Fine <==> !SurplusAt(events, i))
      && (verdict == Excused <==> ExcusedAt(env, h, events, i))
      && (verdict == Doubted <==> DoubtedAt(env, h, events, i))
      && (verdict == DoubleRelease <==> DoubleAt(env, h, events, i))
  {
    if h.storage.localAlloca.Some? && Acquires(events[..i]) == 0 {
      assert UnfilledSlot(h, events, i, h.storage.localAlloca.value);
    }
  }

  lemma ReportsOneMore(env: Env, h: Handle, events: seq<Event>)
    requires events != []
    ensures var last := |events| - 1; var p := events[..last];
      && Doubles(env, h, events) == Doubles(env, h, p) + (if DoubleAt(env, h, events, last) then {last} else {})
      && (SomeDoubt(env, h, events) <==> SomeDoubt(env, h, p) || DoubtedAt(env, h, events, last))
  {
    var last := |events| - 1;
    forall i: nat | i < last
      ensures DoubtedAt(env, h, events[..last], i) == DoubtedAt(env, h, events, i)
      ensures DoubleAt(env, h, events[..last], i) == DoubleAt(env, h, events, i)
    {
      PrefixSays(env, h, events, last, i);
    }
  }

  lemma LastEvent(env: Env, h: Handle, events: seq<Event>)
    requires EventsOf(h, events) && events != []
    requires var last := |events| - 1; var before := RunHandle(env, events[..last]).state;
             before.acquires == Acquires(events[..last]) && before.releases == Releases(events[..last])
    ensures var last := |events| - 1; var before, after := RunHandle(env, events[..last]), RunHandle(env, events);
      && after.doubles == before.doubles + (if DoubleAt(env, h, events, last) then 1 else 0)
      && (after.doubted <==>
            before.doubted || (DoubtedAt(env, h, events, last) && env.worthReporting(h.storage)))
  {
    var last := |events| - 1;
    assert events[last] in events;
    if events[last].Release? {
      VerdictMeans(env, h, events, last);
    } else {
      assert !SurplusAt(events, last);
    }
  }

  /** In every history, suppressed releases included: the double-release reports are the surplus
      releases that are neither excused nor doubted, and the analysis is called incomplete if some
      release is doubted and that is worth reporting. */
  lemma {:induction false} HistoryDecides(env: Env, h: Handle, events: seq<Event>)
    requires EventsOf(h, events)
    ensures RunHandle(env, events).doubles == |Doubles(env, h, events)|
    ensures RunHandle(env, events).doubted <==> env.worthReporting(h.storage) && SomeDoubt(env, h, events)
    decreases |events|
  {
    if events == [] {
      assert Doubles(env, h, events) == {};
    } else {
      var last := |events| - 1;
      HistoryDecides(env, h, events[..last]);
      CountsAreTracked(env, h, events[..last]);
      ReportsOneMore(env, h, events);
      LastEvent(env, h, events);
    }
  }

  lemma MissingMeans(env: Env, escapesViaReturn: Handle -> bool, h: Handle, events: seq<Event>)
    requires EventsOf(h, events)
    ensures IsMissing(env, escapesViaReturn, h, RunHandle(env, events).state) <==>
            NeverGivenBack(env, escapesViaReturn, h, events)
  {
    CountsAreTracked(env, h, events);
  }

  /** Handles the function does not own are not reported. */
  lemma {:induction false} OthersAreSilent(env: Env, h: Handle, events: seq<Event>)
    requires !LocalHandle(h)
    ensures var run := RunHandle(env, Project(events, h));
      run.doubles == 0 && !run.doubted && (h.storage.scope == Local ==> run.state == NO_STATE)
    decreases |events|
  {
    if events != [] {
      var last := |events| - 1;
      OthersAreSilent(env, h, events[..last]);
      var p := Project(events[..last], h);
      if events[last].handle == h {
        assert (p + [events[last]])[..|p|] == p;
      } else {
        assert p + [] == p;
      }
    }
  }

  /** No surplus release is excused or doubted. */
  ghost predicate NothingSuppressed(env: Env, h: Handle, events: seq<Event>) {
    forall i :: 0 <= i < |events| ==> !ExcusedAt(env, h, events, i) && !DoubtedAt(env, h, events, i)
  }

  ghost predicate Balanced(events: seq<Event>) {
    && (forall n :: 0 <= n <= |events| ==> Releases(events[..n]) <= Acquires(events[..n]))
    && Releases(events) == Acquires(events)
  }

  lemma {:induction false} CountsAreTracked(env: Env, h: Handle, events: seq<Event>)
    requires EventsOf(h, events)
    ensures RunHandle(env, events).state.acquires == Acquires(events)
    ensures RunHandle(env, events).state.releases == Releases(events)
    decreases |events|
  {
    if events != [] {
      assert events[|events| - 1] in events;
      CountsAreTracked(env, h, events[..|events| - 1]);
    }
  }

  /** At no point do releases exceed acquisitions by more than k. */
  ghost predicate SurplusAtMost(events: seq<Event>, k: nat) {
    forall n :: 0 <= n <= |events| ==> Releases(events[..n]) <= Acquires(events[..n]) + k
  }

  lemma SurplusSplit(events: seq<Event>, k: nat)
    requires events != []
    ensures SurplusAtMost(events, k) <==>
            SurplusAtMost(events[..|events| - 1], k) && Releases(events) <= Acquires(events) + k
  {
    var p := events[..|events| - 1];
    assert events[..|events|] == events;
    assert forall n :: 0 <= n <= |p| ==> p[..n] == events[..n];
  }

  /** The releases met with more releases than acquisitions. */
  ghost function SurplusReleases(events: seq<Event>): nat {
    if events == [] then 0
    else SurplusReleases(events[..|events| - 1]) +
         if events[|events| - 1].Release? && Releases(events) > Acquires(events) then 1 else 0
  }

  lemma {:induction false} UnsuppressedAreDoubles(env: Env, h: Handle, events: seq<Event>)
    requires NothingSuppressed(env, h, events)
    ensures |Doubles(env, h, events)| == SurplusReleases(events)
    decreases |events|
  {
    if events == [] {
      assert Doubles(env, h, events) == {};
    } else {
      var last := |events| - 1;
      forall i: nat | i < last
        ensures !ExcusedAt(env, h, events[..last], i) && !DoubtedAt(env, h, events[..last], i)
      {
        PrefixSays(env, h, events, last, i);
      }
      UnsuppressedAreDoubles(env, h, events[..last]);
      ReportsOneMore(env, h, events);
    }
  }

  /** Double releases are reported at exactly the surplus releases, and nothing is doubted. */
  lemma SurplusReleasesAreReported(env: Env, h: Handle, events: seq<Event>)
    requires EventsOf(h, events) && NothingSuppressed(env, h, events)
    ensures RunHandle(env, events).doubles == SurplusReleases(events) && !RunHandle(env, events).doubted
  {
    HistoryDecides(env, h, events);
    UnsuppressedAreDoubles(env, h, events);
  }

  /** The surplus releases cover the largest surplus, and there are none exactly without one. */
  lemma {:induction false} SurplusIsCovered(events: seq<Event>)
    ensures SurplusAtMost(events, SurplusReleases(events))
    ensures SurplusReleases(events) == 0 <==> SurplusAtMost(events, 0)
    decreases |events|
  {
    if events == [] {
      assert forall n :: 0 <= n <= |events| ==> events[..n] == [];
    } else {
      var p := events[..|events| - 1];
      SurplusIsCovered(p);
      var before, after := SurplusReleases(p), SurplusReleases(events);
      assert SurplusAtMost(p, after);
      assert Releases(p) <= Acquires(p) + before by { assert p[..|p|] == p; }
      SurplusSplit(events, after);
      SurplusSplit(events, 0);
    }
  }

  lemma SurplusIsReported(env: Env, h: Handle, events: seq<Event>)
    requires EventsOf(h, events) && NothingSuppressed(env, h, events)
    ensures RunHandle(env, events).doubles == SurplusReleases(events)
    ensures SurplusAtMost(events, RunHandle(env, events).doubles)
    ensures RunHandle(env, events).doubles == 0 <==> SurplusAtMost(events, 0)
  {
    SurplusReleasesAreReported(env, h, events);
    SurplusIsCovered(events);
  }

  /** For a local handle that does not escape and whose slot clouds nothing, silence means a
      perfectly balanced history, and the other way round. */
  lemma SilentExactlyWhenBalanced(env: Env, escapesViaReturn: Handle -> bool, h: Handle, events: seq<Event>)
    requires EventsOf(h, events) && Judged(env, escapesViaReturn, h, events)
    ensures var run := RunHandle(env, events);
      && !run.doubted
      && (run.doubles == 0 && !IsMissing(env, escapesViaReturn, h, run.state) <==> Balanced(events))
  {
    SurplusReleasesAreReported(env, h, events);
    SurplusIsCovered(events);
    CountsAreTracked(env, h, events);
    assert events[..|events|] == events;
  }

  /** A local handle whose history is judged by its counts alone. */
  ghost predicate Judged(env: Env, escapesViaReturn: Handle -> bool, h: Handle, events: seq<Event>) {
    && LocalHandle(h) && NothingSuppressed(env, h, events)
    && !escapesViaReturn(h)
    && (h.storage.localAlloca.Some? ==> !env.escapesToUnmodeledCall(h.storage.localAlloca.value))
  }

  lemma {:induction false} ProjectedEvents(h: Handle, events: seq<Event>)
    requires LocalHandle(h)
    ensures EventsOf(h, Project(events, h))
    decreases |events|
  {
    if events != [] {
      ProjectedEvents(h, events[..|events| - 1]);
    }
  }

  /** A final surplus of k releases produces at least k reports. */
  lemma FinalSurplusIsReported(env: Env, h: Handle, events: seq<Event>)
    requires EventsOf(h, events) && NothingSuppressed(env, h, events)
    ensures RunHandle(env, events).doubles >= Releases(events) - Acquires(events)
  {
    SurplusIsReported(env, h, events);
    assert events[..|events|] == events;
  }

  /** Once a handle has been acquired nothing about it is suppressed any more. */
  lemma AcquiredFirstIsNeverSuppressed(env: Env, h: Handle, events: seq<Event>)
    requires EventsOf(h, events) && events != [] && events[0].Acquire?
    ensures NothingSuppressed(env, h, events)
  {
    forall i | 0 < i < |events| ensures Acquires(events[..i]) > 0 {
      AcquiresGrow(events[..i], 1);
      assert events[..i][..1] == [events[0]];
      assert [events[0]][..0] == [];
    }
  }

  lemma {:induction false} AcquiresGrow(events: seq<Event>, n: nat)
    requires n <= |events|
    ensures Acquires(events[..n]) <= Acquires(events)
    decreases |events|
  {
    if n == |events| {
      assert events[..n] == events;
    } else {
      AcquiresGrow(events[..|events| - 1], n);
      assert events[..|events| - 1][..n] == events[..n];
    }
  }

  ghost predicate NoIssues(issues: seq<Issue>, h: Handle) {
    forall kind :: Issue(kind, h) !in issues
  }

  /** The reports on one handle are those its own history calls for. */
  ghost predicate ReportedAsCalledFor(env: Env, escapesViaReturn: Handle -> bool, h: Handle, own: seq<Event>,
                                      issues: seq<Issue>) {
    if LocalHandle(h) then
      && Count(issues, Issue(DoubleReleaseIssue, h)) == |Doubles(env, h, own)|
      && Count(issues, Issue(IncompleteInterprocIssue, h)) ==
         (if env.worthReporting(h.storage) && SomeDoubt(env, h, own) then 1 else 0)
      && Count(issues, Issue(MissingReleaseIssue, h)) ==
         (if NeverGivenBack(env, escapesViaReturn, h, own) then 1 else 0)
    else NoIssues(issues, h)
  }

  lemma ReportsAreCalledFor(env: Env, escapesViaReturn: Handle -> bool, h: Handle, events: seq<Event>,
                            issues: seq<Issue>)
    requires var run := RunHandle(env, Project(events, h));
      && Count(issues, Issue(DoubleReleaseIssue, h)) == run.doubles
      && Count(issues, Issue(IncompleteInterprocIssue, h)) == (if run.doubted then 1 else 0)
      && Count(issues, Issue(MissingReleaseIssue, h)) ==
         (if IsMissing(env, escapesViaReturn, h, run.state) then 1 else 0)
    ensures ReportedAsCalledFor(env, escapesViaReturn, h, Project(events, h), issues)
    ensures Judged(env, escapesViaReturn, h, Project(events, h)) ==>
              (NoIssues(issues, h) <==> Balanced(Project(events, h)))
  {
    NoneCounted(issues, h);
    if LocalHandle(h) {
      ProjectedEvents(h, events);
      HistoryDecides(env, h, Project(events, h));
      MissingMeans(env, escapesViaReturn, h, Project(events, h));
      if Judged(env, escapesViaReturn, h, Project(events, h)) {
        SilentExactlyWhenBalanced(env, escapesViaReturn, h, Project(events, h));
      }
    } else {
      OthersAreSilent(env, h, events);
    }
  }

  /** The whole function body: events in program order, then the closing report. Each handle
      gets the reports its own history calls for, and a handle judged by its counts gets none
      exactly when that history is balanced. */
  method TrackFunction(env: Env, events: seq<Event>, escapesViaReturn: Handle -> bool) returns (issues: seq<Issue>)
    ensures forall h :: ReportedAsCalledFor(env, escapesViaReturn, h, Project(events, h), issues)
    ensures forall h :: Judged(env, escapesViaReturn, h, Project(events, h)) ==>
              (NoIssues(issues, h) <==> Balanced(Project(events, h)))
  {
    var tracker := new HandleTracker(env);
    for i := 0 to |events|
      invariant fresh(tracker) && tracker.env == env && tracker.Matches(events[..i])
    {
      assert events[..i] + [events[i]] == events[..i + 1];
      match events[i] {
        case Acquire(h) => tracker.TrackAcquire(h, events[..i]);
        case Release(h, fromSummary) => tracker.TrackRelease(h, fromSummary, events[..i]);
      }
    }
    assert events[..|events|] == events;
    assert forall h :: tracker.MatchesHandle(h, RunHandle(env, Project(events, h)));
    tracker.ReportMissingReleases(escapesViaReturn, events);
    issues := tracker.issues;
    forall h
      ensures ReportedAsCalledFor(env, escapesViaReturn, h, Project(events, h), issues)
      ensures Judged(env, escapesViaReturn, h, Project(events, h)) ==>
                (NoIssues(issues, h) <==> Balanced(Project(events, h)))
    {
      ReportsAreCalledFor(env, escapesViaReturn, h, events, issues);
    }
  }

  lemma NoneCounted(issues: seq<Issue>, h: Handle)
    ensures NoIssues(issues, h) <==>
            Count(issues, Issue(DoubleReleaseIssue, h)) == 0 &&
            Count(issues, Issue(IncompleteInterprocIssue, h)) == 0 &&
            Count(issues, Issue(MissingReleaseIssue, h)) == 0
  {
    assert NoIssues(issues, h) ==>
           Issue(DoubleReleaseIssue, h) !in issues && Issue(IncompleteInterprocIssue, h) !in issues &&
                                   Issue(MissingReleaseIssue, h) !in issues;
    forall kind ensures Issue(kind, h) in issues ==>
        Count(issues, Issue(DoubleReleaseIssue, h)) > 0 || Count(issues, Issue(IncompleteInterprocIssue, h)) > 0 ||
        Count(issues, Issue(MissingReleaseIssue, h)) > 0
    {
      match kind
      case DoubleReleaseIssue =>
      case IncompleteInterprocIssue =>
      case MissingReleaseIssue =>
    }
  }
}
