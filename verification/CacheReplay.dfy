/** Exactly when a cache hit can be trusted: a run in which some stored text is outdated can be
    replayed, step by step, with another tool that leaves the same files and compiles the present
    contents to something else. */
module CacheReplay {
  import opened Options
  import opened Reachability
  import opened CompileCache

  /** The tool has a run that leaves these files, from these versions, in this world. */
  ghost predicate CouldHaveLeft(tool: Toolchain, around: Surroundings, s: State) {
    && Determined(tool) && AlwaysBitcode(tool) && Hit(tool, s)
    && exists phase :: ReachableState(Setup(tool, around), s.(phase := phase))
  }

  /** The exact condition, in every run: a hit is what compiling now would give, for every tool
      that could have left these files, if and only if each stored text was compiled from what
      the files contain now. */
  lemma HitIsFreshExactlyWhen(setup: Setup, s: State)
    requires Determined(setup.tool) && AlwaysBitcode(setup.tool)
    requires ReachableState(setup, s) && Hit(setup.tool, s)
    ensures CouldHaveLeft(setup.tool, setup.around, s)
    ensures (forall tool :: CouldHaveLeft(tool, setup.around, s) ==> Fresh(tool, s)) <==> InputsAreCurrent(s)
  {
    assert s.(phase := s.phase) == s;
    if InputsAreCurrent(s) {
      forall tool | CouldHaveLeft(tool, setup.around, s) ensures Fresh(tool, s) {
        var phase :| ReachableState(Setup(tool, setup.around), s.(phase := phase));
        var left := s.(phase := phase);
        CacheIsExplained(Setup(tool, setup.around), left);
        forall part ensures PartIsCurrent(left, part) {
          assert PartIsCurrent(s, part);
        }
        CurrentInputsAreFresh(tool, left);
      }
    } else if setup.tool.compile(Contents(s.world)).None? {
      assert !Fresh(setup.tool, s);
    } else {
      OutdatedInputsCanBeStale(setup, s);
    }
  }

  // A tool that differs only on the present contents

  /** The tool's output for the contents now gets another text in one part. */
  datatype Change = Change(tool: Toolchain, now: map<Path, string>, part: Part, text: string)

  function SetPart(output: Output, part: Part, text: string): Output {
    match part
    case Bitcode => output.(bitcode := text)
    case Ir => output.(ir := text)
    case Diagnostics => output.(diagnostics := text)
  }

  ghost predicate ValidChange(c: Change) {
    && Determined(c.tool) && AlwaysBitcode(c.tool)
    && c.tool.compile(c.now).Some? && c.text != []
  }

  ghost predicate SameInputs(c: Change, fs: map<Path, string>)
    requires c.tool.compile(c.now).Some?
  {
    fs == c.now || Agree(c.now, fs, [c.tool.source] + c.tool.compile(c.now).value.dependencies)
  }

  ghost function ChangedOutcome(c: Change, fs: map<Path, string>): Option<Compilation>
    requires c.tool.compile(c.now).Some?
  {
    match c.tool.compile(fs)
    case None => None
    case Some(r) => Some(if SameInputs(c, fs) then r.(output := SetPart(r.output, c.part, c.text)) else r)
  }

  /** The new text parses if it is bitcode, and does not if it is IR. */
  ghost function ChangedTool(c: Change): Toolchain
    requires c.tool.compile(c.now).Some?
  {
    Toolchain(c.tool.source,
              (fs: map<Path, string>) => ChangedOutcome(c, fs),
              (bitcode: string) => (c.part == Bitcode && bitcode == c.text) || c.tool.parsesBitcode(bitcode),
              (ir: string) => !(c.part == Ir && ir == c.text) && c.tool.parsesIr(ir))
  }

  lemma SameInputsSameOutcome(c: Change, fs: map<Path, string>)
    requires ValidChange(c) && SameInputs(c, fs)
    ensures c.tool.compile(fs) == c.tool.compile(c.now)
  {
  }

  lemma ChangedIsDetermined(c: Change)
    requires ValidChange(c)
    ensures Determined(ChangedTool(c)) && AlwaysBitcode(ChangedTool(c))
  {
    var tool := ChangedTool(c);
    forall fs, fs' | tool.compile(fs).Some? && Agree(fs, fs', [tool.source] + tool.compile(fs).value.dependencies)
      ensures tool.compile(fs') == tool.compile(fs)
    {
      assert c.tool.compile(fs') == c.tool.compile(fs);
      SameInputsTogether(c, fs, fs');
    }
  }

  lemma SameInputsTogether(c: Change, fs: map<Path, string>, fs': map<Path, string>)
    requires ValidChange(c) && c.tool.compile(fs).Some? && c.tool.compile(fs') == c.tool.compile(fs)
    requires Agree(fs, fs', [c.tool.source] + c.tool.compile(fs).value.dependencies)
    ensures SameInputs(c, fs) <==> SameInputs(c, fs')
  {
    if SameInputs(c, fs) {
      SameInputsSameOutcome(c, fs);
    }
    if SameInputs(c, fs') {
      SameInputsSameOutcome(c, fs');
    }
  }

  // The replayed run

  ghost predicate Touched(c: Change, s: State) {
    OriginOf(s.from, c.part).Some? && AgreesWithHistory(c.now, s.history, OriginOf(s.from, c.part).value)
  }

  function SetFile(files: CacheFiles, part: Part, text: string): CacheFiles {
    match part
    case Bitcode => files.(bitcode := text)
    case Ir => files.(ir := text)
    case Diagnostics =>
      if files.meta.Some? then files.(meta := Some(files.meta.value.(diagnostics := text))) else files
  }

  ghost function ImageOutput(c: Change, s: State, output: Output, seen: seq<Snapshot>): Output {
    if AgreesWithHistory(c.now, s.history, seen) then SetPart(output, c.part, c.text) else output
  }

  ghost function ImagePhase(c: Change, s: State): Phase {
    match s.phase
    case Idle => Idle
    case Missed => Missed
    case Compiled(output, seen, dependencies) => Compiled(ImageOutput(c, s, output, seen), seen, dependencies)
    case Captured(output, seen, meta) =>
      Captured(ImageOutput(c, s, output, seen), seen, ImageMeta(c, s, output, seen, meta))
    case WroteBitcode(output, seen, meta) =>
      WroteBitcode(ImageOutput(c, s, output, seen), seen, ImageMeta(c, s, output, seen, meta))
    case WroteIr(output, seen, meta) =>
      WroteIr(ImageOutput(c, s, output, seen), seen, ImageMeta(c, s, output, seen, meta))
  }

  ghost function ImageMeta(c: Change, s: State, output: Output, seen: seq<Snapshot>, meta: Metadata): Metadata {
    meta.(diagnostics := ImageOutput(c, s, output, seen).diagnostics)
  }

  /** The state in which the changed tool is when the tool is in s. */
  ghost function Image(c: Change, s: State): State {
    s.(files := if Touched(c, s) then SetFile(s.files, c.part, c.text) else s.files, phase := ImagePhase(c, s))
  }

  /** What every reached state satisfies, as far as the replay needs it. */
  ghost predicate Replayable(c: Change, s: State) {
    && Traced(c.tool, s)
    && OutputHasBitcode(s)
    && (s.from.diagnostics.Some? ==> s.files.meta.Some?)
    && |s.files.bitcode| < |c.text|
  }

  ghost predicate OutputHasBitcode(s: State) {
    s.phase != Idle && s.phase != Missed ==> s.phase.output.bitcode != []
  }

  lemma StepKeepsReplayable(c: Change, around: Surroundings, s: State, s': State)
    requires ValidChange(c) && Replayable(c, s)
    requires Next(Setup(c.tool, around), s, s') && |s'.files.bitcode| < |c.text|
    ensures Replayable(c, s')
  {
    StepKeepsTrace(Setup(c.tool, around), s, s');
    OutputKeepsBitcode(c, around, s, s');
    DiagnosticsKeepMetadata(c, around, s, s');
  }

  lemma OutputKeepsBitcode(c: Change, around: Surroundings, s: State, s': State)
    requires AlwaysBitcode(c.tool) && Next(Setup(c.tool, around), s, s') && OutputHasBitcode(s)
    ensures OutputHasBitcode(s')
  {
  }

  lemma DiagnosticsKeepMetadata(c: Change, around: Surroundings, s: State, s': State)
    requires Next(Setup(c.tool, around), s, s') && (s.from.diagnostics.Some? ==> s.files.meta.Some?)
    ensures s'.from.diagnostics.Some? ==> s'.files.meta.Some?
  {
  }

  /** A stored text that is replaced is what the tool makes of the contents now. */
  lemma TouchedText(c: Change, s: State)
    requires ValidChange(c) && Replayable(c, s) && Touched(c, s)
    ensures PartOnDisk(s.files, c.part) == PartOf(c.tool.compile(c.now).value.output, c.part)
  {
    assert Explained(c.tool, s, c.part);
  }

  /** A miss stays a miss. */
  lemma ImageMisses(c: Change, s: State)
    requires ValidChange(c) && Replayable(c, s) && Hit(ChangedTool(c), Image(c, s))
    ensures Hit(c.tool, s)
  {
    if Touched(c, s) {
      TouchedText(c, s);
    }
  }

  /** What is known of a version does not depend on later versions. */
  lemma LaterAgrees(c: Change, history: map<Snapshot, string>, later: map<Snapshot, string>, snapshots: seq<Snapshot>)
    requires KnownSnapshots(history, snapshots) && Extends(later, history)
    ensures AgreesWithHistory(c.now, history, snapshots) <==> AgreesWithHistory(c.now, later, snapshots)
  {
  }

  lemma ImageOfWorldStep(c: Change, s: State, s': State)
    requires ValidChange(c) && Replayable(c, s)
    requires s' == s.(world := s'.world, history := s'.history) && Extends(s'.history, s.history)
    ensures Image(c, s') == Image(c, s).(world := s'.world, history := s'.history)
  {
    assert Explained(c.tool, s, c.part);
    if OriginOf(s.from, c.part).Some? {
      LaterAgrees(c, s.history, s'.history, OriginOf(s.from, c.part).value);
    }
    if s.phase != Idle && s.phase != Missed {
      assert Gives(c.tool, s.history, s.phase.seen, c.part, PartOf(s.phase.output, c.part));
      LaterAgrees(c, s.history, s'.history, s.phase.seen);
    }
  }

  lemma ImageOfEdit(c: Change, around: Surroundings, s: State, s': State, p: Path, v: Version)
    requires ValidChange(c) && Replayable(c, s) && EditStep(Setup(c.tool, around), s, s', p, v)
    ensures EditStep(Setup(ChangedTool(c), around), Image(c, s), Image(c, s'), p, v)
  {
    ImageOfWorldStep(c, s, s');
  }

  lemma ImageOfDelete(c: Change, s: State, s': State, p: Path)
    requires ValidChange(c) && Replayable(c, s) && DeleteStep(s, s', p)
    ensures DeleteStep(Image(c, s), Image(c, s'), p)
  {
    ImageOfWorldStep(c, s, s');
  }

  /** Compiling gives the changed output exactly on the inputs of the contents now. */
  lemma ImageOfCompile(c: Change, around: Surroundings, s: State, s': State)
    requires ValidChange(c) && Replayable(c, s) && CompileStep(Setup(c.tool, around), s, s')
    ensures CompileStep(Setup(ChangedTool(c), around), Image(c, s), Image(c, s'))
  {
    var contents := Contents(s.world);
    var result := c.tool.compile(contents).value;
    var paths := [c.tool.source] + result.dependencies;
    var seen := s'.phase.seen;
    CaptureAllFacts(s.world, paths);
    forall i | 0 <= i < |paths|
      ensures paths[i] in contents && seen[i] in s.history && seen[i].path == paths[i] &&
              s.history[seen[i]] == contents[paths[i]]
    {
      assert KnownVersion(s, paths[i]);
    }
    SeenAgrees(c, contents, s.history, seen);
    assert ChangedTool(c).compile(contents) ==
           Some(Compilation(ImageOutput(c, s, result.output, seen), result.dependencies));
  }

  lemma SeenAgrees(c: Change, contents: map<Path, string>, history: map<Snapshot, string>, seen: seq<Snapshot>)
    requires ValidChange(c) && c.tool.compile(contents).Some?
    requires var paths := [c.tool.source] + c.tool.compile(contents).value.dependencies;
      |seen| == |paths| && forall i :: 0 <= i < |paths| ==>
        paths[i] in contents && seen[i] in history && seen[i].path == paths[i] && history[seen[i]] == contents[paths[i]]
    ensures SameInputs(c, contents) <==> AgreesWithHistory(c.now, history, seen)
  {
    var paths := [c.tool.source] + c.tool.compile(contents).value.dependencies;
    if SameInputs(c, contents) {
      SameInputsSameOutcome(c, contents);
      forall i | 0 <= i < |seen| ensures seen[i].path in c.now && c.now[seen[i].path] == history[seen[i]] {
        assert seen[i].path == paths[i];
      }
    }
    if AgreesWithHistory(c.now, history, seen) {
      forall i | 0 <= i < |paths| ensures paths[i] in c.now && c.now[paths[i]] == contents[paths[i]] {
        assert seen[i].path == paths[i];
      }
      assert Agree(contents, c.now, paths);
      assert c.tool.compile(c.now) == c.tool.compile(contents);
      assert Agree(c.now, contents, paths);
    }
  }

  lemma ImageOfCapture(c: Change, around: Surroundings, s: State, s': State)
    requires ValidChange(c) && Replayable(c, s) && CaptureStep(Setup(c.tool, around), s, s')
    ensures CaptureStep(Setup(ChangedTool(c), around), Image(c, s), Image(c, s'))
  {
  }

  /** A complete write stores the changed text exactly if its output is changed. */
  lemma ImageOfBitcodeWrite(c: Change, s: State, s': State)
    requires ValidChange(c) && Replayable(c, s) && WriteBitcodeStep(s, s')
    ensures WriteBitcodeStep(Image(c, s), Image(c, s'))
  {
  }

  lemma ImageOfIrWrite(c: Change, s: State, s': State)
    requires ValidChange(c) && Replayable(c, s) && WriteIrStep(s, s')
    ensures WriteIrStep(Image(c, s), Image(c, s'))
  {
  }

  lemma ImageOfMetaWrite(c: Change, s: State, s': State)
    requires ValidChange(c) && Replayable(c, s) && WriteMetaStep(s, s')
    ensures WriteMetaStep(Image(c, s), Image(c, s'))
  {
  }

  /** What is left of a failed write belongs to no compilation, so it is left as it is. */
  lemma ImageOfCutShort(c: Change, s: State, s': State, left: string)
    requires ValidChange(c) && Replayable(c, s) && CutShortStep(s, s', left)
    ensures CutShortStep(Image(c, s), Image(c, s'), left)
  {
  }

  lemma ImageOfLateFailure(c: Change, around: Surroundings, s: State, s': State, left: string)
    requires ValidChange(c) && Replayable(c, s) && LateFailureStep(Setup(c.tool, around), s, s', left)
    ensures LateFailureStep(Setup(ChangedTool(c), around), Image(c, s), Image(c, s'), left)
  {
  }

  lemma ImageOfStep(c: Change, around: Surroundings, s: State, s': State)
    requires ValidChange(c) && Replayable(c, s) && Next(Setup(c.tool, around), s, s')
    ensures Next(Setup(ChangedTool(c), around), Image(c, s), Image(c, s'))
  {
    var setup, changed := Setup(c.tool, around), Setup(ChangedTool(c), around);
    if p, v :| EditStep(setup, s, s', p, v) {
      ImageOfEdit(c, around, s, s', p, v);
    } else if p :| DeleteStep(s, s', p) {
      ImageOfDelete(c, s, s', p);
    } else if MissStep(setup, s, s') {
      ImageOfMiss(c, around, s, s');
    } else if CompileStep(setup, s, s') {
      ImageOfCompile(c, around, s, s');
    } else if CaptureStep(setup, s, s') {
      ImageOfCapture(c, around, s, s');
    } else {
      ImageOfStore(c, around, s, s');
    }
  }

  lemma ImageOfMiss(c: Change, around: Surroundings, s: State, s': State)
    requires ValidChange(c) && Replayable(c, s) && MissStep(Setup(c.tool, around), s, s')
    ensures MissStep(Setup(ChangedTool(c), around), Image(c, s), Image(c, s'))
  {
    if Hit(ChangedTool(c), Image(c, s)) {
      ImageMisses(c, s);
    }
  }

  lemma ImageOfStore(c: Change, around: Surroundings, s: State, s': State)
    requires ValidChange(c) && Replayable(c, s) && StoreStep(Setup(c.tool, around), s, s')
    ensures StoreStep(Setup(ChangedTool(c), around), Image(c, s), Image(c, s'))
  {
    if WriteBitcodeStep(s, s') {
      ImageOfBitcodeWrite(c, s, s');
    } else if WriteIrStep(s, s') {
      ImageOfIrWrite(c, s, s');
    } else if WriteMetaStep(s, s') {
      ImageOfMetaWrite(c, s, s');
    } else if left :| CutShortStep(s, s', left) {
      ImageOfCutShort(c, s, s', left);
    } else {
      var left :| LateFailureStep(Setup(c.tool, around), s, s', left);
      ImageOfLateFailure(c, around, s, s', left);
    }
  }

  // A run is finite, so some text is longer than any bitcode in it

  ghost function ShortSteps(setup: Setup, limit: nat): (State, State) -> bool {
    (s, s') => Next(setup, s, s') && |s'.files.bitcode| < limit
  }

  lemma {:induction false} LongerLimit(setup: Setup, m: nat, limit: nat, n: nat, s: State)
    requires m <= limit && ReachIn(InitStates(), ShortSteps(setup, m), n, s)
    ensures ReachIn(InitStates(), ShortSteps(setup, limit), n, s)
    decreases n
  {
    if !InitStates()(s) {
      var w :| ReachIn(InitStates(), ShortSteps(setup, m), n - 1, w) && ShortSteps(setup, m)(w, s);
      LongerLimit(setup, m, limit, n - 1, w);
      assert ShortSteps(setup, limit)(w, s);
    }
  }

  lemma {:induction false} RunHasLimit(setup: Setup, n: nat, s: State) returns (limit: nat)
    requires ReachIn(InitStates(), Steps(setup), n, s)
    ensures ReachIn(InitStates(), ShortSteps(setup, limit), n, s)
    decreases n
  {
    if InitStates()(s) {
      limit := 0;
    } else {
      var w :| ReachIn(InitStates(), Steps(setup), n - 1, w) && Steps(setup)(w, s);
      var before := RunHasLimit(setup, n - 1, w);
      limit := if before <= |s.files.bitcode| then |s.files.bitcode| + 1 else before;
      LongerLimit(setup, before, limit, n - 1, w);
      assert ShortSteps(setup, limit)(w, s);
    }
  }

  /** The whole run, replayed. */
  lemma {:induction false} ImageIsReached(c: Change, around: Surroundings, limit: nat, n: nat, s: State)
    requires ValidChange(c) && limit <= |c.text|
    requires ReachIn(InitStates(), ShortSteps(Setup(c.tool, around), limit), n, s)
    ensures Replayable(c, s) && ReachableState(Setup(ChangedTool(c), around), Image(c, s))
    decreases n
  {
    if InitStates()(s) {
      StartIsReplayable(c, s);
      InitReachable(InitStates(), Steps(Setup(ChangedTool(c), around)), Image(c, s));
    } else {
      var short := ShortSteps(Setup(c.tool, around), limit);
      var w :| ReachIn(InitStates(), short, n - 1, w) && short(w, s);
      ImageIsReached(c, around, limit, n - 1, w);
      StepKeepsReplayable(c, around, w, s);
      ImageOfStep(c, around, w, s);
      Then(Setup(ChangedTool(c), around), Image(c, w), Image(c, s));
    }
  }

  lemma StartIsReplayable(c: Change, s: State)
    requires ValidChange(c) && Init(s)
    ensures Replayable(c, s) && Image(c, s) == s
  {
    forall part ensures Explained(c.tool, s, part) {}
  }

  // The other tool

  lemma OutdatedInputsCanBeStale(setup: Setup, s: State)
    requires Determined(setup.tool) && AlwaysBitcode(setup.tool)
    requires ReachableState(setup, s) && Hit(setup.tool, s) && !InputsAreCurrent(s)
    requires setup.tool.compile(Contents(s.world)).Some?
    ensures exists tool :: CouldHaveLeft(tool, setup.around, s) && !Fresh(tool, s)
  {
    var n: nat :| ReachIn(InitStates(), Steps(setup), n, s);
    var limit := RunHasLimit(setup, n, s);
    var part :| !PartIsCurrent(s, part);
    var text := "x" + s.files.bitcode + s.files.ir + PartOnDisk(s.files, Diagnostics) + seq(limit, _ => 'x');
    var c := Change(setup.tool, Contents(s.world), part, text);
    ImageIsReached(c, setup.around, limit, n, s);
    ChangedIsDetermined(c);
    assert Image(c, s) == s.(phase := ImagePhase(c, s));
    ChangedIsStale(c, s);
    assert CouldHaveLeft(ChangedTool(c), setup.around, s);
  }

  lemma ChangedIsStale(c: Change, s: State)
    requires ValidChange(c) && Hit(c.tool, s) && c.now == Contents(s.world)
    requires |s.files.bitcode| < |c.text| && |s.files.ir| < |c.text| && |PartOnDisk(s.files, Diagnostics)| < |c.text|
    ensures Hit(ChangedTool(c), s) && !Fresh(ChangedTool(c), s)
  {
    var output := ChangedTool(c).compile(c.now).value.output;
    assert PartOf(output, c.part) == c.text;
    assert PartOnDisk(s.files, c.part) != c.text;
  }
}
