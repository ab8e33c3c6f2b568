/** The dependency-aware cache of compiled IR for one cache key, as a step system of edits,
    lookups and stores that may be cut short at any point. */
module CompileCache {
  import opened Options
  import opened Reachability

  type Path = string
  type Stamp = nat   // size and modification time of one version of a file

  datatype Version = Version(content: string, stamp: Stamp)

  type World = map<Path, Version>

  datatype Snapshot = Snapshot(path: Path, stamp: Stamp)

  datatype Output = Output(bitcode: string, ir: string, diagnostics: string)

  datatype Compilation = Compilation(output: Output, dependencies: seq<Path>)

  /** The compiler as a function of all file contents, and the parsers a cached payload goes
      through; source is the file being compiled. */
  datatype Toolchain = Toolchain(
    source: Path,
    compile: map<Path, string> -> Option<Compilation>,
    parsesBitcode: string -> bool,
    parsesIr: string -> bool)

  function Contents(world: World): map<Path, string> {
    map p | p in world :: world[p].content
  }

  // The cache files of the key

  datatype Metadata = Metadata(source: Snapshot, dependencies: seq<Snapshot>, diagnostics: string)

  /** Metadata that is missing, cut short or of another schema counts as None; a missing
      bitcode or IR file reads as empty. */
  datatype CacheFiles = CacheFiles(meta: Option<Metadata>, bitcode: string, ir: string)

  function SnapshotsOf(m: Metadata): seq<Snapshot> {
    [m.source] + m.dependencies
  }

  predicate IsSnapshotCurrent(world: World, expected: Snapshot) {
    expected.path in world && world[expected.path].stamp == expected.stamp
  }

  predicate AllCurrent(world: World, snapshots: seq<Snapshot>) {
    forall i :: 0 <= i < |snapshots| ==> IsSnapshotCurrent(world, snapshots[i])
  }

  /** buildDependencySnapshots: fails when a file is missing. */
  function CaptureAll(world: World, paths: seq<Path>): Option<seq<Snapshot>> {
    if paths == [] then Some([])
    else if paths[0] !in world then None
    else
      match CaptureAll(world, paths[1..])
      case None => None
      case Some(rest) => Some([Snapshot(paths[0], world[paths[0]].stamp)] + rest)
  }

  /** loadCompileIRCachePayload. */
  function Load(files: CacheFiles, world: World): Option<Output> {
    if files.meta.None? then None
    else if !AllCurrent(world, SnapshotsOf(files.meta.value)) then None
    else if files.bitcode == [] && files.ir == [] then None
    else Some(Output(files.bitcode, files.ir, files.meta.value.diagnostics))
  }

  /** A cached payload counts as a hit if one of its two texts parses. */
  predicate Usable(tool: Toolchain, payload: Output) {
    || (payload.bitcode != [] && tool.parsesBitcode(payload.bitcode))
    || (payload.ir != [] && tool.parsesIr(payload.ir))
  }

  function PutBitcode(files: CacheFiles, output: Output): CacheFiles {
    if output.bitcode == [] then files else files.(bitcode := output.bitcode)
  }

  function PutIr(files: CacheFiles, output: Output): CacheFiles {
    files.(ir := output.ir)
  }

  function PutMeta(files: CacheFiles, meta: Metadata): CacheFiles {
    files.(meta := Some(meta))
  }

  /** What an attempted write does: the whole content arrives, the file cannot be opened and
      keeps what it had, or writing stops with anything in the file. Late is the last of these
      happening after success has been reported, when the stream is closed. */
  datatype WriteResult = Written | NotOpened | Torn(left: string) | Late(left: string)

  predicate ReportsSuccess(result: WriteResult) {
    result.Written? || result.Late?
  }

  /** writeTextFile. */
  function LeftBy(result: WriteResult, before: string, content: string): string {
    match result
    case Written => content
    case NotOpened => before
    case Torn(left) => left
    case Late(left) => left
  }

  function AfterBitcode(files: CacheFiles, output: Output, onBitcode: WriteResult): CacheFiles {
    if output.bitcode == [] then files else files.(bitcode := LeftBy(onBitcode, files.bitcode, output.bitcode))
  }

  function AfterIr(files: CacheFiles, output: Output, onIr: WriteResult): CacheFiles {
    files.(ir := LeftBy(onIr, files.ir, output.ir))
  }

  /** Metadata that is cut short does not parse. */
  function AfterMeta(files: CacheFiles, meta: Metadata, onMeta: WriteResult): CacheFiles {
    match onMeta
    case Written => files.(meta := Some(meta))
    case NotOpened => files
    case _ => files.(meta := None)
  }

  /** The files after storeCompileIRCachePayload, which stops at the first reported failure. */
  ghost function StoreResult(before: CacheFiles, meta: Metadata, output: Output,
                             onBitcode: WriteResult, onIr: WriteResult, onMeta: WriteResult): CacheFiles {
    var one := AfterBitcode(before, output, onBitcode);
    var two := AfterIr(one, output, onIr);
    if meta.dependencies == [] then before
    else if output.bitcode != [] && !ReportsSuccess(onBitcode) then one
    else if !ReportsSuccess(onIr) then two
    else AfterMeta(two, meta, onMeta)
  }

  class CompileIRCache {
    var files: CacheFiles

    constructor ()
      ensures files == CacheFiles(None, [], [])
    {
      files := CacheFiles(None, [], []);
    }

    method LoadPayload(world: World) returns (payload: Option<Output>)
      ensures payload == Load(files, world)
    {
      if files.meta.None? {
        return None;
      }
      var meta := files.meta.value;
      var snapshots := SnapshotsOf(meta);
      if !IsSnapshotCurrent(world, meta.source) {
        assert snapshots[0] == meta.source;
        return None;
      }
      for i := 0 to |meta.dependencies|
        invariant forall k :: 0 <= k <= i ==> IsSnapshotCurrent(world, snapshots[k])
      {
        assert snapshots[i + 1] == meta.dependencies[i];
        if !IsSnapshotCurrent(world, meta.dependencies[i]) {
          return None;
        }
      }
      assert AllCurrent(world, snapshots);
      if files.bitcode == [] && files.ir == [] {
        return None;
      }
      return Some(Output(files.bitcode, files.ir, meta.diagnostics));
    }

    /** The writes in their fixed order, stopping at the first reported failure. */
    method StorePayload(meta: Metadata, output: Output, onBitcode: WriteResult, onIr: WriteResult, onMeta: WriteResult)
      returns (stored: bool)
      modifies this
      ensures files == StoreResult(old(files), meta, output, onBitcode, onIr, onMeta)
      ensures stored <==>
              && meta.dependencies != []
              && (output.bitcode == [] || onBitcode.Written? || onBitcode.Late?)
              && (onIr.Written? || onIr.Late?) && (onMeta.Written? || onMeta.Late?)
      ensures onBitcode.NotOpened? ==> files.bitcode == old(files.bitcode)
      ensures onIr.NotOpened? ==> files.ir == old(files.ir)
      ensures onMeta.NotOpened? ==> files.meta == old(files.meta)
      ensures meta.dependencies != [] && output.bitcode != [] && onBitcode.Torn? ==>
              files == old(files).(bitcode := onBitcode.left)
      ensures stored && !onBitcode.Late? && !onIr.Late? && !onMeta.Late? ==>
              files == PutMeta(PutIr(PutBitcode(old(files), output), output), meta)
    {
      if meta.dependencies == [] {
        return false;
      }
      if output.bitcode != [] {
        files := files.(bitcode := LeftBy(onBitcode, files.bitcode, output.bitcode));
        if !ReportsSuccess(onBitcode) {
          return false;
        }
      }
      files := files.(ir := LeftBy(onIr, files.ir, output.ir));
      if !ReportsSuccess(onIr) {
        return false;
      }
      match onMeta {
        case Written => files := files.(meta := Some(meta));
        case NotOpened =>
        case _ => files := files.(meta := None);
      }
      return ReportsSuccess(onMeta);
    }
  }

  // Where the stored texts came from

  datatype Part = Bitcode | Ir | Diagnostics

  function PartOf(output: Output, part: Part): string {
    match part
    case Bitcode => output.bitcode
    case Ir => output.ir
    case Diagnostics => output.diagnostics
  }

  function PartOnDisk(files: CacheFiles, part: Part): string {
    match part
    case Bitcode => files.bitcode
    case Ir => files.ir
    case Diagnostics => if files.meta.Some? then files.meta.value.diagnostics else ""
  }

  /** For each stored text the file versions it was compiled from; None if it was cut short. */
  datatype Origins = Origins(bitcode: Option<seq<Snapshot>>, ir: Option<seq<Snapshot>>,
                             diagnostics: Option<seq<Snapshot>>)

  function OriginOf(from: Origins, part: Part): Option<seq<Snapshot>> {
    match part
    case Bitcode => from.bitcode
    case Ir => from.ir
    case Diagnostics => from.diagnostics
  }

  const NOWHERE: Origins := Origins(None, None, None)

  // Steps

  /** How far the tool has got with the key; seen are the versions that were compiled. */
  datatype Phase =
    | Idle
    | Missed
    | Compiled(output: Output, seen: seq<Snapshot>, dependencies: seq<Path>)
    | Captured(output: Output, seen: seq<Snapshot>, meta: Metadata)
    | WroteBitcode(output: Output, seen: seq<Snapshot>, meta: Metadata)
    | WroteIr(output: Output, seen: seq<Snapshot>, meta: Metadata)

  /** history remembers the content every stamp ever stood for. */
  datatype State = State(world: World, history: map<Snapshot, string>, files: CacheFiles, from: Origins, phase: Phase)

  /** What goes on around the tool. quiet: no recorded file changes between compiling and stamp
      capture. freshStamps: no version comes back with the stamp it had before. soundWrites: a
      write reported complete is complete. */
  datatype Surroundings = Surroundings(quiet: bool, freshStamps: bool, soundWrites: bool)

  datatype Setup = Setup(tool: Toolchain, around: Surroundings)

  ghost predicate Init(s: State) {
    s == State(s.world, s.history, CacheFiles(None, [], []), NOWHERE, Idle) && WorldKnown(s)
  }

  ghost predicate WorldKnown(s: State) {
    forall p :: p in s.world ==> KnownVersion(s, p)
  }

  ghost predicate KnownVersion(s: State, p: Path)
    requires p in s.world
  {
    var snapshot := Snapshot(p, s.world[p].stamp);
    snapshot in s.history && s.history[snapshot] == s.world[p].content
  }

  /** A file is written, or an earlier version put back: a stamp never stands for two contents. */
  ghost predicate EditStep(setup: Setup, s: State, s': State, p: Path, v: Version) {
    && var snapshot := Snapshot(p, v.stamp);
      && (snapshot in s.history ==> !setup.around.freshStamps && s.history[snapshot] == v.content)
      && s' == s.(world := s.world[p := v], history := s.history[snapshot := v.content])
  }

  ghost predicate DeleteStep(s: State, s': State, p: Path) {
    s' == s.(world := s.world - {p})
  }

  /** Nothing current is stored, or none of it parses. */
  ghost predicate MissStep(setup: Setup, s: State, s': State) {
    s.phase == Idle && !Hit(setup.tool, s) && s' == s.(phase := Missed)
  }

  ghost predicate Hit(tool: Toolchain, s: State) {
    Load(s.files, s.world).Some? && Usable(tool, Load(s.files, s.world).value)
  }

  ghost predicate CompileStep(setup: Setup, s: State, s': State) {
    && s.phase == Missed
    && var result := setup.tool.compile(Contents(s.world));
      && result.Some?
      && var seen := CaptureAll(s.world, [setup.tool.source] + result.value.dependencies);
        seen.Some? && s' == s.(phase := Compiled(result.value.output, seen.value, result.value.dependencies))
  }

  ghost predicate CaptureStep(setup: Setup, s: State, s': State) {
    && s.phase.Compiled? && s.phase.dependencies != []
    && var now := CaptureAll(s.world, [setup.tool.source] + s.phase.dependencies);
      && now.Some? && now.value != []
      && (setup.around.quiet ==> now.value == s.phase.seen)
      && s' == s.(phase := Captured(s.phase.output, s.phase.seen,
                                    Metadata(now.value[0], now.value[1..], s.phase.output.diagnostics)))
  }

  /** storeCompileIRCachePayload writes bitcode (when there is any), then IR, then metadata. */
  ghost predicate WriteBitcodeStep(s: State, s': State) {
    && s.phase.Captured?
    && s' == s.(files := PutBitcode(s.files, s.phase.output),
                from := if s.phase.output.bitcode == [] then s.from else s.from.(bitcode := Some(s.phase.seen)),
                phase := WroteBitcode(s.phase.output, s.phase.seen, s.phase.meta))
  }

  ghost predicate WriteIrStep(s: State, s': State) {
    && s.phase.WroteBitcode?
    && s' == s.(files := PutIr(s.files, s.phase.output), from := s.from.(ir := Some(s.phase.seen)),
                phase := WroteIr(s.phase.output, s.phase.seen, s.phase.meta))
  }

  ghost predicate WriteMetaStep(s: State, s': State) {
    && s.phase.WroteIr?
    && s' == s.(files := PutMeta(s.files, s.phase.meta), from := s.from.(diagnostics := Some(s.phase.seen)),
                phase := Idle)
  }

  /** The tool stops anywhere, leaving the file it was writing in any condition. */
  ghost predicate CutShortStep(s: State, s': State, left: string) {
    && s.phase != Idle
    && (|| s' == s.(phase := Idle)
        || (s.phase.Captured? && s.phase.output.bitcode != []
            && s' == s.(files := s.files.(bitcode := left), from := s.from.(bitcode := None), phase := Idle))
        || (s.phase.WroteBitcode?
            && s' == s.(files := s.files.(ir := left), from := s.from.(ir := None), phase := Idle))
        || (s.phase.WroteIr?
            && s' == s.(files := s.files.(meta := None), from := s.from.(diagnostics := None), phase := Idle)))
  }

  /** A write is reported complete, yet the file holds something else. */
  ghost predicate LateFailureStep(setup: Setup, s: State, s': State, left: string) {
    && !setup.around.soundWrites
    && ((s.phase.Captured? && s.phase.output.bitcode != []
         && s' == s.(files := s.files.(bitcode := left), from := s.from.(bitcode := None),
                     phase := WroteBitcode(s.phase.output, s.phase.seen, s.phase.meta)))
        || (s.phase.WroteBitcode?
            && s' == s.(files := s.files.(ir := left), from := s.from.(ir := None),
                        phase := WroteIr(s.phase.output, s.phase.seen, s.phase.meta))))
  }

  ghost predicate StoreStep(setup: Setup, s: State, s': State) {
    || WriteBitcodeStep(s, s')
    || WriteIrStep(s, s')
    || WriteMetaStep(s, s')
    || (exists left :: CutShortStep(s, s', left))
    || (exists left :: LateFailureStep(setup, s, s', left))
  }

  ghost predicate Next(setup: Setup, s: State, s': State) {
    || (exists p, v :: EditStep(setup, s, s', p, v))
    || (exists p :: DeleteStep(s, s', p))
    || MissStep(setup, s, s')
    || CompileStep(setup, s, s')
    || CaptureStep(setup, s, s')
    || StoreStep(setup, s, s')
  }

  ghost function InitStates(): State -> bool {
    s => Init(s)
  }

  ghost function Steps(setup: Setup): (State, State) -> bool {
    (s, s') => Next(setup, s, s')
  }

  ghost predicate ReachableState(setup: Setup, s: State) {
    Reachable(InitStates(), Steps(setup), s)
  }

  // Assumptions on the toolchain

  ghost predicate Agree(fs: map<Path, string>, fs': map<Path, string>, paths: seq<Path>) {
    forall i :: 0 <= i < |paths| ==> paths[i] in fs && paths[i] in fs' && fs[paths[i]] == fs'[paths[i]]
  }

  /** The source and the recorded dependencies determine the outcome. */
  ghost predicate Determined(tool: Toolchain) {
    forall fs, fs' :: tool.compile(fs).Some? && Agree(fs, fs', [tool.source] + tool.compile(fs).value.dependencies) ==>
      tool.compile(fs') == tool.compile(fs)
  }

  /** What the compile path guarantees before it stores: it writes the module as bitcode when
      the compiler did not, and stores nothing it could not parse. */
  ghost predicate AlwaysBitcode(tool: Toolchain) {
    forall fs :: tool.compile(fs).Some? ==>
      tool.compile(fs).value.output.bitcode != [] && tool.parsesBitcode(tool.compile(fs).value.output.bitcode)
  }

  // What a hit returns

  /** A hit is fresh if it is what compiling now would give. */
  ghost predicate Fresh(tool: Toolchain, s: State) {
    var now := tool.compile(Contents(s.world));
    now.Some? && Load(s.files, s.world) == Some(now.value.output)
  }

  ghost predicate AgreesWithHistory(fs: map<Path, string>, history: map<Snapshot, string>, snapshots: seq<Snapshot>) {
    forall i :: 0 <= i < |snapshots| ==>
      snapshots[i].path in fs && snapshots[i] in history && fs[snapshots[i].path] == history[snapshots[i]]
  }

  /** The stored text was compiled from what the files contain now. */
  ghost predicate PartIsCurrent(s: State, part: Part) {
    OriginOf(s.from, part).Some? && AgreesWithHistory(Contents(s.world), s.history, OriginOf(s.from, part).value)
  }

  ghost predicate InputsAreCurrent(s: State) {
    forall part :: PartIsCurrent(s, part)
  }

  ghost predicate KnownSnapshots(history: map<Snapshot, string>, snapshots: seq<Snapshot>) {
    forall i :: 0 <= i < |snapshots| ==> snapshots[i] in history
  }

  /** Whenever the files are back at these versions, compiling gives this text. */
  ghost predicate Gives(tool: Toolchain, history: map<Snapshot, string>, snapshots: seq<Snapshot>, part: Part,
                        text: string) {
    && KnownSnapshots(history, snapshots)
    && (forall fs :: AgreesWithHistory(fs, history, snapshots) ==>
          tool.compile(fs).Some? && PartOf(tool.compile(fs).value.output, part) == text)
  }

  ghost predicate Explained(tool: Toolchain, s: State, part: Part) {
    OriginOf(s.from, part).Some? ==>
      Gives(tool, s.history, OriginOf(s.from, part).value, part, PartOnDisk(s.files, part))
  }

  /** The tool could have left these files: each complete text is what it makes of its origin. */
  ghost predicate Explains(tool: Toolchain, s: State) {
    forall part :: Explained(tool, s, part)
  }

  ghost predicate PhaseExplained(tool: Toolchain, s: State) {
    s.phase != Idle && s.phase != Missed ==>
      forall part :: Gives(tool, s.history, s.phase.seen, part, PartOf(s.phase.output, part))
  }

  ghost predicate MetaFromPhase(s: State) {
    s.phase.Captured? || s.phase.WroteBitcode? || s.phase.WroteIr? ==>
      s.phase.meta.diagnostics == s.phase.output.diagnostics
  }

  ghost predicate Traced(tool: Toolchain, s: State) {
    WorldKnown(s) && Explains(tool, s) && PhaseExplained(tool, s) && MetaFromPhase(s)
  }

  ghost predicate Extends(later: map<Snapshot, string>, history: map<Snapshot, string>) {
    forall x :: x in history ==> x in later && later[x] == history[x]
  }

  lemma GivesLater(tool: Toolchain, history: map<Snapshot, string>, later: map<Snapshot, string>,
                   snapshots: seq<Snapshot>, part: Part, text: string)
    requires Gives(tool, history, snapshots, part, text) && Extends(later, history)
    ensures Gives(tool, later, snapshots, part, text)
  {
    forall fs | AgreesWithHistory(fs, later, snapshots)
      ensures tool.compile(fs).Some? && PartOf(tool.compile(fs).value.output, part) == text
    {
      assert AgreesWithHistory(fs, history, snapshots);
    }
  }

  /** Changing files without touching the cache loses no trace. */
  lemma WorldStepKeepsTrace(tool: Toolchain, s: State, s': State)
    requires Traced(tool, s) && WorldKnown(s')
    requires s' == s.(world := s'.world, history := s'.history) && Extends(s'.history, s.history)
    ensures Traced(tool, s')
  {
    forall part ensures Explained(tool, s', part) {
      assert Explained(tool, s, part);
      if OriginOf(s.from, part).Some? {
        GivesLater(tool, s.history, s'.history, OriginOf(s.from, part).value, part, PartOnDisk(s.files, part));
      }
    }
    if s.phase != Idle && s.phase != Missed {
      forall part ensures Gives(tool, s'.history, s.phase.seen, part, PartOf(s.phase.output, part)) {
        GivesLater(tool, s.history, s'.history, s.phase.seen, part, PartOf(s.phase.output, part));
      }
    }
  }

  lemma EditKeepsTrace(setup: Setup, s: State, s': State, p: Path, v: Version)
    requires Traced(setup.tool, s) && EditStep(setup, s, s', p, v)
    ensures Traced(setup.tool, s')
  {
    forall q | q in s'.world ensures KnownVersion(s', q) {
      if q != p { assert KnownVersion(s, q); }
    }
    WorldStepKeepsTrace(setup.tool, s, s');
  }

  lemma DeleteKeepsTrace(setup: Setup, s: State, s': State, p: Path)
    requires Traced(setup.tool, s) && DeleteStep(s, s', p)
    ensures Traced(setup.tool, s')
  {
    forall q | q in s'.world ensures KnownVersion(s', q) {
      assert KnownVersion(s, q);
    }
    WorldStepKeepsTrace(setup.tool, s, s');
  }

  lemma {:induction false} CaptureAllFacts(world: World, paths: seq<Path>)
    requires CaptureAll(world, paths).Some?
    ensures var snapshots := CaptureAll(world, paths).value;
      |snapshots| == |paths| &&
      forall i :: 0 <= i < |paths| ==> paths[i] in world && snapshots[i] == Snapshot(paths[i], world[paths[i]].stamp)
  {
    if paths != [] {
      CaptureAllFacts(world, paths[1..]);
    }
  }

  lemma {:induction false} CaptureAllSucceeds(world: World, paths: seq<Path>)
    requires forall i :: 0 <= i < |paths| ==> paths[i] in world
    ensures CaptureAll(world, paths).Some?
  {
    if paths != [] {
      CaptureAllSucceeds(world, paths[1..]);
    }
  }

  /** Compiling ties its output to the versions it saw. */
  lemma CompileKeepsTrace(setup: Setup, s: State, s': State)
    requires Determined(setup.tool) && Traced(setup.tool, s) && CompileStep(setup, s, s')
    ensures Traced(setup.tool, s')
  {
    var now := Contents(s.world);
    var result := setup.tool.compile(now).value;
    var paths := [setup.tool.source] + result.dependencies;
    CaptureAllFacts(s.world, paths);
    var seen := s'.phase.seen;
    forall i | 0 <= i < |seen| ensures seen[i] in s.history && s.history[seen[i]] == now[paths[i]] {
      assert KnownVersion(s, paths[i]);
    }
    forall fs | AgreesWithHistory(fs, s.history, seen) ensures setup.tool.compile(fs) == Some(result) {
      forall i | 0 <= i < |paths| ensures paths[i] in now && paths[i] in fs && now[paths[i]] == fs[paths[i]] {
        assert seen[i].path == paths[i];
      }
      assert Agree(now, fs, paths);
    }
    UntouchedFiles(setup.tool, s, s');
  }

  lemma UntouchedFiles(tool: Toolchain, s: State, s': State)
    requires WorldKnown(s) && Explains(tool, s)
    requires s' == s.(phase := s'.phase)
    ensures WorldKnown(s') && Explains(tool, s')
  {
    forall p | p in s'.world ensures KnownVersion(s', p) {
      assert KnownVersion(s, p);
    }
    forall part ensures Explained(tool, s', part) {
      assert Explained(tool, s, part);
    }
  }

  /** Each single write, complete or cut short, is traced to what it wrote. */
  lemma StoreKeepsTrace(setup: Setup, s: State, s': State)
    requires Traced(setup.tool, s) && StoreStep(setup, s, s')
    ensures Traced(setup.tool, s')
  {
    forall p | p in s'.world ensures KnownVersion(s', p) {
      assert KnownVersion(s, p);
    }
    forall part ensures Explained(setup.tool, s', part) {
      PartKeepsTrace(setup, s, s', part);
    }
    if s'.phase != Idle && s'.phase != Missed {
      forall part ensures Gives(setup.tool, s'.history, s'.phase.seen, part, PartOf(s'.phase.output, part)) {
        assert Gives(setup.tool, s.history, s.phase.seen, part, PartOf(s.phase.output, part));
      }
    }
  }

  /** A text that is left alone keeps its origin, one that is written takes the compilation's. */
  lemma PartKeepsTrace(setup: Setup, s: State, s': State, part: Part)
    requires Traced(setup.tool, s) && StoreStep(setup, s, s')
    ensures Explained(setup.tool, s', part)
  {
    assert Explained(setup.tool, s, part);
    if s.phase != Missed {
      assert Gives(setup.tool, s.history, s.phase.seen, part, PartOf(s.phase.output, part));
    }
    PartAfterStore(setup, s, s', part);
  }

  lemma PartAfterStore(setup: Setup, s: State, s': State, part: Part)
    requires StoreStep(setup, s, s') && MetaFromPhase(s)
    ensures s'.history == s.history
    ensures || OriginOf(s'.from, part).None?
            || (OriginOf(s'.from, part) == OriginOf(s.from, part)
                && PartOnDisk(s'.files, part) == PartOnDisk(s.files, part))
            || (s.phase != Idle && s.phase != Missed && OriginOf(s'.from, part) == Some(s.phase.seen)
                && PartOnDisk(s'.files, part) == PartOf(s.phase.output, part))
  {
    match part
    case Bitcode =>
    case Ir =>
    case Diagnostics =>
  }

  lemma StepKeepsTrace(setup: Setup, s: State, s': State)
    requires Determined(setup.tool) && Traced(setup.tool, s) && Next(setup, s, s')
    ensures Traced(setup.tool, s')
  {
    if p, v :| EditStep(setup, s, s', p, v) {
      EditKeepsTrace(setup, s, s', p, v);
    } else if p :| DeleteStep(s, s', p) {
      DeleteKeepsTrace(setup, s, s', p);
    } else if CompileStep(setup, s, s') {
      CompileKeepsTrace(setup, s, s');
    } else if StoreStep(setup, s, s') {
      StoreKeepsTrace(setup, s, s');
    } else {
      UntouchedFiles(setup.tool, s, s');
    }
  }

  /** In every run, whatever is edited or put back and wherever stores are cut short, each
      complete text in the cache is what the tool makes of its origin. */
  lemma CacheIsExplained(setup: Setup, s: State)
    requires Determined(setup.tool) && ReachableState(setup, s)
    ensures Traced(setup.tool, s)
  {
    var holds := (x: State) => Traced(setup.tool, x);
    forall x, y | holds(x) && Steps(setup)(x, y) ensures holds(y) {
      StepKeepsTrace(setup, x, y);
    }
    forall x | InitStates()(x) ensures holds(x) {
      forall part ensures Explained(setup.tool, x, part) {}
    }
    ClosedContainsReachable(InitStates(), Steps(setup), holds);
    assert holds(s);
  }

  // Exactly when a hit is fresh

  /** Texts compiled from the current contents are the current output. */
  lemma CurrentInputsAreFresh(tool: Toolchain, s: State)
    requires Explains(tool, s) && Hit(tool, s) && InputsAreCurrent(s)
    ensures Fresh(tool, s)
  {
    var now := Contents(s.world);
    assert PartIsCurrent(s, Bitcode) && Explained(tool, s, Bitcode);
    assert PartIsCurrent(s, Ir) && Explained(tool, s, Ir);
    assert PartIsCurrent(s, Diagnostics) && Explained(tool, s, Diagnostics);
    assert tool.compile(now).Some?;
  }

  // Exactly which surroundings make every hit fresh

  ghost predicate MetaCurrent(s: State) {
    s.files.meta.Some? && AllCurrent(s.world, SnapshotsOf(s.files.meta.value))
  }

  ghost predicate MetaKnown(s: State) {
    s.files.meta.Some? ==> KnownSnapshots(s.history, SnapshotsOf(s.files.meta.value))
  }

  ghost predicate MetaIsOrigin(s: State) {
    MetaCurrent(s) ==> forall part :: OriginOf(s.from, part) == Some(SnapshotsOf(s.files.meta.value))
  }

  ghost predicate PhaseOrigins(s: State) {
    match s.phase
    case Captured(_, seen, meta) => SnapshotsOf(meta) == seen
    case WroteBitcode(_, seen, meta) => SnapshotsOf(meta) == seen && s.from.bitcode == Some(seen)
    case WroteIr(_, seen, meta) => SnapshotsOf(meta) == seen && s.from.bitcode == Some(seen) && s.from.ir == Some(seen)
    case _ => true
  }

  /** With disciplined surroundings current metadata vouches for all the stored texts. */
  ghost predicate Disciplined(setup: Setup, s: State) {
    && Traced(setup.tool, s) && MetaKnown(s) && MetaIsOrigin(s)
    && (s.phase != Idle ==> !MetaCurrent(s))
    && PhaseOrigins(s)
    && (s.phase != Idle && s.phase != Missed ==> s.phase.output.bitcode != [])
  }

  lemma OriginIsCurrent(tool: Toolchain, s: State)
    requires Traced(tool, s) && MetaCurrent(s) && MetaIsOrigin(s)
    ensures InputsAreCurrent(s)
  {
    var snapshots := SnapshotsOf(s.files.meta.value);
    var now := Contents(s.world);
    forall i | 0 <= i < |snapshots|
      ensures snapshots[i].path in now && snapshots[i] in s.history && now[snapshots[i].path] == s.history[snapshots[i]]
    {
      assert IsSnapshotCurrent(s.world, snapshots[i]);
      assert KnownVersion(s, snapshots[i].path);
    }
    forall part ensures PartIsCurrent(s, part) {}
  }

  /** Outdated metadata stays outdated while no recorded stamp comes back. */
  lemma EditKeepsStale(setup: Setup, s: State, s': State, p: Path, v: Version)
    requires setup.around.freshStamps && EditStep(setup, s, s', p, v) && MetaKnown(s)
    ensures MetaCurrent(s') ==> MetaCurrent(s)
  {
    if MetaCurrent(s') {
      var snapshots := SnapshotsOf(s.files.meta.value);
      forall i | 0 <= i < |snapshots| ensures IsSnapshotCurrent(s.world, snapshots[i]) {
        assert IsSnapshotCurrent(s'.world, snapshots[i]) && snapshots[i] in s.history;
        assert snapshots[i] == Snapshot(snapshots[i].path, snapshots[i].stamp);
      }
    }
  }

  lemma DeleteKeepsStale(s: State, s': State, p: Path)
    requires DeleteStep(s, s', p)
    ensures MetaCurrent(s') ==> MetaCurrent(s)
  {
    if MetaCurrent(s') {
      var snapshots := SnapshotsOf(s.files.meta.value);
      forall i | 0 <= i < |snapshots| ensures IsSnapshotCurrent(s.world, snapshots[i]) {
        assert IsSnapshotCurrent(s'.world, snapshots[i]);
      }
    }
  }

  /** A miss means outdated metadata: current metadata would vouch for bitcode. */
  lemma MissIsStale(setup: Setup, s: State, s': State)
    requires AlwaysBitcode(setup.tool) && Disciplined(setup, s) && MissStep(setup, s, s')
    ensures !MetaCurrent(s)
  {
    if MetaCurrent(s) {
      OriginIsCurrent(setup.tool, s);
      CurrentBitcode(setup.tool, s);
    }
  }

  lemma CurrentBitcode(tool: Toolchain, s: State)
    requires AlwaysBitcode(tool) && Explains(tool, s) && InputsAreCurrent(s)
    ensures s.files.bitcode != [] && tool.parsesBitcode(s.files.bitcode)
  {
    assert PartIsCurrent(s, Bitcode) && Explained(tool, s, Bitcode);
    assert tool.compile(Contents(s.world)).Some?;
  }

  /** The captured stamps are those of the versions compiled. */
  lemma CaptureKeepsDiscipline(setup: Setup, s: State, s': State)
    requires setup.around.quiet && Disciplined(setup, s) && CaptureStep(setup, s, s')
    ensures PhaseOrigins(s')
  {
    var seen := s.phase.seen;
    assert [seen[0]] + seen[1..] == seen;
  }

  lemma StoreKeepsDiscipline(setup: Setup, s: State, s': State)
    requires setup.around.soundWrites && Disciplined(setup, s) && StoreStep(setup, s, s')
    ensures Disciplined(setup, s')
  {
    StoreKeepsTrace(setup, s, s');
    if WriteMetaStep(s, s') {
      assert Gives(setup.tool, s.history, s.phase.seen, Ir, PartOf(s.phase.output, Ir));
      forall part ensures OriginOf(s'.from, part) == Some(SnapshotsOf(s'.files.meta.value)) {}
    }
  }

  lemma StepKeepsDiscipline(setup: Setup, s: State, s': State)
    requires AllRules(setup.around) && Determined(setup.tool) && AlwaysBitcode(setup.tool)
    requires Disciplined(setup, s) && Next(setup, s, s')
    ensures Disciplined(setup, s')
  {
    StepKeepsTrace(setup, s, s');
    if p, v :| EditStep(setup, s, s', p, v) {
      EditKeepsStale(setup, s, s', p, v);
    } else if p :| DeleteStep(s, s', p) {
      DeleteKeepsStale(s, s', p);
    } else if StoreStep(setup, s, s') {
      StoreKeepsDiscipline(setup, s, s');
    } else if MissStep(setup, s, s') {
      MissIsStale(setup, s, s');
    } else if CaptureStep(setup, s, s') {
      CaptureKeepsDiscipline(setup, s, s');
    }
  }

  /** In every run of edits, deletions, lookups and stores cut short anywhere, a hit returns
      what compiling now would give, as long as no stamp comes back, nothing changes between
      compiling and stamp capture, and writes reported complete are complete. */
  lemma HitsAreFresh(setup: Setup, s: State)
    requires AllRules(setup.around) && Determined(setup.tool) && AlwaysBitcode(setup.tool)
    requires ReachableState(setup, s) && Hit(setup.tool, s)
    ensures Fresh(setup.tool, s)
  {
    var holds := (x: State) => Disciplined(setup, x);
    forall x, y | holds(x) && Steps(setup)(x, y) ensures holds(y) {
      StepKeepsDiscipline(setup, x, y);
    }
    forall x | InitStates()(x) ensures holds(x) {
      forall part ensures Explained(setup.tool, x, part) {}
    }
    ClosedContainsReachable(InitStates(), Steps(setup), holds);
    assert holds(s);
    OriginIsCurrent(setup.tool, s);
    CurrentInputsAreFresh(setup.tool, s);
  }

  ghost predicate AllRules(around: Surroundings) {
    around.quiet && around.freshStamps && around.soundWrites
  }

  ghost predicate EveryHitIsFresh(around: Surroundings) {
    forall tool, s ::
      Determined(tool) && AlwaysBitcode(tool) && ReachableState(Setup(tool, around), s) && Hit(tool, s) ==>
        Fresh(tool, s)
  }

  /** All three rules are needed: the cache is right for every tool in every run if and only if
      files are quiet around stamp capture, stamps never come back, and writes reported complete
      are complete. */
  lemma EveryHitIsFreshExactlyWhen(around: Surroundings)
    ensures EveryHitIsFresh(around) <==> AllRules(around)
  {
    if AllRules(around) {
      forall tool, s
        | Determined(tool) && AlwaysBitcode(tool) && ReachableState(Setup(tool, around), s) && Hit(tool, s)
        ensures Fresh(tool, s)
      {
        HitsAreFresh(Setup(tool, around), s);
      }
    } else if !around.quiet {
      LateCaptureCanGoStale(around);
    } else if !around.freshStamps {
      RestoredFileCanGoStale(around);
    } else {
      LateFailureCanGoStale(around);
    }
  }

  // Undisturbed stores

  ghost predicate CanStore(setup: Setup, s: State) {
    && s.phase == Idle && !Hit(setup.tool, s)
    && var result := setup.tool.compile(Contents(s.world));
      && result.Some? && result.value.dependencies != []
      && CaptureAll(s.world, [setup.tool.source] + result.value.dependencies).Some?
  }

  ghost function SeenBy(setup: Setup, s: State): seq<Snapshot>
    requires CanStore(setup, s)
  {
    CaptureAll(s.world, [setup.tool.source] + setup.tool.compile(Contents(s.world)).value.dependencies).value
  }

  /** The state in which the output exists but no stamps have been captured. */
  ghost function JustCompiled(setup: Setup, s: State): State
    requires CanStore(setup, s)
  {
    var result := setup.tool.compile(Contents(s.world)).value;
    s.(phase := Compiled(result.output, SeenBy(setup, s), result.dependencies))
  }

  /** What a complete store leaves of a captured state. */
  ghost function AfterStore(s: State): State
    requires s.phase.Captured?
  {
    var Captured(output, seen, meta) := s.phase;
    s.(files := PutMeta(PutIr(PutBitcode(s.files, output), output), meta),
       from := Origins(if output.bitcode == [] then s.from.bitcode else Some(seen), Some(seen), Some(seen)),
       phase := Idle)
  }

  /** The state after compiling, capturing and storing with nothing in between. */
  ghost function Stored(setup: Setup, s: State): State
    requires CanStore(setup, s)
  {
    AfterStore(JustCaptured(setup, s))
  }

  ghost function JustCaptured(setup: Setup, s: State): State
    requires CanStore(setup, s)
  {
    var output := setup.tool.compile(Contents(s.world)).value.output;
    var seen := SeenBy(setup, s);
    CaptureAllFacts(s.world, [setup.tool.source] + setup.tool.compile(Contents(s.world)).value.dependencies);
    s.(phase := Captured(output, seen, Metadata(seen[0], seen[1..], output.diagnostics)))
  }

  lemma Then(setup: Setup, s: State, s': State)
    requires ReachableState(setup, s) && Next(setup, s, s')
    ensures ReachableState(setup, s')
  {
    StepReachable(InitStates(), Steps(setup), s, s');
  }

  lemma WritesReach(setup: Setup, s: State)
    requires ReachableState(setup, s) && s.phase.Captured?
    ensures ReachableState(setup, AfterStore(s))
  {
    var s2 := WithIr(s);
    WithIrReached(setup, s);
    assert WriteMetaStep(s2, AfterStore(s));
    Then(setup, s2, AfterStore(s));
  }

  /** The state after bitcode has been written. */
  ghost function WithBitcode(s: State): State
    requires s.phase.Captured?
  {
    var Captured(output, seen, meta) := s.phase;
    s.(files := PutBitcode(s.files, output),
       from := if output.bitcode == [] then s.from else s.from.(bitcode := Some(seen)),
       phase := WroteBitcode(output, seen, meta))
  }

  /** The state after bitcode and IR have been written. */
  ghost function WithIr(s: State): State
    requires s.phase.Captured?
  {
    var Captured(output, seen, meta) := s.phase;
    var t := WithBitcode(s);
    t.(files := PutIr(t.files, output), from := t.from.(ir := Some(seen)), phase := WroteIr(output, seen, meta))
  }

  lemma WithIrReached(setup: Setup, s: State)
    requires ReachableState(setup, s) && s.phase.Captured?
    ensures ReachableState(setup, WithBitcode(s)) && ReachableState(setup, WithIr(s))
  {
    assert WriteBitcodeStep(s, WithBitcode(s));
    Then(setup, s, WithBitcode(s));
    assert WriteIrStep(WithBitcode(s), WithIr(s));
    Then(setup, WithBitcode(s), WithIr(s));
  }

  ghost predicate EndsWith(setup: Setup, s: State, after: CacheFiles, t: State) {
    ReachableState(setup, t) && t.world == s.world && t.files == after
  }

  /** What one write of the store leaves, and whether the tool goes on. */
  lemma BitcodeResultIsRun(setup: Setup, s: State, onBitcode: WriteResult) returns (t: State)
    requires ReachableState(setup, s) && s.phase.Captured?
    requires setup.around.soundWrites ==> !onBitcode.Late?
    ensures EndsWith(setup, s, AfterBitcode(s.files, s.phase.output, onBitcode), t)
    ensures s.phase.output.bitcode == [] || ReportsSuccess(onBitcode) ==>
              t.phase == WroteBitcode(s.phase.output, s.phase.seen, s.phase.meta)
  {
    var Captured(output, seen, meta) := s.phase;
    if output.bitcode == [] || onBitcode.Written? {
      WithIrReached(setup, s);
      t := WithBitcode(s);
    } else if onBitcode.Late? {
      t := s.(files := s.files.(bitcode := onBitcode.left), from := s.from.(bitcode := None),
              phase := WroteBitcode(output, seen, meta));
      LateFailure(setup, s, t, onBitcode.left);
    } else if onBitcode.NotOpened? {
      t := s.(phase := Idle);
      CutShort(setup, s, t, []);
    } else {
      t := s.(files := s.files.(bitcode := onBitcode.left), from := s.from.(bitcode := None), phase := Idle);
      CutShort(setup, s, t, onBitcode.left);
    }
  }

  lemma IrResultIsRun(setup: Setup, s: State, onIr: WriteResult) returns (t: State)
    requires ReachableState(setup, s) && s.phase.WroteBitcode?
    requires setup.around.soundWrites ==> !onIr.Late?
    ensures EndsWith(setup, s, AfterIr(s.files, s.phase.output, onIr), t)
    ensures ReportsSuccess(onIr) ==> t.phase == WroteIr(s.phase.output, s.phase.seen, s.phase.meta)
  {
    var WroteBitcode(output, seen, meta) := s.phase;
    if onIr.Written? {
      t := s.(files := PutIr(s.files, output), from := s.from.(ir := Some(seen)), phase := WroteIr(output, seen, meta));
      assert WriteIrStep(s, t);
      Then(setup, s, t);
    } else if onIr.Late? {
      t := s.(files := s.files.(ir := onIr.left), from := s.from.(ir := None), phase := WroteIr(output, seen, meta));
      LateFailure(setup, s, t, onIr.left);
    } else if onIr.NotOpened? {
      t := s.(phase := Idle);
      CutShort(setup, s, t, []);
    } else {
      t := s.(files := s.files.(ir := onIr.left), from := s.from.(ir := None), phase := Idle);
      CutShort(setup, s, t, onIr.left);
    }
  }

  lemma MetaResultIsRun(setup: Setup, s: State, onMeta: WriteResult) returns (t: State)
    requires ReachableState(setup, s) && s.phase.WroteIr?
    ensures EndsWith(setup, s, AfterMeta(s.files, s.phase.meta, onMeta), t)
  {
    var WroteIr(output, seen, meta) := s.phase;
    if onMeta.Written? {
      t := s.(files := PutMeta(s.files, meta), from := s.from.(diagnostics := Some(seen)), phase := Idle);
      assert WriteMetaStep(s, t);
      Then(setup, s, t);
    } else if onMeta.NotOpened? {
      t := s.(phase := Idle);
      CutShort(setup, s, t, []);
    } else {
      t := s.(files := s.files.(meta := None), from := s.from.(diagnostics := None), phase := Idle);
      CutShort(setup, s, t, []);
    }
  }

  /** Every way a store can end is a run of the system: nothing StorePayload does escapes the
      results about runs. */
  lemma StoreResultIsRun(setup: Setup, s: State, onBitcode: WriteResult, onIr: WriteResult, onMeta: WriteResult)
    requires ReachableState(setup, s) && s.phase.Captured? && s.phase.meta.dependencies != []
    requires setup.around.soundWrites ==> !onBitcode.Late? && !onIr.Late?
    ensures var after := StoreResult(s.files, s.phase.meta, s.phase.output, onBitcode, onIr, onMeta);
            exists t :: EndsWith(setup, s, after, t)
  {
    var after := StoreResult(s.files, s.phase.meta, s.phase.output, onBitcode, onIr, onMeta);
    var one := BitcodeResultIsRun(setup, s, onBitcode);
    if s.phase.output.bitcode != [] && !ReportsSuccess(onBitcode) {
      assert EndsWith(setup, s, after, one);
    } else {
      var two := IrResultIsRun(setup, one, onIr);
      if !ReportsSuccess(onIr) {
        assert EndsWith(setup, s, after, two);
      } else {
        var three := MetaResultIsRun(setup, two, onMeta);
        assert EndsWith(setup, s, after, three);
      }
    }
  }

  lemma LateFailure(setup: Setup, s: State, s': State, left: string)
    requires ReachableState(setup, s) && LateFailureStep(setup, s, s', left)
    ensures ReachableState(setup, s')
  {
    assert StoreStep(setup, s, s');
    Then(setup, s, s');
  }

  lemma CutShort(setup: Setup, s: State, s': State, left: string)
    requires ReachableState(setup, s) && CutShortStep(s, s', left)
    ensures ReachableState(setup, s')
  {
    assert StoreStep(setup, s, s');
    Then(setup, s, s');
  }

  lemma CompileReaches(setup: Setup, s: State)
    requires ReachableState(setup, s) && CanStore(setup, s)
    ensures ReachableState(setup, JustCompiled(setup, s))
  {
    var s1 := s.(phase := Missed);
    Then(setup, s, s1);
    assert CompileStep(setup, s1, JustCompiled(setup, s));
    Then(setup, s1, JustCompiled(setup, s));
  }

  lemma CaptureReaches(setup: Setup, s: State)
    requires ReachableState(setup, s) && CanStore(setup, s)
    ensures ReachableState(setup, JustCaptured(setup, s))
  {
    CompileReaches(setup, s);
    assert CaptureStep(setup, JustCompiled(setup, s), JustCaptured(setup, s));
    Then(setup, JustCompiled(setup, s), JustCaptured(setup, s));
  }

  lemma StoreReaches(setup: Setup, s: State)
    requires ReachableState(setup, s) && CanStore(setup, s)
    ensures ReachableState(setup, Stored(setup, s))
  {
    CaptureReaches(setup, s);
    WritesReach(setup, JustCaptured(setup, s));
  }

  /** A complete store on unchanged files is followed by a hit with exactly its output. */
  lemma StoreThenHit(setup: Setup, s: State)
    requires CanStore(setup, s) && setup.tool.compile(Contents(s.world)).value.output.bitcode != []
    ensures var t := Stored(setup, s);
            Load(t.files, t.world) == Some(setup.tool.compile(Contents(s.world)).value.output)
  {
    CaptureAllFacts(s.world, [setup.tool.source] + setup.tool.compile(Contents(s.world)).value.dependencies);
    var seen := SeenBy(setup, s);
    assert [seen[0]] + seen[1..] == seen;
  }

  // Runs that end in a stale hit

  ghost predicate StaleHit(tool: Toolchain, s: State) {
    Hit(tool, s) && !Fresh(tool, s)
  }

  /** Compiles a single file, whose text decides the output. */
  function OneFileTool(bitcodeOf: string -> string): Toolchain {
    Toolchain("s", (fs: map<Path, string>) =>
                if "s" in fs then Some(Compilation(Output(bitcodeOf(fs["s"]), fs["s"], ""), ["s"])) else None,
              (bitcode: string) => true, (ir: string) => true)
  }

  function OneFile(content: string, stamp: Stamp): World {
    map["s" := Version(content, stamp)]
  }

  function OneFileSeen(stamp: Stamp): seq<Snapshot> {
    [Snapshot("s", stamp), Snapshot("s", stamp)]
  }

  function OneFileMeta(stamp: Stamp): Metadata {
    Metadata(Snapshot("s", stamp), [Snapshot("s", stamp)], "")
  }

  lemma OneFileCapture(content: string, stamp: Stamp)
    ensures CaptureAll(OneFile(content, stamp), ["s"] + ["s"]) == Some(OneFileSeen(stamp))
  {
    var w := OneFile(content, stamp);
    var paths: seq<Path> := ["s"] + ["s"];
    CaptureAllSucceeds(w, paths);
    CaptureAllFacts(w, paths);
    assert CaptureAll(w, paths).value == OneFileSeen(stamp);
  }

  lemma OneFileCompiles(bitcodeOf: string -> string, content: string, stamp: Stamp)
    ensures OneFileTool(bitcodeOf).compile(Contents(OneFile(content, stamp))) ==
            Some(Compilation(Output(bitcodeOf(content), content, ""), ["s"]))
  {
    var fs := Contents(OneFile(content, stamp));
    assert "s" in fs && fs["s"] == content;
  }

  lemma OneFileDetermined(bitcodeOf: string -> string)
    ensures Determined(OneFileTool(bitcodeOf))
  {
    var tool := OneFileTool(bitcodeOf);
    forall fs, fs' | tool.compile(fs).Some? && Agree(fs, fs', [tool.source] + tool.compile(fs).value.dependencies)
      ensures tool.compile(fs') == tool.compile(fs)
    {
      var paths := [tool.source] + tool.compile(fs).value.dependencies;
      assert paths[0] == "s";
    }
  }

  function AlwaysB(text: string): string {
    "b"
  }

  function OldOnly(text: string): string {
    if text == "old" then "b" else ""
  }

  /** One file with content "old" and stamp 1, nothing cached. */
  function Start(): State {
    State(OneFile("old", 1), map[Snapshot("s", 1) := "old"], CacheFiles(None, [], []), NOWHERE, Idle)
  }

  lemma StartReachable(setup: Setup)
    ensures ReachableState(setup, Start())
  {
    assert Init(Start());
    InitReachable(InitStates(), Steps(setup), Start());
  }

  /** The file is written in its second version. */
  function Edited(s: State): State {
    s.(world := OneFile("new", 2), history := s.history[Snapshot("s", 2) := "new"])
  }

  lemma EditReached(setup: Setup, s: State)
    requires ReachableState(setup, s) && s.world == OneFile("old", 1) && Snapshot("s", 2) !in s.history
    ensures ReachableState(setup, Edited(s))
  {
    assert EditStep(setup, s, Edited(s), "s", Version("new", 2));
    Then(setup, s, Edited(s));
  }

  /** Storing one file from a state in which the cache misses. */
  lemma OneFileStores(setup: Setup, bitcodeOf: string -> string, s: State, content: string, stamp: Stamp)
    requires setup.tool == OneFileTool(bitcodeOf) && ReachableState(setup, s)
    requires s.world == OneFile(content, stamp) && s.phase == Idle && Load(s.files, s.world).None?
    ensures CanStore(setup, s) && ReachableState(setup, JustCompiled(setup, s)) &&
            ReachableState(setup, JustCaptured(setup, s))
    ensures JustCompiled(setup, s).phase == Compiled(Output(bitcodeOf(content), content, ""), OneFileSeen(stamp), ["s"])
    ensures JustCaptured(setup, s).phase ==
            Captured(Output(bitcodeOf(content), content, ""), OneFileSeen(stamp), OneFileMeta(stamp))
  {
    OneFileCapture(content, stamp);
    OneFileCompiles(bitcodeOf, content, stamp);
    CompileReaches(setup, s);
    CaptureReaches(setup, s);
  }

  /** The first version is stored completely. */
  function OldStored(): State {
    State(OneFile("old", 1), map[Snapshot("s", 1) := "old"], CacheFiles(Some(OneFileMeta(1)), "b", "old"),
          Origins(Some(OneFileSeen(1)), Some(OneFileSeen(1)), Some(OneFileSeen(1))), Idle)
  }

  lemma OldStoredReached(setup: Setup, bitcodeOf: string -> string)
    requires setup.tool == OneFileTool(bitcodeOf) && bitcodeOf("old") == "b"
    ensures ReachableState(setup, OldStored())
  {
    StartReachable(setup);
    OneFileStores(setup, bitcodeOf, Start(), "old", 1);
    WritesReach(setup, JustCaptured(setup, Start()));
    assert AfterStore(JustCaptured(setup, Start())) == OldStored();
  }

  /** Storing the second version over the first. */
  lemma NewCapturedReached(setup: Setup, bitcodeOf: string -> string)
    requires setup.tool == OneFileTool(bitcodeOf) && bitcodeOf("old") == "b"
    ensures ReachableState(setup, NewCaptured(bitcodeOf("new")))
  {
    OldStoredReached(setup, bitcodeOf);
    EditReached(setup, OldStored());
    var s := Edited(OldStored());
    assert !IsSnapshotCurrent(s.world, SnapshotsOf(s.files.meta.value)[0]);
    OneFileStores(setup, bitcodeOf, s, "new", 2);
    assert JustCaptured(setup, s) == NewCaptured(bitcodeOf("new"));
  }

  function NewCaptured(bitcode: string): State {
    Edited(OldStored()).(phase := Captured(Output(bitcode, "new", ""), OneFileSeen(2), OneFileMeta(2)))
  }

  ghost predicate GoesStale(setup: Setup, s: State) {
    Determined(setup.tool) && AlwaysBitcode(setup.tool) && ReachableState(setup, s) && StaleHit(setup.tool, s)
  }

  /** An edit between compiling and stamp capture can make a later hit stale. */
  lemma LateCaptureCanGoStale(around: Surroundings)
    requires !around.quiet
    ensures exists tool, s :: GoesStale(Setup(tool, around), s)
  {
    var tool := OneFileTool(AlwaysB);
    var setup := Setup(tool, around);
    var s := LateCaptured();
    LateCaptureReached(setup);
    WritesReach(setup, s);
    OneFileCompiles(AlwaysB, "new", 2);
    OneFileDetermined(AlwaysB);
    assert Load(AfterStore(s).files, AfterStore(s).world) == Some(Output("b", "old", ""));
    assert GoesStale(Setup(tool, around), AfterStore(s));
  }

  /** The first version is compiled, the second version's stamp captured. */
  function LateCaptured(): State {
    Edited(Start()).(phase := Captured(Output("b", "old", ""), OneFileSeen(1), OneFileMeta(2)))
  }

  lemma LateCaptureReached(setup: Setup)
    requires setup.tool == OneFileTool(AlwaysB) && !setup.around.quiet
    ensures ReachableState(setup, LateCaptured())
  {
    StartReachable(setup);
    OneFileStores(setup, AlwaysB, Start(), "old", 1);
    var s1 := JustCompiled(setup, Start());
    EditReached(setup, s1);
    OneFileCapture("new", 2);
    assert CaptureStep(setup, Edited(s1), LateCaptured());
    Then(setup, Edited(s1), LateCaptured());
  }

  /** Putting a file back with its old stamp, after a store of the newer version stopped before
      its metadata, makes the old metadata vouch for the newer output. */
  lemma RestoredFileCanGoStale(around: Surroundings)
    requires !around.freshStamps
    ensures exists tool, s :: GoesStale(Setup(tool, around), s)
  {
    var tool := OneFileTool(AlwaysB);
    var setup := Setup(tool, around);
    RestoredReached(setup);
    OneFileCompiles(AlwaysB, "old", 1);
    OneFileDetermined(AlwaysB);
    assert Load(Restored().files, Restored().world) == Some(Output("b", "new", ""));
    assert GoesStale(Setup(tool, around), Restored());
  }

  /** Metadata of the first version, texts of the second, and the first version back in place. */
  function Restored(): State {
    State(OneFile("old", 1), map[Snapshot("s", 1) := "old", Snapshot("s", 2) := "new"],
          CacheFiles(Some(OneFileMeta(1)), "b", "new"),
          Origins(Some(OneFileSeen(2)), Some(OneFileSeen(2)), Some(OneFileSeen(1))), Idle)
  }

  lemma RestoredReached(setup: Setup)
    requires setup.tool == OneFileTool(AlwaysB) && !setup.around.freshStamps
    ensures ReachableState(setup, Restored())
  {
    var t := Abandoned();
    AbandonedReached(setup);
    assert t.history[Snapshot("s", 1) := "old"] == t.history;
    assert EditStep(setup, t, Restored(), "s", Version("old", 1));
    Then(setup, t, Restored());
  }

  /** The store of the second version stopped before its metadata. */
  function Abandoned(): State {
    Edited(OldStored()).(files := CacheFiles(Some(OneFileMeta(1)), "b", "new"),
                         from := Origins(Some(OneFileSeen(2)), Some(OneFileSeen(2)), Some(OneFileSeen(1))))
  }

  lemma AbandonedReached(setup: Setup)
    requires setup.tool == OneFileTool(AlwaysB)
    ensures ReachableState(setup, Abandoned())
  {
    NewCapturedReached(setup, AlwaysB);
    WithIrReached(setup, NewCaptured("b"));
    CutShort(setup, WithIr(NewCaptured("b")), Abandoned(), []);
  }

  /** A text that is cut short after success was reported ends up under current metadata. */
  lemma LateFailureCanGoStale(around: Surroundings)
    requires !around.soundWrites
    ensures exists tool, s :: GoesStale(Setup(tool, around), s)
  {
    var tool := OneFileTool(AlwaysB);
    var setup := Setup(tool, around);
    HalfStoredReached(setup);
    OneFileCompiles(AlwaysB, "old", 1);
    OneFileDetermined(AlwaysB);
    assert Load(HalfStored().files, HalfStored().world) == Some(Output("b", "", ""));
    assert GoesStale(Setup(tool, around), HalfStored());
  }

  /** The first version is stored, but nothing of the IR has arrived. */
  function HalfStored(): State {
    OldStored().(files := CacheFiles(Some(OneFileMeta(1)), "b", ""), from := OldStored().from.(ir := None))
  }

  lemma HalfStoredReached(setup: Setup)
    requires setup.tool == OneFileTool(AlwaysB) && !setup.around.soundWrites
    ensures ReachableState(setup, HalfStored())
  {
    StartReachable(setup);
    OneFileStores(setup, AlwaysB, Start(), "old", 1);
    var s := JustCaptured(setup, Start());
    WithIrReached(setup, s);
    var s1 := WithBitcode(s);
    var s2 := s1.(files := s1.files.(ir := ""), from := s1.from.(ir := None),
                  phase := WroteIr(s.phase.output, s.phase.seen, s.phase.meta));
    LateFailure(setup, s1, s2, "");
    assert WriteMetaStep(s2, HalfStored());
    Then(setup, s2, HalfStored());
  }

  /** If outputs may come without bitcode, an old bitcode file survives next to new IR. */
  lemma MissingBitcodeCanGoStale()
    ensures exists tool, s ::
            Determined(tool) && ReachableState(Setup(tool, Surroundings(true, true, true)), s) && StaleHit(tool, s)
  {
    var setup := Setup(OneFileTool(OldOnly), Surroundings(true, true, true));
    NewCapturedReached(setup, OldOnly);
    var s := NewCaptured("");
    WritesReach(setup, s);
    OneFileCompiles(OldOnly, "new", 2);
    OneFileDetermined(OldOnly);
    assert Load(AfterStore(s).files, AfterStore(s).world) == Some(Output("b", "new", ""));
    assert StaleHit(setup.tool, AfterStore(s));
  }
}
