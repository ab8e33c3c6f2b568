/** One call site's effects on the summary of its caller: the tables the code looks them up in,
    and the rules they implement. */
module LifetimeRules {
  import opened Options
  import opened MachineInt
  import opened EffectSummaries

  // What the IR queries say about one function's call sites

  /** A resolved storage location; inSignature stands for the Argument and ThisField scopes. */
  datatype Storage = Unresolved | Storage(inSignature: bool, argumentIndex: int, offset: nat)

  /** The canonical base a pointer is an offset from. */
  datatype Base = Parameter(index: nat) | Local(shadows: Option<nat>) | Global | Opaque

  datatype Actual = Actual(
    pointer: Storage,                 // storage the argument points to
    slot: Option<Storage>,            // storage of the slot it was loaded from
    contentReturned: bool,            // what it points to may be returned
    handle: Storage,                  // storage of the handle it denotes
    canonical: Option<(Base, nat)>,   // canonical base and constant offset
    pointees: map<nat, Storage>)      // per slot offset, storage of the one pointer stored there

  datatype Rule = Rule(action: Action, argIndex: nat, resourceKind: string)

  datatype Callee = Callee(stdlib: bool, declaration: bool, ctorOrDtor: bool, index: nat, external: Option<seq<Effect>>)

  /** A call with a known callee; rules are the model rules matching it. */
  datatype CallSite = CallSite(
    callee: Callee, rules: seq<Rule>, actuals: seq<Actual>,
    isVoid: bool, mayReachReturn: bool, storeDests: seq<Storage>)

  /** analysed: has a body and is not a standard-library internal. */
  datatype Function = Function(analysed: bool, sites: seq<CallSite>)

  type Program = seq<Function>
  type Summaries = map<nat, seq<Effect>>

  predicate Analysed(prog: Program, f: nat) {
    f < |prog| && prog[f].analysed
  }

  // Effects of one call site

  predicate Exportable(s: Storage) {
    s.Storage? && s.inSignature && s.argumentIndex >= 0
  }

  function EffectAt(action: Action, s: Storage, viaPointerSlot: bool, resourceKind: string): Effect
    requires Exportable(s)
  {
    Effect(action, s.argumentIndex, s.offset, viaPointerSlot, resourceKind)
  }

  function ReturnEffect(resourceKind: string): Effect {
    Effect(AcquireRet, 0, 0, false, resourceKind)
  }

  /** What a matching model rule contributes to the caller's summary. */
  function DirectEffects(site: CallSite, rule: Rule): seq<Effect> {
    match rule.action
    case AcquireOut =>
      if rule.argIndex >= |site.actuals| then [] else
      var actual := site.actuals[rule.argIndex];
      (if Exportable(actual.pointer) then
         [EffectAt(AcquireOut, actual.pointer, false, rule.resourceKind)]
       else if actual.slot.Some? && Exportable(actual.slot.value) then
         [EffectAt(AcquireOut, actual.slot.value, true, rule.resourceKind)]
       else []) +
      (if actual.contentReturned then [ReturnEffect(rule.resourceKind)] else [])
    case ReleaseArg =>
      if rule.argIndex >= |site.actuals| then [] else
      var handle := site.actuals[rule.argIndex].handle;
      if Exportable(handle) then [EffectAt(ReleaseArg, handle, false, rule.resourceKind)] else []
    case AcquireRet =>
      if site.isVoid || !site.mayReachReturn then [] else [ReturnEffect(rule.resourceKind)]
  }

  function StorageAt(base: Base, offset: nat): Storage {
    match base
    case Parameter(index) => Storage(true, index, offset)
    case Local(shadows) =>
      if offset == 0 && shadows.Some? then Storage(true, shadows.value, offset)
      else Storage(false, -1, offset)
    case Global => Storage(false, -1, offset)
    case Opaque => Unresolved
  }

  /** mapSummaryEffectToCallerStorage with the pointer-slot fallback allowed; the flag tells
      whether the fallback was used. */
  function MapToCaller(site: CallSite, effect: Effect): (Storage, bool) {
    if effect.argIndex >= |site.actuals| then (Unresolved, false) else
    var actual := site.actuals[effect.argIndex];
    if effect.action == ReleaseArg && !effect.viaPointerSlot && effect.offset == 0 && actual.handle.Storage? then
      (actual.handle, false)
    else if actual.canonical.None? then (Unresolved, false)
    else
      var (base, baseOffset) := actual.canonical.value;
      if effect.offset + baseOffset > UINT64_MAX then (Unresolved, false) else
      var mapped := baseOffset + effect.offset;
      if !effect.viaPointerSlot then (StorageAt(base, mapped), false)
      else if mapped in actual.pointees && actual.pointees[mapped].Storage? then (actual.pointees[mapped], false)
      else (StorageAt(base, mapped), true)
  }

  function StoredReturns(dests: seq<Storage>, resourceKind: string): seq<Effect> {
    if dests == [] then []
    else (if Exportable(dests[0]) then [EffectAt(AcquireOut, dests[0], false, resourceKind)] else []) +
         StoredReturns(dests[1..], resourceKind)
  }

  /** What one effect of the callee's summary becomes in the caller. */
  function MappedEffects(site: CallSite, effect: Effect): seq<Effect> {
    if effect.action == AcquireRet then
      if site.isVoid then []
      else StoredReturns(site.storeDests, effect.resourceKind) +
           (if site.mayReachReturn then [ReturnEffect(effect.resourceKind)] else [])
    else
      var (storage, fallback) := MapToCaller(site, effect);
      if Exportable(storage) then [EffectAt(effect.action, storage, fallback, effect.resourceKind)] else []
  }

  datatype Source = NoSummary | Internal(f: nat) | External(effects: seq<Effect>)

  /** Where the summary of an unmatched callee comes from. */
  function SourceOf(prog: Program, callee: Callee): Source {
    if callee.stdlib then NoSummary
    else if !callee.declaration && !callee.ctorOrDtor && Analysed(prog, callee.index) then Internal(callee.index)
    else if callee.external.Some? then External(callee.external.value)
    else NoSummary
  }

  // The rules themselves, read from the effect: when is e an effect of this call?

  /** The one effect that says a function returns a fresh handle. */
  ghost predicate FreshReturn(e: Effect) {
    e.action == AcquireRet && e.argIndex == 0 && e.offset == 0 && !e.viaPointerSlot
  }

  /** The storage is the one e speaks of in the function the call is in: so many bytes from one of
      its parameters. */
  ghost predicate SpeaksOf(e: Effect, s: Storage) {
    s == Storage(true, e.argIndex, e.offset)
  }

  ghost predicate HasActual(site: CallSite, i: nat, actual: Actual) {
    i < |site.actuals| && site.actuals[i] == actual
  }

  /** e is what a matching model rule says about this call. A fresh handle is returned if the call's
      result, or what it acquires into, is. A handle acquired into memory of a parameter is named
      by that memory, or failing that by the slot the pointer to it was loaded from. */
  ghost predicate RuleActs(site: CallSite, rule: Rule, e: Effect) {
    && e.resourceKind == rule.resourceKind
    && (|| (rule.action == AcquireRet && FreshReturn(e) && !site.isVoid && site.mayReachReturn)
        || exists actual :: HasActual(site, rule.argIndex, actual) && ActsOn(rule.action, actual, e))
  }

  ghost predicate ActsOn(action: Action, actual: Actual, e: Effect) {
    || (action == AcquireOut && FreshReturn(e) && actual.contentReturned)
    || (action == AcquireOut && e.action == AcquireOut && !e.viaPointerSlot && SpeaksOf(e, actual.pointer))
    || (action == AcquireOut && e.action == AcquireOut && e.viaPointerSlot &&
        actual.slot.Some? && SpeaksOf(e, actual.slot.value) && forall x :: !SpeaksOf(x, actual.pointer))
    || (action == ReleaseArg && e.action == ReleaseArg && !e.viaPointerSlot && SpeaksOf(e, actual.handle))
  }

  /** e is what the call makes of the callee's effect ce. A handle the callee returns is returned
      again, or stored into memory of a parameter, or both; any other effect moves with the
      operand. */
  ghost predicate CallGives(site: CallSite, ce: Effect, e: Effect) {
    && e.resourceKind == ce.resourceKind
    && (|| (ce.action == AcquireRet && !site.isVoid && FreshReturn(e) && site.mayReachReturn)
        || (ce.action == AcquireRet && !site.isVoid && e.action == AcquireOut && !e.viaPointerSlot &&
            exists dest :: dest in site.storeDests && SpeaksOf(e, dest))
        || (ce.action != AcquireRet && e.action == ce.action &&
            exists actual :: HasActual(site, ce.argIndex, actual) && Moves(actual, ce, e)))
  }

  /** The callee's effect is on the handle passed to it, and the caller knows where that is. */
  ghost predicate OnKnownHandle(actual: Actual, ce: Effect) {
    ce.action == ReleaseArg && !ce.viaPointerSlot && ce.offset == 0 && actual.handle.Storage?
  }

  /** The operand points at bytes from base, and the memory of the callee's effect lies at at. */
  ghost predicate LiesAt(actual: Actual, ce: Effect, base: Base, at: nat) {
    && at <= UINT64_MAX
    && at >= ce.offset
    && actual.canonical == Some((base, at - ce.offset))
  }

  ghost predicate PointeeAt(actual: Actual, at: nat, s: Storage) {
    at in actual.pointees && actual.pointees[at] == s && s.Storage?
  }

  /** A parameter's memory keeps its parameter; the local copy of a parameter stands for it, at its
      own address only. */
  ghost predicate BelongsTo(base: Base, at: nat, param: nat) {
    base == Parameter(param) || (base == Local(Some(param)) && at == 0)
  }

  /** e, in the caller, speaks of the memory that ce speaks of in the callee. Through a pointer slot
      it is the memory of the one pointer stored in the slot if the caller knows it, and the
      slot itself otherwise. */
  ghost predicate Moves(actual: Actual, ce: Effect, e: Effect) {
    if OnKnownHandle(actual, ce) then !e.viaPointerSlot && SpeaksOf(e, actual.handle)
    else exists base, at: nat :: LiesAt(actual, ce, base, at) && MovesTo(actual, ce, e, base, at)
  }

  ghost predicate MovesTo(actual: Actual, ce: Effect, e: Effect, base: Base, at: nat) {
    if ce.viaPointerSlot && exists s :: PointeeAt(actual, at, s) then
      !e.viaPointerSlot && PointeeAt(actual, at, Storage(true, e.argIndex, e.offset))
    else
      e.viaPointerSlot == ce.viaPointerSlot && e.offset == at && BelongsTo(base, at, e.argIndex)
  }

  /** The call's effects are those of an analysed function. */
  ghost predicate CallsAnalysed(prog: Program, callee: Callee, f: nat) {
    !callee.stdlib && !callee.declaration && !callee.ctorOrDtor && callee.index == f && Analysed(prog, f)
  }

  /** The call's effects are those recorded for another translation unit. */
  ghost predicate CallsImported(prog: Program, callee: Callee, effects: seq<Effect>) {
    !callee.stdlib && callee.external == Some(effects) && forall f :: !CallsAnalysed(prog, callee, f)
  }

  // The tables implement the rules

  lemma DirectEffectsAreRules(site: CallSite, rule: Rule, e: Effect)
    ensures e in DirectEffects(site, rule) <==> RuleActs(site, rule, e)
  {
    if rule.argIndex < |site.actuals| {
      var actual := site.actuals[rule.argIndex];
      assert HasActual(site, rule.argIndex, actual);
      ExportableIsSpokenOf(actual.pointer);
      if Exportable(actual.pointer) {
        assert exists x :: SpeaksOf(x, actual.pointer);
      }
    }
  }

  lemma ExportableIsSpokenOf(s: Storage)
    ensures Exportable(s) <==> exists x :: SpeaksOf(x, s)
  {
    if Exportable(s) {
      assert SpeaksOf(EffectAt(AcquireOut, s, false, ""), s);
    }
  }

  lemma {:induction false} StoredReturnsAreRules(dests: seq<Storage>, kind: string, e: Effect)
    ensures e in StoredReturns(dests, kind) <==>
            e.action == AcquireOut && !e.viaPointerSlot && e.resourceKind == kind &&
            exists dest :: dest in dests && SpeaksOf(e, dest)
  {
    if dests != [] {
      var first, rest := dests[0], dests[1..];
      StoredReturnsAreRules(rest, kind, e);
      assert forall dest :: dest in dests <==> dest == first || dest in rest;
      assert e.action == AcquireOut && !e.viaPointerSlot && e.resourceKind == kind && SpeaksOf(e, first) <==>
             Exportable(first) && e == EffectAt(AcquireOut, first, false, kind);
    }
  }

  lemma MapToCallerMoves(site: CallSite, ce: Effect, e: Effect)
    requires ce.argIndex < |site.actuals| && e.action == ce.action && e.resourceKind == ce.resourceKind
    ensures Moves(site.actuals[ce.argIndex], ce, e) <==>
            MapToCaller(site, ce).1 == e.viaPointerSlot && SpeaksOf(e, MapToCaller(site, ce).0)
  {
    var actual := site.actuals[ce.argIndex];
    if !OnKnownHandle(actual, ce) && actual.canonical.Some? {
      var (base, baseOffset) := actual.canonical.value;
      var at := baseOffset + ce.offset;
      if at <= UINT64_MAX {
        assert LiesAt(actual, ce, base, at);
        if at in actual.pointees && actual.pointees[at].Storage? {
          assert PointeeAt(actual, at, actual.pointees[at]);
        }
      }
    }
  }

  lemma MappedEffectsAreRules(site: CallSite, ce: Effect, e: Effect)
    ensures e in MappedEffects(site, ce) <==> CallGives(site, ce, e)
  {
    if ce.action == AcquireRet {
      StoredReturnsAreRules(site.storeDests, ce.resourceKind, e);
    } else if ce.argIndex < |site.actuals| {
      assert HasActual(site, ce.argIndex, site.actuals[ce.argIndex]);
      if e.action == ce.action && e.resourceKind == ce.resourceKind {
        MapToCallerMoves(site, ce, e);
      }
    }
  }

  lemma SourceIsKnown(prog: Program, callee: Callee)
    ensures forall f :: SourceOf(prog, callee) == Internal(f) <==> CallsAnalysed(prog, callee, f)
    ensures forall effects :: SourceOf(prog, callee) == External(effects) <==> CallsImported(prog, callee, effects)
  {
    if SourceOf(prog, callee).Internal? {
      assert CallsAnalysed(prog, callee, callee.index);
    }
  }

  // What the rules mean for addresses

  /** Where the parameters of a function point, and what pointers memory holds, during one call. */
  datatype Frame = Frame(param: nat -> int, mem: int -> int)

  /** The memory an effect speaks of. */
  ghost function AddressOf(e: Effect, frame: Frame): int {
    var at := frame.param(e.argIndex) + e.offset;
    if e.viaPointerSlot then frame.mem(at) else at
  }

  ghost function StartOf(s: Storage, frame: Frame): int
    requires Exportable(s)
  {
    frame.param(s.argumentIndex) + s.offset
  }

  ghost predicate IsStart(s: Storage, frame: Frame, address: int) {
    Exportable(s) ==> address == StartOf(s, frame)
  }

  /** What the IR queries say about an operand is true of the address ptr it evaluates to. */
  ghost predicate Truthful(actual: Actual, frame: Frame, ptr: int) {
    && IsStart(actual.pointer, frame, ptr)
    && IsStart(actual.handle, frame, ptr)
    && (actual.slot.Some? && Exportable(actual.slot.value) ==> frame.mem(StartOf(actual.slot.value, frame)) == ptr)
    && forall base, offset :: actual.canonical == Some((base, offset)) ==>
      && (forall k :: BelongsTo(base, offset, k) ==> ptr == frame.param(k) + offset)
      && (forall at, s :: PointeeAt(actual, at, s) ==> IsStart(s, frame, frame.mem(ptr - offset + at)))
  }

  /** What a model rule adds to the summary speaks of the memory its operand points to. */
  lemma RuleEffectsKeepAddress(action: Action, actual: Actual, e: Effect, frame: Frame, ptr: int)
    requires ActsOn(action, actual, e) && e.action != AcquireRet
    requires Truthful(actual, frame, ptr)
    ensures AddressOf(e, frame) == ptr
  {
  }

  /** What a call makes of its callee's effect speaks of the same memory. */
  lemma MovedEffectsKeepAddress(actual: Actual, ce: Effect, e: Effect, caller: Frame, callee: Frame)
    requires Moves(actual, ce, e)
    requires Truthful(actual, caller, callee.param(ce.argIndex)) && callee.mem == caller.mem
    ensures AddressOf(e, caller) == AddressOf(ce, callee)
  {
    if !OnKnownHandle(actual, ce) {
      var base, at: nat :| LiesAt(actual, ce, base, at) && MovesTo(actual, ce, e, base, at);
      MovedToAddress(actual, ce, e, caller, callee, base, at);
    }
  }

  lemma MovedToAddress(
    actual: Actual, ce: Effect, e: Effect, caller: Frame, callee: Frame, base: Base, at: nat)
    requires LiesAt(actual, ce, base, at) && MovesTo(actual, ce, e, base, at)
    requires Truthful(actual, caller, callee.param(ce.argIndex)) && callee.mem == caller.mem
    ensures AddressOf(e, caller) == AddressOf(ce, callee)
  {
    var ptr, baseOffset := callee.param(ce.argIndex), at - ce.offset;
    assert actual.canonical == Some((base, baseOffset));
    if ce.viaPointerSlot && exists s :: PointeeAt(actual, at, s) {
      var s := Storage(true, e.argIndex, e.offset);
      assert IsStart(s, caller, caller.mem(ptr - baseOffset + at));
    } else {
      assert BelongsTo(base, baseOffset, e.argIndex);
    }
  }
}
