/** Resource-lifetime effects, their string keys, and the summary indexes exchanged
    between translation units. */
module EffectSummaries {
  import opened Ordering
  import opened Sequences
  import Decimal

  datatype Action = AcquireOut | AcquireRet | ReleaseArg

  datatype Effect = Effect(action: Action, argIndex: nat, offset: nat, viaPointerSlot: bool, resourceKind: string)

  // Keys

  function ActionCode(a: Action): nat {
    match a
    case AcquireOut => 0
    case AcquireRet => 1
    case ReleaseArg => 2
  }

  function JoinFields(fields: seq<string>, last: string): string {
    if fields == [] then last else fields[0] + "|" + JoinFields(fields[1..], last)
  }

  function KeyFields(e: Effect): seq<string> {
    [Decimal.Render(ActionCode(e.action)), Decimal.Render(e.argIndex), Decimal.Render(e.offset),
     if e.viaPointerSlot then "1" else "0"]
  }

  function EncodeKey(e: Effect): string {
    JoinFields(KeyFields(e), e.resourceKind)
  }

  /** A field without a bar is cut off unambiguously at the first bar. */
  lemma {:induction false} FieldSplit(a: string, x: string, b: string, y: string)
    requires '|' !in a && '|' !in b
    requires a + "|" + x == b + "|" + y
    ensures a == b && x == y
  {
    var s, t := a + "|" + x, b + "|" + y;
    assert s[|a|] == '|' && t[|b|] == '|';
    assert forall i :: 0 <= i < |a| ==> s[i] == a[i] && a[i] in a;
    assert forall i :: 0 <= i < |b| ==> t[i] == b[i] && b[i] in b;
    assert s[..|a|] == a && t[..|b|] == b;
    assert s[|a| + 1..] == x && t[|b| + 1..] == y;
  }

  lemma {:induction false} JoinInjective(fields: seq<string>, last: string, fields': seq<string>, last': string)
    requires |fields| == |fields'|
    requires forall i :: 0 <= i < |fields| ==> '|' !in fields[i] && '|' !in fields'[i]
    requires JoinFields(fields, last) == JoinFields(fields', last')
    ensures fields == fields' && last == last'
  {
    if fields != [] {
      FieldSplit(fields[0], JoinFields(fields[1..], last), fields'[0], JoinFields(fields'[1..], last'));
      JoinInjective(fields[1..], last, fields'[1..], last');
      assert fields == [fields[0]] + fields[1..] && fields' == [fields'[0]] + fields'[1..];
    }
  }

  lemma FieldsHaveNoBar(e: Effect)
    ensures forall i :: 0 <= i < 4 ==> '|' !in KeyFields(e)[i]
  {
    assert forall n :: Decimal.AllDigits(Decimal.Render(n));
  }

  /** The key determines the effect, whatever the resource kind contains. */
  lemma KeyInjective(e: Effect, f: Effect)
    requires EncodeKey(e) == EncodeKey(f)
    ensures e == f
  {
    FieldsHaveNoBar(e);
    FieldsHaveNoBar(f);
    JoinInjective(KeyFields(e), e.resourceKind, KeyFields(f), f.resourceKind);
    var s, t := KeyFields(e), KeyFields(f);
    assert s[0] == t[0] && s[1] == t[1] && s[2] == t[2] && s[3] == t[3];
    assert Decimal.ValueOf(s[0]) == Decimal.ValueOf(t[0]);
    assert Decimal.ValueOf(s[1]) == Decimal.ValueOf(t[1]);
    assert Decimal.ValueOf(s[2]) == Decimal.ValueOf(t[2]);
  }

  function Keys(effects: seq<Effect>): seq<string> {
    if effects == [] then [] else [EncodeKey(effects[0])] + Keys(effects[1..])
  }

  predicate KeyLess(e: Effect, f: Effect) {
    StringLess(EncodeKey(e), EncodeKey(f))
  }

  lemma KeyLessIsStrictTotal()
    ensures StrictTotal(KeyLess)
  {
    StringLessIsStrictTotal();
    forall e, f ensures e == f || KeyLess(e, f) || KeyLess(f, e) {
      if EncodeKey(e) == EncodeKey(f) {
        KeyInjective(e, f);
      }
    }
  }

  lemma RepeatCount(s: seq<Effect>, i: nat, j: nat)
    requires i < j < |s| && s[i] == s[j]
    ensures multiset(s)[s[i]] >= 2
  {
    assert s == s[..j] + ([s[j]] + s[j + 1..]);
    assert s[..j][i] == s[i];
    assert s[i] in s[..j];
  }

  // A summary as computeFunctionLifetimeSummaries stores it

  ghost predicate Canonical(effects: seq<Effect>) {
    NoDuplicates(effects) && Sorted(KeyLess, effects)
  }

  /** The sort at the end of buildFunctionLifetimeSummary. */
  function SortEffects(effects: seq<Effect>): (r: seq<Effect>)
    ensures multiset(r) == multiset(effects)
    ensures Contents(r) == Contents(effects)
  {
    var r := Sort(KeyLess, effects);
    assert forall e :: e in r <==> e in multiset(r);
    assert forall e :: e in effects <==> e in multiset(effects);
    r
  }

  ghost predicate AscendingKeys(effects: seq<Effect>) {
    forall i, j :: 0 <= i < j < |effects| ==> StringLess(EncodeKey(effects[i]), EncodeKey(effects[j]))
  }

  lemma SortCanonicalises(effects: seq<Effect>)
    requires NoDuplicates(effects)
    ensures Canonical(SortEffects(effects))
    ensures AscendingKeys(SortEffects(effects))
  {
    KeyLessIsStrictTotal();
    SortSorted(KeyLess, effects);
    var r := SortEffects(effects);
    NoDuplicatesMultiset(effects);
    assert forall e :: multiset(r)[e] <= 1;
    forall i, j | 0 <= i < j < |r| ensures r[i] != r[j] {
      if r[i] == r[j] {
        RepeatCount(r, i, j);
      }
    }
  }

  /** functionLifetimeSummaryEquals, the test that decides "changed": position by position on
      keys, yet on canonical summaries it is exactly equality of effect sets. */
  method SummaryEquals(lhs: seq<Effect>, rhs: seq<Effect>) returns (same: bool)
    ensures same <==> lhs == rhs
    ensures Canonical(lhs) && Canonical(rhs) ==> (same <==> Contents(lhs) == Contents(rhs))
  {
    CanonicalUnique(lhs, rhs);
    if |lhs| != |rhs| {
      return false;
    }
    for i := 0 to |lhs|
      invariant lhs[..i] == rhs[..i]
    {
      if EncodeKey(lhs[i]) != EncodeKey(rhs[i]) {
        return false;
      }
      KeyInjective(lhs[i], rhs[i]);
    }
    return true;
  }

  lemma CanonicalUnique(a: seq<Effect>, b: seq<Effect>)
    ensures Canonical(a) && Canonical(b) && Contents(a) == Contents(b) ==> a == b
  {
    if Canonical(a) && Canonical(b) && Contents(a) == Contents(b) {
      KeyLessIsStrictTotal();
      NoDuplicatesMultiset(a);
      NoDuplicatesMultiset(b);
      SortedUnique(KeyLess, a, b);
    }
  }

  // Merging indexes

  type Functions = map<string, seq<Effect>>

  /** The effects of a function known to both sides after the merge. */
  function AppendMissing(dst: seq<Effect>, src: seq<Effect>): seq<Effect>
    decreases |src|
  {
    if src == [] then dst
    else AppendMissing(if src[0] in dst then dst else dst + [src[0]], src[1..])
  }

  function Merged(dst: Functions, src: Functions): Functions {
    map name | name in dst.Keys + src.Keys ::
      if name !in src then dst[name]
      else if name !in dst then src[name]
      else AppendMissing(dst[name], src[name])
  }

  ghost predicate Includes(dst: Functions, src: Functions) {
    forall name :: name in src ==> name in dst && Contents(src[name]) <= Contents(dst[name])
  }

  /** How often each effect occurs after the merge: dst's own count, or once. */
  lemma {:induction false} AppendMissingCount(dst: seq<Effect>, src: seq<Effect>, e: Effect)
    ensures multiset(AppendMissing(dst, src))[e] ==
            if e in dst then multiset(dst)[e] else if e in src then 1 else 0
    decreases |src|
  {
    if src != [] {
      assert src == [src[0]] + src[1..];
      var d := if src[0] in dst then dst else dst + [src[0]];
      AppendMissingCount(d, src[1..], e);
      assert multiset(d)[e] == multiset(dst)[e] + if src[0] !in dst && e == src[0] then 1 else 0;
    }
  }

  lemma AppendMissingIn(dst: seq<Effect>, src: seq<Effect>, e: Effect)
    ensures e in AppendMissing(dst, src) <==> e in dst || e in src
  {
    AppendMissingCount(dst, src, e);
    assert e in AppendMissing(dst, src) <==> e in multiset(AppendMissing(dst, src));
    assert e in dst <==> e in multiset(dst);
  }

  lemma {:induction false} AppendNothing(dst: seq<Effect>, src: seq<Effect>)
    requires Contents(src) <= Contents(dst)
    ensures AppendMissing(dst, src) == dst
    decreases |src|
  {
    if src != [] {
      assert src[0] in Contents(src);
      forall e | e in src[1..] ensures e in Contents(src) {}
      AppendNothing(dst, src[1..]);
    }
  }

  class ResourceSummaryIndex {
    var functions: Functions

    constructor (functions: Functions)
      ensures this.functions == functions
    {
      this.functions := functions;
    }

    /** mergeResourceSummaryIndex. */
    method MergeFrom(src: Functions) returns (changed: bool)
      modifies this
      ensures functions == Merged(old(functions), src)
      ensures changed <==> !Includes(old(functions), src)
    {
      changed := false;
      var todo := src.Keys;
      ghost var done: set<string> := {};
      while todo != {}
        invariant done !! todo && done + todo == src.Keys
        invariant MergedOn(old(functions), src, functions, done)
        invariant changed <==> !IncludesOn(old(functions), src, done)
        decreases todo
      {
        var name :| name in todo;
        ghost var before := functions;
        if name !in functions {
          functions := functions[name := src[name]];
          changed := true;
        } else {
          var effects, grew := MergeEffects(functions[name], src[name]);
          functions := functions[name := effects];
          changed := changed || grew;
        }
        MergeOne(old(functions), src, before, done, name);
        todo, done := todo - {name}, done + {name};
      }
      MergedOnAll(old(functions), src, functions);
    }
  }

  /** The state of the merge after the names done. */
  ghost predicate MergedOn(dst: Functions, src: Functions, now: Functions, done: set<string>)
    requires done <= src.Keys
  {
    && now.Keys == dst.Keys + done
    && (forall name :: name in now && name !in done ==> now[name] == dst[name])
    && (forall name :: name in done ==> now[name] == Merged(dst, src)[name])
  }

  ghost predicate IncludesOn(dst: Functions, src: Functions, done: set<string>)
    requires done <= src.Keys
  {
    forall name :: name in done ==> name in dst && Contents(src[name]) <= Contents(dst[name])
  }

  lemma MergeOne(dst: Functions, src: Functions, now: Functions, done: set<string>, name: string)
    requires done <= src.Keys && name in src && name !in done && MergedOn(dst, src, now, done)
    ensures name in now <==> name in dst
    ensures name in now ==> now[name] == dst[name]
    ensures MergedOn(dst, src, now[name := Merged(dst, src)[name]], done + {name})
    ensures Merged(dst, src)[name] == if name in dst then AppendMissing(dst[name], src[name]) else src[name]
    ensures IncludesOn(dst, src, done + {name}) <==>
            IncludesOn(dst, src, done) && name in dst && Contents(src[name]) <= Contents(dst[name])
  {
    assert forall n :: n in done + {name} <==> n in done || n == name;
  }

  lemma MergedOnAll(dst: Functions, src: Functions, now: Functions)
    requires MergedOn(dst, src, now, src.Keys)
    ensures now == Merged(dst, src)
    ensures IncludesOn(dst, src, src.Keys) <==> Includes(dst, src)
  {
    assert now.Keys == Merged(dst, src).Keys;
  }

  ghost predicate KeysOf(keys: set<string>, effects: seq<Effect>) {
    forall e :: EncodeKey(e) in keys <==> e in effects
  }

  function KeySet(effects: seq<Effect>): set<string> {
    set e | e in effects :: EncodeKey(e)
  }

  lemma KeysOfStart(effects: seq<Effect>)
    ensures KeysOf(KeySet(effects), effects)
  {
    var keys := KeySet(effects);
    forall e ensures EncodeKey(e) in keys <==> e in effects {
      if EncodeKey(e) in keys {
        var f :| f in effects && EncodeKey(f) == EncodeKey(e);
        KeyInjective(e, f);
      }
    }
  }

  lemma KeysOfAdd(keys: set<string>, effects: seq<Effect>, x: Effect)
    requires KeysOf(keys, effects)
    ensures KeysOf(keys + {EncodeKey(x)}, effects + [x])
  {
    forall e ensures EncodeKey(e) in keys + {EncodeKey(x)} <==> e in effects + [x] {
      if EncodeKey(e) == EncodeKey(x) { KeyInjective(e, x); }
    }
  }

  /** One round of the inner loop: the key set decides, and answers for the effect itself. */
  lemma MergeStep(src: seq<Effect>, i: nat, keys: set<string>, effects: seq<Effect>)
    requires i < |src| && KeysOf(keys, effects)
    ensures EncodeKey(src[i]) in keys <==> src[i] in effects
    ensures KeysOf(keys + {EncodeKey(src[i])}, effects + [src[i]])
    ensures AppendMissing(effects, src[i..]) ==
            AppendMissing(if src[i] in effects then effects else effects + [src[i]], src[i + 1..])
    ensures Contents(src[i..]) == Contents(src[i + 1..]) + {src[i]}
  {
    KeysOfAdd(keys, effects, src[i]);
    assert src[i..][1..] == src[i + 1..] && src[i..] == [src[i]] + src[i + 1..];
  }

  /** The inner loop of the merge, with its set of existing keys. */
  method MergeEffects(dst: seq<Effect>, src: seq<Effect>) returns (effects: seq<Effect>, grew: bool)
    ensures effects == AppendMissing(dst, src)
    ensures grew <==> !(Contents(src) <= Contents(dst))
  {
    var existingKeys := KeySet(dst);
    effects, grew := dst, false;
    KeysOfStart(dst);
    for i := 0 to |src|
      invariant AppendMissing(effects, src[i..]) == AppendMissing(dst, src)
      invariant KeysOf(existingKeys, effects)
      invariant grew || !(Contents(src[i..]) <= Contents(effects)) <==> !(Contents(src) <= Contents(dst))
    {
      MergeStep(src, i, existingKeys, effects);
      var key := EncodeKey(src[i]);
      if key !in existingKeys {
        assert src[i] in Contents(src[i..]) && src[i] !in Contents(effects);
        existingKeys := existingKeys + {key};
        effects := effects + [src[i]];
        grew := true;
      }
    }
  }

  // Comparing indexes

  ghost predicate SameEffects(lhs: seq<Effect>, rhs: seq<Effect>) {
    multiset(lhs) == multiset(rhs)
  }

  ghost predicate SameIndex(lhs: Functions, rhs: Functions) {
    lhs.Keys == rhs.Keys && forall name :: name in lhs ==> SameEffects(lhs[name], rhs[name])
  }

  lemma {:induction false} KeysMultiset(a: seq<Effect>, e: Effect)
    ensures multiset(Keys(a))[EncodeKey(e)] == multiset(a)[e]
    decreases |a|
  {
    if a != [] {
      KeysMultiset(a[1..], e);
      CountWithHead(a[0], a[1..], e);
      CountWithHead(EncodeKey(a[0]), Keys(a[1..]), EncodeKey(e));
      assert a == [a[0]] + a[1..];
      if EncodeKey(a[0]) == EncodeKey(e) { KeyInjective(a[0], e); }
    }
  }

  lemma CountWithHead<T>(head: T, tail: seq<T>, x: T)
    ensures multiset([head] + tail)[x] == (if head == x then 1 else 0) + multiset(tail)[x]
  {
  }

  /** resourceSummaryFunctionEquals compares sorted key vectors; that is equality of
      effect multisets. */
  predicate FunctionEquals(lhs: seq<Effect>, rhs: seq<Effect>) {
    Sort(StringLess, Keys(lhs)) == Sort(StringLess, Keys(rhs))
  }

  lemma KeysDetermineEffects(lhs: seq<Effect>, rhs: seq<Effect>)
    ensures multiset(Keys(lhs)) == multiset(Keys(rhs)) <==> SameEffects(lhs, rhs)
  {
    if multiset(Keys(lhs)) == multiset(Keys(rhs)) {
      forall e ensures multiset(lhs)[e] == multiset(rhs)[e] {
        KeysMultiset(lhs, e);
        KeysMultiset(rhs, e);
      }
    }
    if SameEffects(lhs, rhs) {
      forall k ensures multiset(Keys(lhs))[k] == multiset(Keys(rhs))[k] {
        KeyCountsAgree(lhs, rhs, k);
      }
    }
  }

  lemma KeyCountsAgree(lhs: seq<Effect>, rhs: seq<Effect>, key: string)
    requires SameEffects(lhs, rhs)
    ensures multiset(Keys(lhs))[key] == multiset(Keys(rhs))[key]
  {
    if e :| EncodeKey(e) == key {
      KeysMultiset(lhs, e);
      KeysMultiset(rhs, e);
    } else {
      KeysAreKeys(lhs, key);
      KeysAreKeys(rhs, key);
    }
  }

  lemma {:induction false} KeysAreKeys(a: seq<Effect>, key: string)
    requires forall e :: EncodeKey(e) != key
    ensures key !in multiset(Keys(a))
  {
    if a != [] {
      KeysAreKeys(a[1..], key);
    }
  }

  lemma FunctionEqualsMeaning(lhs: seq<Effect>, rhs: seq<Effect>)
    ensures FunctionEquals(lhs, rhs) <==> SameEffects(lhs, rhs)
  {
    StringLessIsStrictTotal();
    SortCanonical(StringLess, Keys(lhs), Keys(rhs));
    KeysDetermineEffects(lhs, rhs);
  }

  lemma SubsetOfSameSize<T>(a: set<T>, b: set<T>)
    requires a <= b && |a| == |b|
    ensures a == b
  {
    assert b == a + (b - a);
  }

  /** resourceSummaryIndexEquals. */
  method IndexEquals(lhs: Functions, rhs: Functions) returns (same: bool)
    ensures same <==> SameIndex(lhs, rhs)
  {
    assert |lhs| == |lhs.Keys| && |rhs| == |rhs.Keys|;
    if |lhs| != |rhs| {
      return false;
    }
    var todo := lhs.Keys;
    while todo != {}
      invariant todo <= lhs.Keys
      invariant forall name :: name in lhs && name !in todo ==> name in rhs && SameEffects(lhs[name], rhs[name])
      decreases todo
    {
      var name :| name in todo;
      if name !in rhs {
        return false;
      }
      FunctionEqualsMeaning(lhs[name], rhs[name]);
      if !FunctionEquals(lhs[name], rhs[name]) {
        return false;
      }
      todo := todo - {name};
    }
    SubsetOfSameSize(lhs.Keys, rhs.Keys);
    return true;
  }

  /** computeChangedResourceFunctionNames: exactly the names on which the indexes differ, so
      none is reported precisely when resourceSummaryIndexEquals would accept them. */
  method ChangedNames(prev: Functions, next: Functions) returns (changed: set<string>)
    ensures forall name :: name in changed <==>
              name in prev.Keys + next.Keys && !(name in prev && name in next && SameEffects(prev[name], next[name]))
    ensures changed == {} <==> SameIndex(prev, next)
  {
    changed := {};
    var todo := next.Keys;
    while todo != {}
      invariant todo <= next.Keys
      invariant forall name :: name in changed <==>
        name in next && name !in todo && !(name in prev && SameEffects(prev[name], next[name]))
      decreases todo
    {
      var name :| name in todo;
      if name !in prev {
        changed := changed + {name};
      } else {
        FunctionEqualsMeaning(next[name], prev[name]);
        if !FunctionEquals(next[name], prev[name]) {
          changed := changed + {name};
        }
      }
      todo := todo - {name};
    }
    changed := changed + (prev.Keys - next.Keys);
    assert SameIndex(prev, next) ==> forall name :: name !in changed;
    if changed == {} {
      forall name | name in prev.Keys + next.Keys
        ensures name in prev && name in next && SameEffects(prev[name], next[name])
      {
        assert name !in changed;
      }
      assert prev.Keys == next.Keys;
    }
  }

  // The algebra of merging

  /** Merging is the pointwise union and never introduces a duplicate. */
  lemma MergedIsUnion(dst: Functions, src: Functions)
    ensures Merged(dst, src).Keys == dst.Keys + src.Keys
    ensures forall name :: name in dst && name in src ==>
              Contents(Merged(dst, src)[name]) == Contents(dst[name]) + Contents(src[name])
    ensures Includes(Merged(dst, src), dst) && Includes(Merged(dst, src), src)
  {
    forall name | name in dst && name in src
      ensures Contents(Merged(dst, src)[name]) == Contents(dst[name]) + Contents(src[name])
    {
      forall e ensures e in Contents(Merged(dst, src)[name]) <==> e in Contents(dst[name]) + Contents(src[name]) {
        AppendMissingIn(dst[name], src[name], e);
      }
    }
  }

  lemma {:induction false} AppendMissingNoDuplicates(dst: seq<Effect>, src: seq<Effect>)
    requires NoDuplicates(dst)
    ensures NoDuplicates(AppendMissing(dst, src))
    decreases |src|
  {
    if src != [] {
      AppendMissingNoDuplicates(if src[0] in dst then dst else dst + [src[0]], src[1..]);
    }
  }

  /** Merging what is already there leaves the index untouched, and repeating a merge does. */
  lemma MergeIdempotent(dst: Functions, src: Functions)
    ensures Includes(dst, src) ==> Merged(dst, src) == dst
    ensures Merged(Merged(dst, src), src) == Merged(dst, src)
  {
    MergedIsUnion(dst, src);
    var m := Merged(dst, src);
    forall name | name in m ensures Merged(m, src)[name] == m[name] {
      if name in src { AppendNothing(m[name], src[name]); }
    }
    assert Merged(m, src) == m;
    if Includes(dst, src) {
      forall name | name in dst ensures m[name] == dst[name] {
        if name in src { AppendNothing(dst[name], src[name]); }
      }
      assert m == dst;
    }
  }

  lemma MergeAssociative(a: Functions, b: Functions, c: Functions)
    ensures SameIndex(Merged(Merged(a, b), c), Merged(a, Merged(b, c)))
  {
    var l, r := Merged(Merged(a, b), c), Merged(a, Merged(b, c));
    assert l.Keys == r.Keys;
    forall name | name in l ensures SameEffects(l[name], r[name]) {
      if name in a && name in b && name in c {
        forall e ensures multiset(l[name])[e] == multiset(r[name])[e] {
          AppendMissingCount(AppendMissing(a[name], b[name]), c[name], e);
          AppendMissingCount(a[name], b[name], e);
          AppendMissingIn(a[name], b[name], e);
          AppendMissingCount(a[name], AppendMissing(b[name], c[name]), e);
          AppendMissingIn(b[name], c[name], e);
        }
      }
    }
  }

  /** For functions known to both sides: every effect is repeated equally often, or one side
      lacks it and the other has it once. */
  ghost predicate RepeatsAgree(d: seq<Effect>, s: seq<Effect>) {
    forall e :: e in d || e in s ==>
      if e in d && e in s then multiset(d)[e] == multiset(s)[e]
      else multiset(d)[e] <= 1 && multiset(s)[e] <= 1
  }

  /** The two merge orders agree exactly when repeated effects agree; in particular always on
      duplicate-free indexes. */
  lemma MergeCommutesExactly(d: Functions, s: Functions)
    ensures SameIndex(Merged(d, s), Merged(s, d)) <==>
            forall name :: name in d && name in s ==> RepeatsAgree(d[name], s[name])
  {
    var l, r := Merged(d, s), Merged(s, d);
    assert l.Keys == r.Keys;
    forall name | name in d && name in s
      ensures SameEffects(l[name], r[name]) <==> RepeatsAgree(d[name], s[name])
    {
      CommutesOn(d[name], s[name]);
    }
    if SameIndex(l, r) {
      forall name | name in d && name in s ensures RepeatsAgree(d[name], s[name]) {
        assert SameEffects(l[name], r[name]);
      }
    }
  }

  lemma CommutesOn(d: seq<Effect>, s: seq<Effect>)
    ensures SameEffects(AppendMissing(d, s), AppendMissing(s, d)) <==> RepeatsAgree(d, s)
  {
    var l, r := AppendMissing(d, s), AppendMissing(s, d);
    forall e ensures multiset(l)[e] == multiset(r)[e] <==>
                     if e in d && e in s then multiset(d)[e] == multiset(s)[e]
                     else multiset(d)[e] <= 1 && multiset(s)[e] <= 1
    {
      AppendMissingCount(d, s, e);
      AppendMissingCount(s, d, e);
      assert e in d <==> multiset(d)[e] > 0;
      assert e in s <==> multiset(s)[e] > 0;
    }
    if SameEffects(l, r) {
      forall e | e in d || e in s
        ensures if e in d && e in s then multiset(d)[e] == multiset(s)[e]
                else multiset(d)[e] <= 1 && multiset(s)[e] <= 1
      {
        assert multiset(l)[e] == multiset(r)[e];
      }
    }
    if RepeatsAgree(d, s) {
      forall e ensures multiset(l)[e] == multiset(r)[e] {
        assert e !in d ==> multiset(d)[e] == 0;
        assert e !in s ==> multiset(s)[e] == 0;
      }
      assert multiset(l) == multiset(r);
    }
  }

  lemma NoRepeatsAgree(d: seq<Effect>, s: seq<Effect>)
    requires NoDuplicates(d) && NoDuplicates(s)
    ensures RepeatsAgree(d, s)
  {
    NoDuplicatesMultiset(d);
    NoDuplicatesMultiset(s);
    forall e | e in d || e in s
      ensures if e in d && e in s then multiset(d)[e] == multiset(s)[e]
              else multiset(d)[e] <= 1 && multiset(s)[e] <= 1
    {
      assert multiset(d)[e] == if e in Contents(d) then 1 else 0;
      assert multiset(s)[e] == if e in Contents(s) then 1 else 0;
    }
  }

  /** A repeated effect is enough to make the result depend on the merge order. Summaries the
      analyzer builds never repeat one; a summary cache edited by hand may. */
  lemma MergeOrderCanMatter()
    ensures exists d: Functions, s: Functions :: !SameIndex(Merged(d, s), Merged(s, d))
  {
    var e := Effect(ReleaseArg, 0, 0, false, "file");
    var d: Functions, s: Functions := map["f" := [e, e]], map["f" := [e]];
    assert multiset(d["f"])[e] == 2 && multiset(s["f"])[e] == 1;
    assert !RepeatsAgree(d["f"], s["f"]);
    MergeCommutesExactly(d, s);
  }
}
