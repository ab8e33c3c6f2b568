/** The wildcard matcher shared by the buffer and resource models, and the rule lookup built
    on it. */
module Glob {
  import opened Options

  /** The intended meaning: '*' stands for any string, '?' for any one character. */
  predicate Match(pattern: string, text: string)
    decreases |pattern| + |text|
  {
    if pattern == [] then text == []
    else if pattern[0] == '*' then
      Match(pattern[1..], text) || (text != [] && Match(pattern, text[1..]))
    else
      text != [] && Direct(pattern[0], text[0]) && Match(pattern[1..], text[1..])
  }

  predicate Direct(p: char, c: char) {
    p == '?' || p == c
  }

  predicate OnlyStars(pattern: string) {
    pattern == [] || (pattern[0] == '*' && OnlyStars(pattern[1..]))
  }

  /** What the loop computes on every input: as Match, except that a '*' in the pattern that
      faces a '*' in the text stands for exactly that character. */
  ghost predicate MatchLiteralStar(pattern: string, text: string)
    decreases |pattern|
  {
    if text == [] then OnlyStars(pattern)
    else if pattern == [] then false
    else if Direct(pattern[0], text[0]) then MatchLiteralStar(pattern[1..], text[1..])
    else pattern[0] == '*' && exists k :: 0 <= k <= |text| && MatchLiteralStar(pattern[1..], text[k..])
  }

  // The loop

  ghost predicate At(pattern: string, text: string, p: nat, t: nat)
    requires p <= |pattern| && t <= |text|
  {
    MatchLiteralStar(pattern[p..], text[t..])
  }

  ghost predicate AtOrLater(pattern: string, text: string, p: nat, t: nat)
    requires p <= |pattern|
  {
    exists k :: t <= k <= |text| && At(pattern, text, p, k)
  }

  /** Moving the last star's match further right can still succeed. */
  ghost predicate Retry(pattern: string, text: string, star: Option<nat>, matched: nat) {
    star.Some? && star.value < |pattern| && AtOrLater(pattern, text, star.value + 1, matched + 1)
  }

  /** The match can still succeed, from here or from a later placement of the star. */
  ghost predicate InPlay(pattern: string, text: string, p: nat, t: nat, star: Option<nat>, matched: nat)
    requires p <= |pattern| && t <= |text|
  {
    At(pattern, text, p, t) || Retry(pattern, text, star, matched)
  }

  ghost predicate DirectRun(pattern: string, text: string) {
    |pattern| == |text| && forall i :: 0 <= i < |pattern| ==> Direct(pattern[i], text[i])
  }

  /** Since the last star, pattern and text have been matched character by character. */
  ghost predicate Aligned(pattern: string, text: string, p: nat, t: nat, star: Option<nat>, matched: nat) {
    && p <= |pattern| && t <= |text|
    && (star.Some? ==>
          && star.value < p && matched <= t && pattern[star.value] == '*'
          && DirectRun(pattern[star.value + 1..p], text[matched..t]))
  }

  lemma AtStep(pattern: string, text: string, p: nat, t: nat)
    requires p < |pattern| && t < |text|
    ensures Direct(pattern[p], text[t]) ==> (At(pattern, text, p, t) <==> At(pattern, text, p + 1, t + 1))
    ensures !Direct(pattern[p], text[t]) ==>
              (At(pattern, text, p, t) <==> pattern[p] == '*' && AtOrLater(pattern, text, p + 1, t))
  {
    var ps, ts := pattern[p..], text[t..];
    assert ps[1..] == pattern[p + 1..] && ts[1..] == text[t + 1..];
    assert forall k :: 0 <= k <= |ts| ==> ts[k..] == text[t + k..];
    if !Direct(pattern[p], text[t]) && pattern[p] == '*' {
      if At(pattern, text, p, t) {
        var k :| 0 <= k <= |ts| && MatchLiteralStar(ps[1..], ts[k..]);
        assert At(pattern, text, p + 1, t + k);
      }
      if AtOrLater(pattern, text, p + 1, t) {
        var k :| t <= k <= |text| && At(pattern, text, p + 1, k);
        assert MatchLiteralStar(ps[1..], ts[k - t..]);
      }
    }
  }

  /** A star that matches somewhere lets the rest of the pattern match there or later. */
  lemma StarThenRest(pattern: string, text: string, p: nat, t: nat)
    requires p < |pattern| && pattern[p] == '*' && AtOrLater(pattern, text, p, t)
    ensures AtOrLater(pattern, text, p + 1, t)
  {
    var k :| t <= k <= |text| && At(pattern, text, p, k);
    if k == |text| {
      assert pattern[p..][1..] == pattern[p + 1..];
      assert At(pattern, text, p + 1, k);
    } else {
      AtStep(pattern, text, p, k);
      if Direct(pattern[p], text[k]) {
        assert At(pattern, text, p + 1, k + 1);
      }
    }
  }

  lemma NextPlacement(pattern: string, text: string, p: nat, t: nat)
    requires p < |pattern| && t < |text|
    requires Direct(pattern[p], text[t]) && AtOrLater(pattern, text, p, t)
    ensures AtOrLater(pattern, text, p + 1, t + 1)
  {
    var k :| t <= k <= |text| && At(pattern, text, p, k);
    if k == |text| {
      assert pattern[p..][1..] == pattern[p + 1..];
      assert At(pattern, text, p + 1, k);
    } else {
      AtStep(pattern, text, p, k);
      if Direct(pattern[p], text[k]) {
        assert At(pattern, text, p + 1, k + 1);
      }
    }
  }

  /** Why one backtrack point is enough: a later placement of the star can be overtaken by the
      present one, so giving up earlier stars loses nothing. */
  lemma {:induction false} CatchUp(pattern: string, text: string, p: nat, p': nat, t: nat, t': nat)
    requires p <= p' <= |pattern| && t <= t' <= |text| && DirectRun(pattern[p..p'], text[t..t'])
    requires AtOrLater(pattern, text, p, t)
    ensures AtOrLater(pattern, text, p', t')
    decreases p' - p
  {
    if p < p' {
      assert Direct(pattern[p..p'][0], text[t..t'][0]);
      NextPlacement(pattern, text, p, t);
      assert pattern[p..p'][1..] == pattern[p + 1..p'] && text[t..t'][1..] == text[t + 1..t'];
      CatchUp(pattern, text, p + 1, p', t + 1, t');
    }
  }

  lemma RetryCatchesUp(pattern: string, text: string, p: nat, t: nat, star: Option<nat>, matched: nat)
    requires Aligned(pattern, text, p, t, star, matched) && Retry(pattern, text, star, matched)
    ensures AtOrLater(pattern, text, p, t)
  {
    assert AtOrLater(pattern, text, star.value + 1, matched);
    CatchUp(pattern, text, star.value + 1, p, matched, t);
  }

  /** globMatches. The decreases clause is the termination argument: the match point moves
      right, or the text does, or the pattern does. */
  method GlobMatches(pattern: string, text: string) returns (matches: bool)
    ensures matches <==> MatchLiteralStar(pattern, text)
  {
    var p: nat, t: nat := 0, 0;
    var star: Option<nat> := None;
    var matched: nat := 0;
    ghost var goal := MatchLiteralStar(pattern, text);
    assert pattern[0..] == pattern && text[0..] == text;
    while t < |text|
      invariant Aligned(pattern, text, p, t, star, matched)
      invariant goal <==> InPlay(pattern, text, p, t, star, matched)
      decreases if star.Some? then |text| - matched else |text| + 1, |text| - t, |pattern| - p
    {
      if p < |pattern| && (pattern[p] == '?' || pattern[p] == text[t]) {
        StepAligned(pattern, text, p, t, star, matched);
        p := p + 1;
        t := t + 1;
        continue;
      }
      if p < |pattern| && pattern[p] == '*' {
        NewStar(pattern, text, p, t, star, matched);
        star, matched := Some(p), t;
        p := p + 1;
        continue;
      }
      GiveUp(pattern, text, p, t);
      if star.Some? {
        NextTry(pattern, text, p, t, star, matched);
        p := star.value + 1;
        matched := matched + 1;
        t := matched;
        continue;
      }
      return false;
    }
    LoopEnd(pattern, text, p, star, matched);
    matches := RestIsStars(pattern, p);
  }

  /** The closing loop. */
  method RestIsStars(pattern: string, start: nat) returns (stars: bool)
    requires start <= |pattern|
    ensures stars <==> OnlyStars(pattern[start..])
  {
    var p := start;
    while p < |pattern| && pattern[p] == '*'
      invariant start <= p <= |pattern|
      invariant OnlyStars(pattern[start..]) <==> OnlyStars(pattern[p..])
    {
      assert pattern[p..][1..] == pattern[p + 1..];
      p := p + 1;
    }
    return p == |pattern|;
  }

  lemma StepAligned(pattern: string, text: string, p: nat, t: nat, star: Option<nat>, matched: nat)
    requires Aligned(pattern, text, p, t, star, matched)
    requires p < |pattern| && t < |text| && Direct(pattern[p], text[t])
    ensures Aligned(pattern, text, p + 1, t + 1, star, matched)
    ensures InPlay(pattern, text, p, t, star, matched) <==> InPlay(pattern, text, p + 1, t + 1, star, matched)
  {
    AtStep(pattern, text, p, t);
    if star.Some? {
      assert pattern[star.value + 1..p + 1] == pattern[star.value + 1..p] + [pattern[p]];
      assert text[matched..t + 1] == text[matched..t] + [text[t]];
    }
  }

  lemma NewStar(pattern: string, text: string, p: nat, t: nat, star: Option<nat>, matched: nat)
    requires Aligned(pattern, text, p, t, star, matched)
    requires p < |pattern| && t < |text| && pattern[p] == '*' && text[t] != '*'
    ensures InPlay(pattern, text, p, t, star, matched) <==> InPlay(pattern, text, p + 1, t, Some(p), t)
    ensures Aligned(pattern, text, p + 1, t, Some(p), t)
  {
    AtStep(pattern, text, p, t);
    SplitFirst(pattern, text, p + 1, t);
    if Retry(pattern, text, star, matched) {
      RetryCatchesUp(pattern, text, p, t, star, matched);
      StarThenRest(pattern, text, p, t);
    }
  }

  /** Neither a direct match nor a star: the present placement has failed. */
  lemma GiveUp(pattern: string, text: string, p: nat, t: nat)
    requires p <= |pattern| && t < |text|
    requires p < |pattern| ==> !Direct(pattern[p], text[t]) && pattern[p] != '*'
    ensures !At(pattern, text, p, t)
  {
    if p < |pattern| {
      AtStep(pattern, text, p, t);
    }
  }

  lemma NextTry(pattern: string, text: string, p: nat, t: nat, star: Option<nat>, matched: nat)
    requires Aligned(pattern, text, p, t, star, matched) && star.Some? && t < |text| && !At(pattern, text, p, t)
    ensures matched < |text| && Aligned(pattern, text, star.value + 1, matched + 1, star, matched + 1)
    ensures InPlay(pattern, text, p, t, star, matched) <==>
            InPlay(pattern, text, star.value + 1, matched + 1, star, matched + 1)
  {
    SplitFirst(pattern, text, star.value + 1, matched + 1);
  }

  lemma SplitFirst(pattern: string, text: string, p: nat, t: nat)
    requires p <= |pattern| && t <= |text|
    ensures AtOrLater(pattern, text, p, t) <==> At(pattern, text, p, t) || AtOrLater(pattern, text, p, t + 1)
  {
  }

  lemma LoopEnd(pattern: string, text: string, p: nat, star: Option<nat>, matched: nat)
    requires Aligned(pattern, text, p, |text|, star, matched)
    ensures InPlay(pattern, text, p, |text|, star, matched) <==> OnlyStars(pattern[p..])
  {
    if Retry(pattern, text, star, matched) {
      RetryCatchesUp(pattern, text, p, |text|, star, matched);
    }
  }

  // How this relates to the intended meaning

  lemma {:induction false} StarMeansAnyPrefix(pattern: string, text: string)
    requires pattern != [] && pattern[0] == '*'
    ensures Match(pattern, text) <==> exists k :: 0 <= k <= |text| && Match(pattern[1..], text[k..])
    decreases |text|
  {
    if Match(pattern[1..], text) {
      assert text[0..] == text;
    }
    if text != [] {
      StarMeansAnyPrefix(pattern, text[1..]);
      if Match(pattern, text[1..]) {
        var k :| 0 <= k <= |text[1..]| && Match(pattern[1..], text[1..][k..]);
        assert text[1..][k..] == text[k + 1..];
      }
      if k :| 0 < k <= |text| && Match(pattern[1..], text[k..]) {
        assert text[1..][k - 1..] == text[k..];
      }
    }
  }

  lemma {:induction false} StarsMatchNothing(pattern: string)
    ensures OnlyStars(pattern) <==> Match(pattern, [])
  {
    if pattern != [] {
      StarsMatchNothing(pattern[1..]);
    }
  }

  /** A positive answer is always a real match. */
  lemma {:induction false} LiteralStarIsSound(pattern: string, text: string)
    requires MatchLiteralStar(pattern, text)
    ensures Match(pattern, text)
    decreases |pattern|
  {
    if text == [] {
      StarsMatchNothing(pattern);
    } else if pattern[0] == '*' {
      StarMeansAnyPrefix(pattern, text);
      if Direct('*', text[0]) {
        LiteralStarIsSound(pattern[1..], text[1..]);
      } else {
        var k :| 0 <= k <= |text| && MatchLiteralStar(pattern[1..], text[k..]);
        LiteralStarIsSound(pattern[1..], text[k..]);
      }
    } else {
      LiteralStarIsSound(pattern[1..], text[1..]);
    }
  }

  lemma {:induction false} CompleteWithoutStars(pattern: string, text: string)
    requires '*' !in text && Match(pattern, text)
    ensures MatchLiteralStar(pattern, text)
    decreases |pattern|
  {
    if text == [] {
      StarsMatchNothing(pattern);
    } else if pattern[0] == '*' {
      StarMeansAnyPrefix(pattern, text);
      var k :| 0 <= k <= |text| && Match(pattern[1..], text[k..]);
      CompleteWithoutStars(pattern[1..], text[k..]);
    } else {
      CompleteWithoutStars(pattern[1..], text[1..]);
    }
  }

  function Questions(n: nat): (q: string)
    ensures |q| == n && forall i :: 0 <= i < n ==> q[i] == '?'
  {
    seq(n, _ => '?')
  }

  /** Against u*v this pattern is refused, though its '*' could match nothing. */
  function Refused(text: string): string {
    if text == [] || text[0] == '*' then "*?" + Questions(if text == [] then 0 else |text| - 1)
    else [text[0]] + Refused(text[1..])
  }

  lemma {:induction false} QuestionsMatch(n: nat, text: string)
    ensures Match(Questions(n), text) <==> n == |text|
    ensures MatchLiteralStar(Questions(n), text) <==> n == |text|
    decreases n
  {
    if n == 0 {
      assert Questions(0) == [];
    } else {
      assert Questions(n)[1..] == Questions(n - 1);
      if text != [] {
        QuestionsMatch(n - 1, text[1..]);
      }
    }
  }

  lemma {:induction false} RefusedIsRefused(text: string)
    requires '*' in text
    ensures Match(Refused(text), text) && !MatchLiteralStar(Refused(text), text)
    decreases |text|
  {
    var pattern := Refused(text);
    if text[0] == '*' {
      var n := |text| - 1;
      assert pattern[1..] == Questions(n + 1);
      QuestionsMatch(n + 1, text);
      QuestionsMatch(n + 1, text[1..]);
    } else {
      assert pattern[1..] == Refused(text[1..]) && pattern[0] == text[0];
      RefusedIsRefused(text[1..]);
    }
  }

  /** The matcher means what it should for every pattern exactly on the texts without '*'. */
  lemma ExactlyOnTextsWithoutStar(text: string)
    ensures (forall pattern :: MatchLiteralStar(pattern, text) <==> Match(pattern, text)) <==> '*' !in text
  {
    if '*' in text {
      RefusedIsRefused(text);
    } else {
      forall pattern ensures MatchLiteralStar(pattern, text) <==> Match(pattern, text) {
        if MatchLiteralStar(pattern, text) { LiteralStarIsSound(pattern, text); }
        if Match(pattern, text) { CompleteWithoutStars(pattern, text); }
      }
    }
  }

  lemma {:induction false} StarlessPattern(pattern: string, text: string)
    requires '*' !in pattern
    ensures MatchLiteralStar(pattern, text) <==> Match(pattern, text)
    ensures Match(pattern, text) ==> |pattern| == |text|
    ensures Match(pattern, pattern)
    decreases |pattern|
  {
    if pattern != [] {
      StarlessPattern(pattern[1..], if text == [] then [] else text[1..]);
    }
  }

  /** The pattern read as a text, with one more character behind its last '*'. */
  function Overlooked(pattern: string): string {
    if '*' !in pattern then "a" + pattern else [pattern[0]] + Overlooked(pattern[1..])
  }

  lemma {:induction false} OverlookedIsRefused(pattern: string)
    requires '*' in pattern
    ensures Match(pattern, Overlooked(pattern)) && !MatchLiteralStar(pattern, Overlooked(pattern))
    decreases |pattern|
  {
    var rest := pattern[1..];
    var text := Overlooked(pattern);
    assert text[1..] == Overlooked(rest);
    if '*' in rest {
      OverlookedIsRefused(rest);
    } else {
      assert Overlooked(rest)[1..] == rest;
      StarlessPattern(rest, Overlooked(rest));
      StarMeansAnyPrefix(pattern, text);
      assert text[2..] == rest;
    }
    if pattern[0] == '*' {
      StarMeansAnyPrefix(pattern, text);
      assert '*' in rest ==> Match(rest, text[1..]);
    }
  }

  /** A pattern means what it should for every text exactly if it has no '*'. */
  lemma ExactlyForPatternsWithoutStar(pattern: string)
    ensures (forall text :: MatchLiteralStar(pattern, text) <==> Match(pattern, text)) <==> '*' !in pattern
  {
    if '*' in pattern {
      OverlookedIsRefused(pattern);
    } else {
      forall text ensures MatchLiteralStar(pattern, text) <==> Match(pattern, text) {
        StarlessPattern(pattern, text);
      }
    }
  }

  lemma {:induction false} LiteralPrefix(prefix: string, pattern: string, text: string)
    requires '*' !in prefix
    ensures Match(prefix + pattern, prefix + text) <==> Match(pattern, text)
    ensures MatchLiteralStar(prefix + pattern, prefix + text) <==> MatchLiteralStar(pattern, text)
    decreases |prefix|
  {
    if prefix == [] {
      assert prefix + pattern == pattern && prefix + text == text;
    } else {
      assert (prefix + pattern)[1..] == prefix[1..] + pattern && (prefix + text)[1..] == prefix[1..] + text;
      LiteralPrefix(prefix[1..], pattern, text);
    }
  }

  /** It happens with demangled names: a trailing '*' does not cover a second pointer star. */
  lemma PointerSignatureRefused()
    ensures Match("f(int*", "f(int**)") && !MatchLiteralStar("f(int*", "f(int**)")
  {
    assert "f(int*" == "f(int" + "*" && "f(int**)" == "f(int" + "**)";
    LiteralPrefix("f(int", "*", "**)");
    assert "*"[1..] == [] && "**)"[1..] == "*)" && "*)"[1..] == ")" && ")"[1..] == [];
  }

  // Rule lookup

  datatype RuleKind = BoundedWrite | UnboundedWrite

  datatype Rule = Rule(kind: RuleKind, functionPattern: string, destArgIndex: nat, sizeArgIndex: nat)

  datatype NameVariants = NameVariants(mangled: string, demangled: string, demangledBase: string)

  function UpToParenthesis(name: string): (base: string)
    ensures base <= name && '(' !in base
    ensures base == name || name[|base|] == '('
  {
    if name == [] || name[0] == '(' then [] else [name[0]] + UpToParenthesis(name[1..])
  }

  function VariantsOf(demangle: string -> string, mangled: string): (names: NameVariants)
    ensures names.mangled == mangled && names.demangled == demangle(mangled)
    ensures names.demangledBase <= names.demangled && '(' !in names.demangledBase
    ensures names.demangledBase == names.demangled || names.demangled[|names.demangledBase|] == '('
  {
    NameVariants(mangled, demangle(mangled), UpToParenthesis(demangle(mangled)))
  }

  ghost predicate NamesFunction(pattern: string, names: NameVariants) {
    if '*' in pattern || '?' in pattern then
      || MatchLiteralStar(pattern, names.mangled)
      || MatchLiteralStar(pattern, names.demangled)
      || MatchLiteralStar(pattern, names.demangledBase)
    else
      pattern == names.mangled || pattern == names.demangled || pattern == names.demangledBase
  }

  /** A pattern without wildcards accepts just itself. */
  lemma {:induction false} PlainPattern(pattern: string, text: string)
    requires '*' !in pattern && '?' !in pattern
    ensures MatchLiteralStar(pattern, text) <==> pattern == text
    decreases |pattern|
  {
    if pattern != [] && text != [] {
      assert pattern == [pattern[0]] + pattern[1..] && text == [text[0]] + text[1..];
      if pattern[0] == text[0] {
        PlainPattern(pattern[1..], text[1..]);
      }
    }
  }

  /** The shortcut for patterns without wildcards changes nothing: a pattern names a function if and
      only if the matcher accepts one of its three names. */
  lemma ShortcutIsMatching(pattern: string, names: NameVariants)
    ensures NamesFunction(pattern, names) <==>
            exists name :: name in [names.mangled, names.demangled, names.demangledBase] &&
                           MatchLiteralStar(pattern, name)
  {
    var all := [names.mangled, names.demangled, names.demangledBase];
    assert all[0] in all && all[1] in all && all[2] in all;
    if '*' !in pattern && '?' !in pattern {
      forall name ensures MatchLiteralStar(pattern, name) <==> pattern == name {
        PlainPattern(pattern, name);
      }
    }
  }

  ghost predicate Applies(rule: Rule, names: NameVariants, argCount: nat) {
    && NamesFunction(rule.functionPattern, names)
    && rule.destArgIndex < argCount
    && (rule.kind == BoundedWrite ==> rule.sizeArgIndex < argCount)
  }

  class BufferWriteRuleMatcher {
    const demangle: string -> string
    var namesCache: map<string, NameVariants>

    constructor (demangle: string -> string)
      ensures this.demangle == demangle && Valid()
    {
      this.demangle := demangle;
      namesCache := map[];
    }

    ghost predicate Valid()
      reads this
    {
      forall callee :: callee in namesCache ==> namesCache[callee] == VariantsOf(demangle, callee)
    }

    method NamesFor(callee: string) returns (names: NameVariants)
      requires Valid()
      modifies this
      ensures Valid() && names == VariantsOf(demangle, callee)
    {
      if callee in namesCache {
        return namesCache[callee];
      }
      names := VariantsOf(demangle, callee);
      namesCache := namesCache[callee := names];
    }

    method RuleMatchesFunction(rule: Rule, callee: string) returns (matches: bool)
      requires Valid()
      modifies this
      ensures Valid() && (matches <==> NamesFunction(rule.functionPattern, VariantsOf(demangle, callee)))
    {
      var names := NamesFor(callee);
      var pattern := rule.functionPattern;
      if !('*' in pattern || '?' in pattern) {
        return pattern == names.mangled || pattern == names.demangled || pattern == names.demangledBase;
      }
      matches := GlobMatches(pattern, names.mangled);
      if !matches {
        matches := GlobMatches(pattern, names.demangled);
      }
      if !matches {
        matches := GlobMatches(pattern, names.demangledBase);
      }
    }

    /** The first rule that names the callee and whose argument indices exist; warming the
        name cache does not change any answer. */
    method FindMatchingRule(rules: seq<Rule>, callee: string, argCount: nat) returns (found: Option<nat>)
      requires Valid()
      modifies this
      ensures Valid()
      ensures found.None? ==> forall i :: 0 <= i < |rules| ==>
              !Applies(rules[i], VariantsOf(demangle, callee), argCount)
      ensures found.Some? ==>
                && found.value < |rules|
                && Applies(rules[found.value], VariantsOf(demangle, callee), argCount)
                && forall i :: 0 <= i < found.value ==> !Applies(rules[i], VariantsOf(demangle, callee), argCount)
    {
      for i := 0 to |rules|
        invariant Valid()
        invariant forall k :: 0 <= k < i ==> !Applies(rules[k], VariantsOf(demangle, callee), argCount)
      {
        var rule := rules[i];
        var matches := RuleMatchesFunction(rule, callee);
        if !matches {
          continue;
        }
        if rule.kind == BoundedWrite {
          if rule.destArgIndex >= argCount || rule.sizeArgIndex >= argCount {
            continue;
          }
        } else {
          if rule.destArgIndex >= argCount {
            continue;
          }
        }
        return Some(i);
      }
      return None;
    }
  }
}
