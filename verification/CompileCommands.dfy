/** Duplicate entries in a compilation database: which command is kept for a file. */
module CompileCommands {
  import opened Ordering

  datatype Command = Command(directory: string, arguments: seq<string>)

  // commandSemanticWeight

  predicate TakesValue(arg: string) {
    arg == "-I" || arg == "-isystem" || arg == "-D" || arg == "-U" || arg == "-include" || arg == "-imacros"
  }

  predicate CarriesValue(arg: string) {
    "-I" <= arg || "-D" <= arg || "-U" <= arg || "--sysroot=" <= arg || "-std=" <= arg || "-isystem" <= arg
  }

  /** What the argument adds; hasNext tells whether another argument follows. */
  function ArgumentWeight(arg: string, hasNext: bool): nat {
    if arg == [] then 0
    else if TakesValue(arg) then 3 + (if hasNext then 1 else 0)
    else if CarriesValue(arg) then 3
    else if arg == "-std" || arg == "--sysroot" then 2 + (if hasNext then 1 else 0)
    else if arg[0] == '-' then 1
    else 0
  }

  function SemanticWeight(args: seq<string>): nat {
    if args == [] then 0 else ArgumentWeight(args[0], |args| > 1) + SemanticWeight(args[1..])
  }

  method CommandSemanticWeight(args: seq<string>) returns (weight: nat)
    ensures weight == SemanticWeight(args)
    ensures Options(args) <= weight <= 4 * Options(args)
  {
    WeightCountsOptions(args);
    weight := 0;
    assert args[0..] == args;
    for i := 0 to |args|
      invariant weight + SemanticWeight(args[i..]) == SemanticWeight(args)
    {
      var arg := args[i];
      assert args[i..][1..] == args[i + 1..];
      if arg == [] {
        continue;
      }
      if TakesValue(arg) {
        weight := weight + 3;
        if i + 1 < |args| {
          weight := weight + 1;
        }
        continue;
      }
      if CarriesValue(arg) {
        weight := weight + 3;
        continue;
      }
      if arg == "-std" || arg == "--sysroot" {
        weight := weight + 2;
        if i + 1 < |args| {
          weight := weight + 1;
        }
        continue;
      }
      if arg[0] == '-' {
        weight := weight + 1;
      }
    }
  }

  // What the weight measures

  predicate IsOption(arg: string) {
    arg != [] && arg[0] == '-'
  }

  /** The option counts one more when another argument follows. */
  predicate WantsValue(arg: string) {
    TakesValue(arg) || arg == "-std" || arg == "--sysroot"
  }

  function Dangling(args: seq<string>): nat {
    if args != [] && WantsValue(args[|args| - 1]) then 1 else 0
  }

  lemma ValueAddsOne(arg: string)
    ensures ArgumentWeight(arg, true) == ArgumentWeight(arg, false) + if WantsValue(arg) then 1 else 0
  {
    assert "-std"[1] == 's' && "--sysroot"[1] == '-';
    assert !("-std=" <= "-std") && !("--sysroot=" <= "--sysroot");
    assert !CarriesValue("-std") && !CarriesValue("--sysroot");
  }

  /** Weights add up, with one extra where a value meets the option that waits for it. */
  lemma {:induction false} WeightOfConcatenation(a: seq<string>, b: seq<string>)
    ensures SemanticWeight(a + b) == SemanticWeight(a) + SemanticWeight(b) + if b != [] then Dangling(a) else 0
    decreases |a|
  {
    if a == [] {
      assert a + b == b;
    } else {
      assert (a + b)[1..] == a[1..] + b;
      WeightOfConcatenation(a[1..], b);
      ValueAddsOne(a[0]);
      assert |a| > 1 ==> a[1..][|a[1..]| - 1] == a[|a| - 1];
    }
  }

  /** Only options count, and each of them does: at least one, at most four. */
  lemma {:induction false} WeightCountsOptions(args: seq<string>)
    ensures Options(args) <= SemanticWeight(args) <= 4 * Options(args)
  {
    if args != [] {
      WeightCountsOptions(args[1..]);
    }
  }

  function Options(args: seq<string>): nat {
    if args == [] then 0 else (if IsOption(args[0]) then 1 else 0) + Options(args[1..])
  }

  lemma WeightOfOne(arg: string)
    ensures SemanticWeight([arg]) == ArgumentWeight(arg, false)
  {
    assert [arg][1..] == [];
  }

  lemma WeightOfTwo(option: string, value: string)
    requires !IsOption(value)
    ensures SemanticWeight([option, value]) == ArgumentWeight(option, true)
  {
    assert [option, value][1..] == [value];
    WeightOfOne(value);
    assert ArgumentWeight(value, false) == 0;
  }

  lemma AttachedWeight(option: string, value: string)
    requires option in ["-I", "-D", "-U", "-isystem"] && value != []
    ensures ArgumentWeight(option + value, false) == 3
  {
    var arg := option + value;
    assert |arg| > |option| && arg[..|option|] == option && arg[1] == option[1];
    assert option <= arg;
  }

  lemma AssignedWeight(option: string, value: string)
    requires option in ["-std", "--sysroot"]
    ensures ArgumentWeight(option + "=" + value, false) == 3
  {
    var arg := option + "=" + value;
    assert option + "=" <= arg && arg[..|option| + 1] == option + "=" && arg[1] == option[1] && arg[2] == option[2];
  }

  /** An include, definition or system path weighs four when its value follows and three when it is
      attached; a forced include takes the next argument; the language standard and the system
      root weigh three either way. */
  lemma SpellingWeighs(option: string, value: string)
    requires value != [] && !IsOption(value)
    ensures option in ["-I", "-D", "-U", "-isystem"] ==>
              SemanticWeight([option, value]) == 4 && SemanticWeight([option + value]) == 3
    ensures option in ["-include", "-imacros"] ==> SemanticWeight([option, value]) == 4
    ensures option in ["-std", "--sysroot"] ==>
              SemanticWeight([option, value]) == 3 && SemanticWeight([option + "=" + value]) == 3
  {
    WeightOfTwo(option, value);
    if option in ["-I", "-D", "-U", "-isystem"] {
      WeightOfOne(option + value);
      AttachedWeight(option, value);
    } else if option in ["-std", "--sysroot"] {
      WeightOfOne(option + "=" + value);
      AssignedWeight(option, value);
      ValueAddsOne(option);
    }
  }

  lemma MoveToFront(before: seq<string>, arg: string, after: seq<string>)
    ensures SemanticWeight(before + [arg] + after) + Dangling(before + [arg] + after) ==
            ArgumentWeight(arg, true) + SemanticWeight(before + after) + Dangling(before + after)
  {
    ValueAddsOne(arg);
    assert [arg][1..] == [];
    WeightOfConcatenation(before, [arg]);
    WeightOfConcatenation(before + [arg], after);
    WeightOfConcatenation(before, after);
  }

  /** The order of the arguments does not matter, apart from an option left without a value at
      the end. */
  lemma {:induction false} WeightIgnoresOrder(a: seq<string>, b: seq<string>)
    requires multiset(a) == multiset(b)
    ensures SemanticWeight(a) + Dangling(a) == SemanticWeight(b) + Dangling(b)
    decreases |a|
  {
    assert |multiset(a)| == |a| && |multiset(b)| == |b|;
    if a != [] {
      var before, after := TakeOut(a, b);
      WeightIgnoresOrder(a[1..], before + after);
      MoveToFront(before, a[0], after);
      MoveToFront([], a[0], a[1..]);
      assert [] + [a[0]] + a[1..] == a && [] + a[1..] == a[1..];
    }
  }

  lemma WithoutMiddle(before: seq<string>, arg: string, after: seq<string>)
    ensures multiset(before + after) == multiset(before + [arg] + after) - multiset{arg}
  {
    assert multiset(before + [arg] + after) == multiset(before) + multiset{arg} + multiset(after);
  }

  lemma TakeOut(a: seq<string>, b: seq<string>) returns (before: seq<string>, after: seq<string>)
    requires a != [] && multiset(a) == multiset(b)
    ensures b == before + [a[0]] + after && multiset(a[1..]) == multiset(before + after)
  {
    assert a[0] in multiset(b);
    var i :| 0 <= i < |b| && b[i] == a[0];
    before, after := b[..i], b[i + 1..];
    assert b == before + [a[0]] + after;
    WithoutMiddle(before, a[0], after);
    RestMultiset(a);
  }

  // The preference

  /** shouldPreferCandidateCommand. */
  predicate ShouldPrefer(existing: Command, candidate: Command) {
    if SemanticWeight(candidate.arguments) != SemanticWeight(existing.arguments) then
      SemanticWeight(candidate.arguments) > SemanticWeight(existing.arguments)
    else if |candidate.arguments| != |existing.arguments| then
      |candidate.arguments| > |existing.arguments|
    else if candidate.directory != existing.directory then
      StringLess(candidate.directory, existing.directory)
    else
      StringsLess(candidate.arguments, existing.arguments)
  }

  method ShouldPreferCandidateCommand(existing: Command, candidate: Command) returns (prefer: bool)
    ensures prefer <==> ShouldPrefer(existing, candidate)
  {
    var existingWeight := CommandSemanticWeight(existing.arguments);
    var candidateWeight := CommandSemanticWeight(candidate.arguments);
    if candidateWeight != existingWeight {
      return candidateWeight > existingWeight;
    }
    if |candidate.arguments| != |existing.arguments| {
      return |candidate.arguments| > |existing.arguments|;
    }
    if candidate.directory != existing.directory {
      return StringLess(candidate.directory, existing.directory);
    }
    return StringsLess(candidate.arguments, existing.arguments);
  }

  /** kept is at least as good as other: it has more weight, or else more arguments, or else the
      smaller directory, or else the smaller arguments, or is the same command. */
  ghost predicate AsGood(kept: Command, other: Command) {
    && SemanticWeight(kept.arguments) >= SemanticWeight(other.arguments)
    && (SemanticWeight(kept.arguments) == SemanticWeight(other.arguments) ==>
          && |kept.arguments| >= |other.arguments|
          && (|kept.arguments| == |other.arguments| ==>
                && (kept.directory == other.directory || StringLess(kept.directory, other.directory))
                && (kept.directory == other.directory ==>
                      kept.arguments == other.arguments || StringsLess(kept.arguments, other.arguments))))
  }

  /** The candidate is preferred exactly when the existing command is not as good. */
  lemma PreferenceMeans(existing: Command, candidate: Command)
    ensures ShouldPrefer(existing, candidate) <==> !AsGood(existing, candidate)
  {
    StringLessIsStrictTotal();
    StringsLessIsStrictTotal();
    var d, d', a, a' := existing.directory, candidate.directory, existing.arguments, candidate.arguments;
    assert StringLess(d, d') && StringLess(d', d) ==> StringLess(d, d);
    assert StringsLess(a, a') && StringsLess(a', a) ==> StringsLess(a, a);
  }

  /** No two different commands tie, and preferences never go round in a circle. */
  lemma PreferenceIsStrictTotal()
    ensures StrictTotal(ShouldPrefer)
  {
    StringLessIsStrictTotal();
    StringsLessIsStrictTotal();
    forall x ensures !ShouldPrefer(x, x) {
      assert !StringsLess(x.arguments, x.arguments);
    }
    forall x, y, z | ShouldPrefer(x, y) && ShouldPrefer(y, z) ensures ShouldPrefer(x, z) {
      PreferenceTransitive(x, y, z);
    }
    forall x, y ensures x == y || ShouldPrefer(x, y) || ShouldPrefer(y, x) {
      if !ShouldPrefer(x, y) && !ShouldPrefer(y, x) {
        assert x.directory == y.directory;
        assert x.arguments == y.arguments;
      }
    }
  }

  lemma PreferenceTransitive(x: Command, y: Command, z: Command)
    requires StrictTotal(StringLess) && StrictTotal(StringsLess)
    requires ShouldPrefer(x, y) && ShouldPrefer(y, z)
    ensures ShouldPrefer(x, z)
  {
    assert StringLess(z.directory, y.directory) && StringLess(y.directory, x.directory) ==>
           StringLess(z.directory, x.directory);
    assert StringsLess(z.arguments, y.arguments) && StringsLess(y.arguments, x.arguments) ==>
           StringsLess(z.arguments, x.arguments);
    assert !StringLess(x.directory, x.directory);
  }

  // Loading the database

  datatype Entry = Entry(file: string, command: Command)

  type Commands = map<string, Command>

  /** The command is one of the file's entries and as good as any other. */
  ghost predicate IsBest(entries: seq<Entry>, file: string, command: Command) {
    && Entry(file, command) in entries
    && forall other :: Entry(file, other) in entries ==> AsGood(command, other)
  }

  ghost predicate KeepsBest(entries: seq<Entry>, commands: Commands) {
    && (forall file :: file in commands <==> exists command :: Entry(file, command) in entries)
    && (forall file :: file in commands ==> IsBest(entries, file, commands[file]))
  }

  class CompilationDatabase {
    var commands: Commands

    constructor ()
      ensures commands == map[]
    {
      commands := map[];
    }

    /** One usable entry of the file. */
    method AddEntry(entry: Entry)
      modifies this
      ensures commands ==
              if entry.file !in old(commands) || ShouldPrefer(old(commands)[entry.file], entry.command)
              then old(commands)[entry.file := entry.command] else old(commands)
    {
      if entry.file !in commands {
        commands := commands[entry.file := entry.command];
        return;
      }
      var prefer := ShouldPreferCandidateCommand(commands[entry.file], entry.command);
      if prefer {
        commands := commands[entry.file := entry.command];
      }
    }

    /** The entry loop of loadFromFile. */
    method AddEntries(entries: seq<Entry>)
      requires commands == map[]
      modifies this
      ensures KeepsBest(entries, commands)
    {
      for i := 0 to |entries|
        invariant KeepsBest(entries[..i], commands)
      {
        ghost var before := commands;
        AddEntry(entries[i]);
        BestStep(entries[..i], before, entries[i], commands);
        assert entries[..i] + [entries[i]] == entries[..i + 1];
      }
      assert entries[..|entries|] == entries;
    }
  }

  lemma BestStep(entries: seq<Entry>, before: Commands, entry: Entry, after: Commands)
    requires KeepsBest(entries, before)
    requires after == if entry.file !in before || ShouldPrefer(before[entry.file], entry.command)
                      then before[entry.file := entry.command] else before
    ensures KeepsBest(entries + [entry], after)
  {
    PreferenceIsStrictTotal();
    forall file, command
      ensures Entry(file, command) in entries + [entry] <==>
              Entry(file, command) in entries || Entry(file, command) == entry
    {}
    forall file | file in after ensures IsBest(entries + [entry], file, after[file]) {
      BestOf(entries, before, entry, after, file);
    }
    forall file ensures file in after <==> exists command :: Entry(file, command) in entries + [entry] {
      if file == entry.file {
        assert Entry(file, entry.command) in entries + [entry];
      } else if file in before {
        assert Entry(file, before[file]) in entries + [entry];
      }
    }
  }

  lemma BestOf(entries: seq<Entry>, before: Commands, entry: Entry, after: Commands, file: string)
    requires KeepsBest(entries, before) && StrictTotal(ShouldPrefer)
    requires after == if entry.file !in before || ShouldPrefer(before[entry.file], entry.command)
                      then before[entry.file := entry.command] else before
    requires file in after
    ensures IsBest(entries + [entry], file, after[file])
  {
    forall other | Entry(file, other) in entries + [entry] ensures AsGood(after[file], other) {
      PreferenceMeans(after[file], other);
      if Entry(file, other) in entries {
        var kept := before[file];
        PreferenceMeans(kept, other);
        assert !ShouldPrefer(kept, other);
        assert ShouldPrefer(kept, entry.command) && ShouldPrefer(entry.command, other) ==> ShouldPrefer(kept, other);
      } else {
        assert entry == Entry(file, other);
      }
    }
  }

  /** The same entries in any order, with any repetition, load the same database. */
  lemma EntryOrderIsIrrelevant(entries: seq<Entry>, entries': seq<Entry>, commands: Commands, commands': Commands)
    requires forall entry :: entry in entries <==> entry in entries'
    requires KeepsBest(entries, commands) && KeepsBest(entries', commands')
    ensures commands == commands'
  {
    PreferenceIsStrictTotal();
    assert forall file :: file in commands <==> file in commands';
    forall file | file in commands ensures commands[file] == commands'[file] {
      assert IsBest(entries, file, commands[file]) && IsBest(entries', file, commands'[file]);
      assert Entry(file, commands'[file]) in entries && Entry(file, commands[file]) in entries';
      PreferenceMeans(commands[file], commands'[file]);
      PreferenceMeans(commands'[file], commands[file]);
    }
  }
}
