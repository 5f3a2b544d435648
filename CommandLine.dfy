/**
 * The command-line source: `--key=value`, `/key=value`, `--key value`, and
 * short switches `-k` that a switch mapping renames.  Arguments are read
 * left to right; each recognised pair is written with `AddValue`.
 */
module CommandLine {
  import opened Wrappers
  import opened Strings
  import opened ConfigurationPath
  import opened Configuration
  import opened ConfigurationLaws
  import opened ConfigurationSources

  /**
   * The validated copy of a switch mapping: a dictionary compared with
   * `OrdinalIgnoreCase`, here keyed by the case-folded switch.
   */
  type Switches = map<string, string>

  // ---------------------------------------------------------------------------
  // GetValidatedSwitchMappingsCopy

  /** A mapping key is acceptable when it starts with `-` (which covers `--`). */
  predicate IsSwitch(key: string)
  {
    StartsWith(key, "-") || StartsWith(key, "--")
  }

  /** The copy after the first `k` mappings, or the `ArgumentException` for a malformed or duplicated key. */
  function ValidatedSwitches(mappings: seq<(string, string)>, k: nat): Result<Switches, SourceError>
    requires k <= |mappings|
  {
    if k == 0 then Success(map[])
    else
      var copy :- ValidatedSwitches(mappings, k - 1);
      var (key, value) := mappings[k - 1];
      if !IsSwitch(key) then Failure(ArgumentError)
      else if Fold(key) in copy then Failure(ArgumentError)
      else Success(copy[Fold(key) := value])
  }

  lemma {:induction false} ValidatedSwitchesSticks(mappings: seq<(string, string)>, i: nat, n: nat)
    requires i <= n <= |mappings|
    ensures ValidatedSwitches(mappings, i).Failure? ==> ValidatedSwitches(mappings, n) == ValidatedSwitches(mappings, i)
    decreases n
  {
    if i < n {
      ValidatedSwitchesSticks(mappings, i, n - 1);
    }
  }

  /** `GetValidatedSwitchMappingsCopy`. */
  method GetValidatedSwitchMappingsCopy(mappings: seq<(string, string)>) returns (r: Result<Switches, SourceError>)
    ensures r == ValidatedSwitches(mappings, |mappings|)
  {
    var copy: Switches := map[];
    for i := 0 to |mappings|
      invariant ValidatedSwitches(mappings, i) == Success(copy)
    {
      var (key, value) := mappings[i];
      if !StartsWith(key, "-") && !StartsWith(key, "--") {
        ValidatedSwitchesSticks(mappings, i + 1, |mappings|);
        return Failure(ArgumentError);
      }
      if Fold(key) in copy {
        ValidatedSwitchesSticks(mappings, i + 1, |mappings|);
        return Failure(ArgumentError);
      }
      copy := copy[Fold(key) := value];
    }
    return Success(copy);
  }

  /** What an accepted `k`-th mapping says about the first `k - 1`. */
  lemma ValidatedStep(mappings: seq<(string, string)>, k: nat)
    requires 0 < k <= |mappings| && ValidatedSwitches(mappings, k).Success?
    ensures var prev := ValidatedSwitches(mappings, k - 1);
      var key := mappings[k - 1].0;
      && prev.Success? && IsSwitch(key) && Fold(key) !in prev.value
      && ValidatedSwitches(mappings, k).value == prev.value[Fold(key) := mappings[k - 1].1]
  {
  }

  /** Validation fails only with `ArgumentException`, and the copy's keys are the folded keys. */
  lemma {:induction false} ValidatedSwitchesKeys(mappings: seq<(string, string)>, k: nat)
    requires k <= |mappings|
    ensures var r := ValidatedSwitches(mappings, k);
      && (r.Failure? ==> r.error == ArgumentError)
      && (r.Success? ==> r.value.Keys == set i | 0 <= i < k :: Fold(mappings[i].0))
  {
    if k > 0 {
      ValidatedSwitchesKeys(mappings, k - 1);
      var prev := ValidatedSwitches(mappings, k - 1);
      if prev.Success? && ValidatedSwitches(mappings, k).Success? {
        var key := mappings[k - 1].0;
        ValidatedStep(mappings, k);
        assert (set i | 0 <= i < k :: Fold(mappings[i].0)) == (set i | 0 <= i < k - 1 :: Fold(mappings[i].0)) + {Fold(key)};
      }
    }
  }

  /** Each folded key of an accepted mapping holds its own value. */
  lemma {:induction false} ValidatedSwitchesValues(mappings: seq<(string, string)>, k: nat)
    requires k <= |mappings|
    ensures var r := ValidatedSwitches(mappings, k);
      r.Success? ==> forall i | 0 <= i < k :: Fold(mappings[i].0) in r.value && r.value[Fold(mappings[i].0)] == mappings[i].1
  {
    if k > 0 {
      ValidatedSwitchesValues(mappings, k - 1);
      var prev := ValidatedSwitches(mappings, k - 1);
      var r := ValidatedSwitches(mappings, k);
      if prev.Success? && r.Success? {
        ValidatedStep(mappings, k);
        forall i | 0 <= i < k ensures Fold(mappings[i].0) in r.value && r.value[Fold(mappings[i].0)] == mappings[i].1 {
          if i < k - 1 {
            assert Fold(mappings[i].0) in prev.value;
          }
        }
      }
    }
  }

  /** The copy maps each folded key to its value and holds nothing else. */
  lemma ValidatedSwitchesContent(mappings: seq<(string, string)>, k: nat)
    requires k <= |mappings|
    ensures var r := ValidatedSwitches(mappings, k);
      && (r.Failure? ==> r.error == ArgumentError)
      && (r.Success? ==> r.value.Keys == set i | 0 <= i < k :: Fold(mappings[i].0))
      && (r.Success? ==> forall i | 0 <= i < k :: r.value[Fold(mappings[i].0)] == mappings[i].1)
  {
    ValidatedSwitchesKeys(mappings, k);
    ValidatedSwitchesValues(mappings, k);
  }

  /** Every key of a mapping validation accepts starts with `-`, and no two are equal ignoring case. */
  lemma {:induction false} ValidatedSwitchesSound(mappings: seq<(string, string)>, k: nat)
    requires k <= |mappings| && ValidatedSwitches(mappings, k).Success?
    ensures forall i | 0 <= i < k :: IsSwitch(mappings[i].0)
    ensures forall i, j | 0 <= i < j < k :: Fold(mappings[i].0) != Fold(mappings[j].0)
  {
    if k > 0 {
      var prev := ValidatedSwitches(mappings, k - 1);
      ValidatedStep(mappings, k);
      ValidatedSwitchesSound(mappings, k - 1);
      ValidatedSwitchesKeys(mappings, k - 1);
      forall i, j | 0 <= i < j < k ensures Fold(mappings[i].0) != Fold(mappings[j].0) {
        if j == k - 1 {
          assert Fold(mappings[i].0) in prev.value;
        }
      }
    }
  }

  /** Validation accepts a mapping whose keys all start with `-` and are pairwise different ignoring case. */
  lemma {:induction false} ValidatedSwitchesComplete(mappings: seq<(string, string)>, k: nat)
    requires k <= |mappings|
    requires forall i | 0 <= i < k :: IsSwitch(mappings[i].0)
    requires forall i, j | 0 <= i < j < k :: Fold(mappings[i].0) != Fold(mappings[j].0)
    ensures ValidatedSwitches(mappings, k).Success?
  {
    if k > 0 {
      ValidatedSwitchesComplete(mappings, k - 1);
      ValidatedSwitchesKeys(mappings, k - 1);
      var prev := ValidatedSwitches(mappings, k - 1);
      var key := mappings[k - 1].0;
      assert forall i | 0 <= i < k - 1 :: Fold(mappings[i].0) != Fold(key);
      assert Fold(key) !in prev.value;
      assert IsSwitch(key);
    }
  }

  /**
   * Validation accepts a mapping exactly when every key starts with `-` and
   * no two keys are equal ignoring case.
   */
  lemma ValidatedSwitchesLaw(mappings: seq<(string, string)>, k: nat)
    requires k <= |mappings|
    ensures ValidatedSwitches(mappings, k).Success? <==>
      && (forall i | 0 <= i < k :: IsSwitch(mappings[i].0))
      && (forall i, j | 0 <= i < j < k :: Fold(mappings[i].0) != Fold(mappings[j].0))
  {
    if ValidatedSwitches(mappings, k).Success? {
      ValidatedSwitchesSound(mappings, k);
    } else if (forall i | 0 <= i < k :: IsSwitch(mappings[i].0))
           && (forall i, j | 0 <= i < j < k :: Fold(mappings[i].0) != Fold(mappings[j].0)) {
      ValidatedSwitchesComplete(mappings, k);
    }
  }

  /** Every key of a validated copy starts with `-`: case folding keeps the dash. */
  lemma {:induction false} SwitchKeysStartWithDash(mappings: seq<(string, string)>, k: nat, key: string)
    requires k <= |mappings|
    requires ValidatedSwitches(mappings, k).Success? && key in ValidatedSwitches(mappings, k).value
    ensures StartsWith(key, "-")
  {
    var prev := ValidatedSwitches(mappings, k - 1);
    var name := mappings[k - 1].0;
    if key == Fold(name) {
      assert StartsWith(name, "-");
      FoldKeepsDash(name);
    } else {
      assert key in prev.value;
      SwitchKeysStartWithDash(mappings, k - 1, key);
    }
  }

  // ---------------------------------------------------------------------------
  // The argument loop of AddCommandLineInternal

  /** The mapped name of `s`, when a mapping is active and holds `s` ignoring case. */
  function Mapped(switches: Option<Switches>, s: string): Option<string>
  {
    if switches.Some? && Fold(s) in switches.value then Some(switches.value[Fold(s)]) else None
  }

  /** An argument with `/` rewritten to `--`, and the index where its key starts (0: no prefix). */
  function Normalised(arg: string): (r: (string, nat))
    ensures r.1 <= 2 && r.1 <= |r.0|
    ensures r.1 == 2 ==> StartsWith(r.0, "--")
    ensures r.1 == 1 ==> StartsWith(r.0, "-")
  {
    if StartsWith(arg, "--") then (arg, 2)
    else if StartsWith(arg, "-") then (arg, 1)
    else if StartsWith(arg, "/") then ("--" + arg[1..], 2)
    else (arg, 0)
  }

  /** What one turn of the argument loop does with the argument at `i`. */
  datatype Turn =
    | Skip(next: nat)                               // `continue`
    | Pair(key: string, value: string, next: nat)   // `AddValue(key, value)`
    | Fail                                          // `FormatException`

  /** The turn of the argument loop that starts at argument `i`. */
  function NextTurn(args: seq<string>, i: nat, switches: Option<Switches>): (t: Turn)
    requires i < |args|
    ensures !t.Fail? ==> i < t.next <= |args|
  {
    var (arg, keyStart) := Normalised(args[i]);
    match IndexOf(arg, '=')
    case None =>
      if keyStart == 0 then Skip(i + 1)
      else if Mapped(switches, arg).None? && keyStart == 1 then Skip(i + 1)
      else
        var key := if Mapped(switches, arg).Some? then Mapped(switches, arg).value else arg[keyStart..];
        if i + 1 == |args| then Skip(i + 1) else Pair(key, args[i + 1], i + 2)
    case Some(separator) =>
      var keySegment := arg[..separator];
      if Mapped(switches, keySegment).None? && keyStart == 1 then Fail
      else
        assert keyStart <= separator;
        var key := if Mapped(switches, keySegment).Some? then Mapped(switches, keySegment).value else arg[keyStart..separator];
        Pair(key, Trim(arg[separator + 1..], {'"'}), i + 1)
  }

  /** The load of the argument loop from argument `i` on. */
  function ArgumentsFrom(args: seq<string>, i: nat, switches: Option<Switches>): Load
    requires i <= |args|
    decreases |args| - i
  {
    if i == |args| then Load([], None)
    else
      match NextTurn(args, i, switches)
      case Skip(next) => ArgumentsFrom(args, next, switches)
      case Pair(key, value, next) => Prepend((key, value), ArgumentsFrom(args, next, switches))
      case Fail => Load([], Some(FormatError))
  }

  /**
   * `AddCommandLineInternal(configuration, arguments, switchMappings)`: a
   * null argument list adds nothing; otherwise the mapping is validated
   * first, then the arguments are read.
   */
  function CommandLineLoad(arguments: Option<seq<string>>, mappings: Option<seq<(string, string)>>): Load
  {
    match arguments
    case None => Load([], None)
    case Some(args) =>
      match mappings
      case None => ArgumentsFrom(args, 0, None)
      case Some(ms) =>
        match ValidatedSwitches(ms, |ms|)
        case Failure(e) => Load([], Some(e))
        case Success(copy) => ArgumentsFrom(args, 0, Some(copy))
  }

  /** One turn of the `while (enumerator.MoveNext())` loop, starting at argument `i`. */
  method ReadTurn(args: seq<string>, i: nat, activeSwitchMappings: Option<Switches>) returns (t: Turn)
    requires i < |args|
    ensures t == NextTurn(args, i, activeSwitchMappings)
  {
    var currentArg := args[i];
    var keyStartIndex := 0;
    if StartsWith(currentArg, "--") {
      keyStartIndex := 2;
    } else if StartsWith(currentArg, "-") {
      keyStartIndex := 1;
    } else if StartsWith(currentArg, "/") {
      currentArg := "--" + currentArg[1..];
      keyStartIndex := 2;
    }
    assert (currentArg, keyStartIndex) == Normalised(args[i]);
    var key: string;
    var separator := IndexOf(currentArg, '=');
    if separator.None? {
      if keyStartIndex == 0 {
        return Skip(i + 1);
      }
      var mapped := Mapped(activeSwitchMappings, currentArg);
      if mapped.Some? {
        key := mapped.value;
      } else if keyStartIndex == 1 {
        return Skip(i + 1);
      } else {
        key := currentArg[keyStartIndex..];
      }
      if i + 1 == |args| {
        return Skip(i + 1);
      }
      return Pair(key, args[i + 1], i + 2);
    } else {
      var keySegment := currentArg[..separator.value];
      var mapped := Mapped(activeSwitchMappings, keySegment);
      if mapped.Some? {
        key := mapped.value;
      } else if keyStartIndex == 1 {
        return Fail;
      } else {
        assert keyStartIndex <= separator.value;
        key := currentArg[keyStartIndex..separator.value];
      }
      var value := Trim(currentArg[separator.value + 1..], {'"'});
      return Pair(key, value, i + 1);
    }
  }

  /**
   * `AddCommandLineInternal` on the node `at` of `store`: every pair the
   * arguments yield is written with `AddValue`, in order, until the end or
   * the first exception.
   */
  method AddCommandLine(store: Store, at: NodeId, arguments: Option<seq<string>>, switchMappings: Option<seq<(string, string)>>)
    returns (error: Option<SourceError>)
    requires store.Valid() && at < |store.nodes|
    modifies store
    ensures store.Valid()
    ensures store.nodes == AddedAll(old(store.nodes), at, CommandLineLoad(arguments, switchMappings).writes)
    ensures error == CommandLineLoad(arguments, switchMappings).error
  {
    if arguments.None? {
      return None;
    }
    var args := arguments.value;
    var activeSwitchMappings: Option<Switches> := None;
    if switchMappings.Some? {
      var copy := GetValidatedSwitchMappingsCopy(switchMappings.value);
      if copy.Failure? {
        return Some(copy.error);
      }
      activeSwitchMappings := Some(copy.value);
    }
    error := ReadArguments(store, at, args, activeSwitchMappings);
  }

  /** The `while (enumerator.MoveNext())` loop of `AddCommandLineInternal`, with the active mapping. */
  method ReadArguments(store: Store, at: NodeId, args: seq<string>, activeSwitchMappings: Option<Switches>)
    returns (error: Option<SourceError>)
    requires store.Valid() && at < |store.nodes|
    modifies store
    ensures store.Valid()
    ensures store.nodes == AddedAll(old(store.nodes), at, ArgumentsFrom(args, 0, activeSwitchMappings).writes)
    ensures error == ArgumentsFrom(args, 0, activeSwitchMappings).error
  {
    ghost var whole := ArgumentsFrom(args, 0, activeSwitchMappings);
    ghost var start := store.nodes;
    ghost var done: seq<(string, string)> := [];
    var i := 0;
    while i < |args|
      invariant i <= |args|
      invariant store.Valid() && at < |store.nodes|
      invariant store.nodes == AddedAll(start, at, done)
      invariant whole == Then(Load(done, None), ArgumentsFrom(args, i, activeSwitchMappings))
      decreases |args| - i
    {
      var turn := ReadTurn(args, i, activeSwitchMappings);
      ArgumentsStep(args, i, activeSwitchMappings, done);
      match turn
      case Skip(next) =>
        i := next;
      case Fail =>
        return Some(FormatError);
      case Pair(key, value, next) =>
        store.AddValue(at, key, value);
        assert (done + [(key, value)])[..|done|] == done;
        done := done + [(key, value)];
        i := next;
    }
    assert done + [] == done;
    return None;
  }

  /** What one turn adds to the load read so far. */
  lemma ArgumentsStep(args: seq<string>, i: nat, switches: Option<Switches>, done: seq<(string, string)>)
    requires i < |args|
    ensures var t := NextTurn(args, i, switches);
      var here := Then(Load(done, None), ArgumentsFrom(args, i, switches));
      && (t.Skip? ==> here == Then(Load(done, None), ArgumentsFrom(args, t.next, switches)))
      && (t.Pair? ==> here == Then(Load(done + [(t.key, t.value)], None), ArgumentsFrom(args, t.next, switches)))
      && (t.Fail? ==> here == Load(done, Some(FormatError)))
  {
    var t := NextTurn(args, i, switches);
    if t.Pair? {
      var rest := ArgumentsFrom(args, t.next, switches);
      assert done + ([(t.key, t.value)] + rest.writes) == (done + [(t.key, t.value)]) + rest.writes;
    }
  }

  // ---------------------------------------------------------------------------
  // What the argument loop promises

  /** A null argument list adds nothing, and the mapping is then not even validated. */
  lemma NullArguments(mappings: Option<seq<(string, string)>>)
    ensures CommandLineLoad(None, mappings) == Load([], None)
  {
  }

  /** A bad switch mapping raises `ArgumentException` before any argument is read. */
  lemma BadMappingsWriteNothing(args: seq<string>, mappings: seq<(string, string)>)
    requires ValidatedSwitches(mappings, |mappings|).Failure?
    ensures CommandLineLoad(Some(args), Some(mappings)) == Load([], Some(ArgumentError))
  {
    ValidatedSwitchesContent(mappings, |mappings|);
  }

  /** `/` is an alias of `--`: the two arguments are read alike. */
  lemma SlashIsDoubleDash(args: seq<string>, i: nat, rest: string, switches: Option<Switches>)
    requires i < |args|
    ensures NextTurn(args[i := "/" + rest], i, switches) == NextTurn(args[i := "--" + rest], i, switches)
  {
    assert ("/" + rest)[1..] == rest;
    assert ("/" + rest)[0] == '/';
    assert !StartsWith("/" + rest, "-");
    assert StartsWith("--" + rest, "--");
  }

  /** `--key=value` writes `key` with the value stripped of leading and trailing quotes, unless a mapping renames it. */
  lemma LongSwitchWithValue(args: seq<string>, i: nat, key: string, value: string, switches: Option<Switches>)
    requires i < |args| && args[i] == "--" + key + "=" + value && '=' !in key
    requires Mapped(switches, "--" + key).None?
    ensures NextTurn(args, i, switches) == Pair(key, Trim(value, {'"'}), i + 1)
  {
    var arg := args[i];
    assert arg == ("--" + key) + ['='] + value;
    IndexOfFirst("--" + key, '=', value);
    assert StartsWith(arg, "--");
    assert arg[..|key| + 2] == "--" + key;
    assert arg[2..|key| + 2] == key;
    assert arg[|key| + 3..] == value;
  }

  /** `--key value` writes `key` with the next argument, taken verbatim; the next turn starts after both. */
  lemma LongSwitchThenValue(args: seq<string>, i: nat, key: string, switches: Option<Switches>)
    requires i + 1 < |args| && args[i] == "--" + key && '=' !in key
    requires Mapped(switches, "--" + key).None?
    ensures NextTurn(args, i, switches) == Pair(key, args[i + 1], i + 2)
  {
    assert StartsWith(args[i], "--");
    assert args[i][2..] == key;
  }

  /** A key in final position with no value after it is ignored. */
  lemma DanglingSwitch(args: seq<string>, key: string, switches: Option<Switches>)
    requires |args| > 0 && args[|args| - 1] == "--" + key && '=' !in key
    ensures ArgumentsFrom(args, |args| - 1, switches) == Load([], None)
  {
    assert StartsWith(args[|args| - 1], "--");
  }

  /** An argument with neither a prefix nor `=` is skipped. */
  lemma BareArgumentSkipped(args: seq<string>, i: nat, switches: Option<Switches>)
    requires i < |args| && '=' !in args[i]
    requires !StartsWith(args[i], "-") && !StartsWith(args[i], "/")
    ensures NextTurn(args, i, switches) == Skip(i + 1)
  {
  }

  /**
   * `key=value` with no prefix is accepted: the key is the text before the
   * first `=` (a validated mapping cannot rename it, since its keys start
   * with `-`).
   */
  lemma UnprefixedPair(args: seq<string>, i: nat, key: string, value: string, mappings: seq<(string, string)>)
    requires i < |args| && args[i] == key + "=" + value && '=' !in key
    requires key == [] || (key[0] != '-' && key[0] != '/')
    requires ValidatedSwitches(mappings, |mappings|).Success?
    ensures NextTurn(args, i, Some(ValidatedSwitches(mappings, |mappings|).value)) == Pair(key, Trim(value, {'"'}), i + 1)
  {
    var arg := args[i];
    var switches := ValidatedSwitches(mappings, |mappings|).value;
    assert arg == key + ['='] + value;
    IndexOfFirst(key, '=', value);
    assert !StartsWith(arg, "-") && !StartsWith(arg, "/");
    assert arg[..|key|] == key;
    assert arg[|key| + 1..] == value;
    if Fold(key) in switches {
      SwitchKeysStartWithDash(mappings, |mappings|, Fold(key));
    }
  }

  /** A short switch `-k` that no mapping names is skipped, and the argument after it is read on its own. */
  lemma UnmappedShortSwitchSkipped(args: seq<string>, i: nat, switches: Option<Switches>)
    requires i < |args| && '=' !in args[i]
    requires StartsWith(args[i], "-") && !StartsWith(args[i], "--") && Mapped(switches, args[i]).None?
    ensures NextTurn(args, i, switches) == Skip(i + 1)
  {
  }

  /**
   * A turn fails with `FormatException` exactly when the argument is a short
   * switch with `=` whose part before the `=` no mapping names.
   */
  lemma ShortSwitchFormatError(args: seq<string>, i: nat, switches: Option<Switches>)
    requires i < |args|
    ensures NextTurn(args, i, switches).Fail? <==>
      && StartsWith(args[i], "-") && !StartsWith(args[i], "--")
      && IndexOf(args[i], '=').Some?
      && Mapped(switches, args[i][..IndexOf(args[i], '=').value]).None?
  {
  }

  /**
   * A switch that a mapping names is written under the mapped key, whatever
   * its prefix; matching ignores case and covers the dashes.
   */
  lemma MappedSwitch(args: seq<string>, i: nat, switches: Option<Switches>, name: string)
    requires i + 1 < |args| && '=' !in args[i] && StartsWith(args[i], "-")
    requires Mapped(switches, args[i]) == Some(name)
    ensures NextTurn(args, i, switches) == Pair(name, args[i + 1], i + 2)
  {
  }

  /** The mapping `-x` to `ExtraLevel` validates to the folded key `-X`. */
  lemma LevelSwitches()
    ensures ValidatedSwitches([("-x", "ExtraLevel")], 1) == Success(map["-X" := "ExtraLevel"])
  {
    assert StartsWith("-x", "-");
    assert Fold("-x") == "-X";
  }

  /** The first turn of `["--level=3", "-x", "5"]` under that mapping: the pair `level`, `3`. */
  lemma LevelFirstTurn()
    ensures NextTurn(["--level=3", "-x", "5"], 0, Some(map["-X" := "ExtraLevel"])) == Pair("level", "3", 1)
  {
    var args := ["--level=3", "-x", "5"];
    assert args[0] == "--" + "level" + "=" + "3";
    assert Fold("--level") == "--LEVEL";
    LongSwitchWithValue(args, 0, "level", "3", Some(map["-X" := "ExtraLevel"]));
    TrimUntouched("3", {'"'});
  }

  /** The second turn: `-x` is mapped and takes `5`. */
  lemma LevelSecondTurn()
    ensures NextTurn(["--level=3", "-x", "5"], 1, Some(map["-X" := "ExtraLevel"])) == Pair("ExtraLevel", "5", 3)
  {
    var args := ["--level=3", "-x", "5"];
    assert Fold("-x") == "-X";
    assert '=' !in args[1];
    assert StartsWith(args[1], "-");
    MappedSwitch(args, 1, Some(map["-X" := "ExtraLevel"]), "ExtraLevel");
  }

  /** Under the validated mapping, the two turns write `level = 3`, then `ExtraLevel = 5`. */
  lemma LevelArguments()
    ensures ArgumentsFrom(["--level=3", "-x", "5"], 0, Some(map["-X" := "ExtraLevel"])) ==
      Load([("level", "3"), ("ExtraLevel", "5")], None)
  {
    var args := ["--level=3", "-x", "5"];
    var switches := Some(map["-X" := "ExtraLevel"]);
    LevelFirstTurn();
    LevelSecondTurn();
    assert ArgumentsFrom(args, 3, switches) == Load([], None);
    assert ArgumentsFrom(args, 1, switches) == Load([("ExtraLevel", "5")], None);
  }

  /** `["--level=3", "-x", "5"]` with the mapping `-x` to `ExtraLevel` writes `level = 3`, then `ExtraLevel = 5`. */
  lemma LevelLoad()
    ensures CommandLineLoad(Some(["--level=3", "-x", "5"]), Some([("-x", "ExtraLevel")])) ==
      Load([("level", "3"), ("ExtraLevel", "5")], None)
  {
    LevelSwitches();
    LevelArguments();
  }

  /** After that load, both keys read back from the tree the source writes into. */
  lemma LevelScenario(nodes: seq<Node>, at: NodeId)
    requires WellFormed(nodes) && at < |nodes|
    ensures var load := CommandLineLoad(Some(["--level=3", "-x", "5"]), Some([("-x", "ExtraLevel")]));
      && load == Load([("level", "3"), ("ExtraLevel", "5")], None)
      && ValueAt(AddedAll(nodes, at, load.writes), at, "level") == Some("3")
      && ValueAt(AddedAll(nodes, at, load.writes), at, "ExtraLevel") == Some("5")
  {
    LevelLoad();
    var writes := [("level", "3"), ("ExtraLevel", "5")];
    LastWriteWins(nodes, at, writes, "level");
    LastWriteWins(nodes, at, writes, "ExtraLevel");
    assert writes[..1] == [("level", "3")];
  }
}
