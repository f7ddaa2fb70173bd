/** The argument-comment-lint wrapper: arguments brought to a normal form, and the environment's defaults. */
module LintWrapper {
  import opened Prelude

  const SEPARATOR := "--"
  const MANIFEST_PATH := "--manifest-path"
  const WORKSPACE := "--workspace"
  const NO_DEPS := "--no-deps"
  const ALL_TARGETS := "--all-targets"
  const FIX := "--fix"

  datatype Parsed = Parsed(
    lintArgs: seq<string>,
    cargoArgs: seq<string>,
    hasManifestPath: bool,
    hasPackageSelection: bool,
    hasNoDeps: bool,
    hasLibrarySelection: bool,
    hasCargoTargetSelection: bool,
    hasFix: bool)

  datatype Expected = Nothing | ManifestPath | PackageSelection | LibrarySelection

  // the variables of the parsing loop
  datatype Scan = Scan(parsed: Parsed, afterSeparator: bool, awaited: Expected)

  const START := Scan(Parsed([], [], false, false, false, false, false, false), false, Nothing)

  predicate SelectsTarget(arg: string) {
    || arg in {ALL_TARGETS, "--lib", "--bins", "--tests", "--examples", "--benches", "--doc"}
    || arg in {"--bin", "--test", "--example", "--bench"}
    || "--bin=" <= arg || "--test=" <= arg || "--example=" <= arg || "--bench=" <= arg
  }

  // A value that was expected.
  function TakeValue(p: Parsed, awaited: Expected): Parsed {
    match awaited
    case Nothing => p
    case ManifestPath => p.(hasManifestPath := true)
    case PackageSelection => p.(hasPackageSelection := true)
    case LibrarySelection => p.(hasLibrarySelection := true)
  }

  // What an argument does where an option may stand.
  datatype Effect = NoEffect | Awaits(value: Expected) | SetsManifestPath | SetsPackageSelection | SetsFix | SetsNoDeps
    | SetsLibrarySelection

  function EffectOf(arg: string): Effect {
    if arg == MANIFEST_PATH then Awaits(ManifestPath)
    else if "--manifest-path=" <= arg then SetsManifestPath
    else if arg == "-p" || arg == "--package" then Awaits(PackageSelection)
    else if "--package=" <= arg then SetsPackageSelection
    else if arg == FIX then SetsFix
    else if arg == WORKSPACE then SetsPackageSelection
    else if arg == NO_DEPS then SetsNoDeps
    else if arg == "--lib" || arg == "--lib-path" then Awaits(LibrarySelection)
    else if "--lib=" <= arg || "--lib-path=" <= arg then SetsLibrarySelection
    else NoEffect
  }

  function TakeOption(p: Parsed, effect: Effect): (Parsed, Expected) {
    match effect
    case NoEffect => (p, Nothing)
    case Awaits(value) => (p, value)
    case SetsManifestPath => (p.(hasManifestPath := true), Nothing)
    case SetsPackageSelection => (p.(hasPackageSelection := true), Nothing)
    case SetsFix => (p.(hasFix := true), Nothing)
    case SetsNoDeps => (p.(hasNoDeps := true), Nothing)
    case SetsLibrarySelection => (p.(hasLibrarySelection := true), Nothing)
  }

  function Step(s: Scan, arg: string): Scan {
    if s.afterSeparator then
      s.(parsed := s.parsed.(cargoArgs := s.parsed.cargoArgs + [arg],
                             hasCargoTargetSelection := s.parsed.hasCargoTargetSelection || SelectsTarget(arg)))
    else if arg == SEPARATOR then s.(afterSeparator := true)
    else
      var p := s.parsed.(lintArgs := s.parsed.lintArgs + [arg]);
      if s.awaited != Nothing then s.(parsed := TakeValue(p, s.awaited), awaited := Nothing)
      else
        var (q, awaited) := TakeOption(p, EffectOf(arg));
        s.(parsed := q, awaited := awaited)
  }

  function Scanned(s: Scan, argv: seq<string>): Scan {
    if argv == [] then s else Step(Scanned(s, argv[..|argv| - 1]), argv[|argv| - 1])
  }

  function Parse(argv: seq<string>): Parsed {
    Scanned(START, argv).parsed
  }

  // `parse_wrapper_args`
  method ParseWrapperArgs(argv: seq<string>) returns (parsed: Parsed)
    ensures parsed == Parse(argv)
  {
    parsed := Parsed([], [], false, false, false, false, false, false);
    var afterSeparator, expectValue := false, Nothing;
    for i := 0 to |argv|
      invariant Scan(parsed, afterSeparator, expectValue) == Scanned(START, argv[..i])
    {
      var arg := argv[i];
      assert argv[..i + 1][..i] == argv[..i];
      if afterSeparator {
        parsed := parsed.(cargoArgs := parsed.cargoArgs + [arg]);
        if SelectsTarget(arg) {
          parsed := parsed.(hasCargoTargetSelection := true);
        }
        continue;
      }
      if arg == "--" {
        afterSeparator := true;
        continue;
      }
      parsed := parsed.(lintArgs := parsed.lintArgs + [arg]);
      if expectValue != Nothing {
        parsed := TakeValue(parsed, expectValue);
        expectValue := Nothing;
        continue;
      }
      var (next, awaited) := TakeOption(parsed, EffectOf(arg));
      parsed, expectValue := next, awaited;
    }
    assert argv[..|argv|] == argv;
  }

  // what goes in front of the user's arguments
  function Front(p: Parsed, manifestPath: string): seq<string> {
    (if p.hasManifestPath then [] else [MANIFEST_PATH, manifestPath])
    + (if p.hasPackageSelection || p.hasManifestPath then [] else [WORKSPACE])
    + (if p.hasNoDeps then [] else [NO_DEPS])
  }

  function CargoOf(p: Parsed): seq<string> {
    p.cargoArgs + (if p.hasFix || p.hasCargoTargetSelection then [] else [ALL_TARGETS])
  }

  function Behind(cargoArgs: seq<string>): seq<string> {
    if cargoArgs == [] then [] else [SEPARATOR] + cargoArgs
  }

  function Build(p: Parsed, manifestPath: string): seq<string> {
    Front(p, manifestPath) + p.lintArgs + Behind(CargoOf(p))
  }

  // `build_final_args`
  method BuildFinalArgs(parsed: Parsed, manifestPath: string) returns (finalArgs: seq<string>)
    ensures finalArgs == Build(parsed, manifestPath)
  {
    finalArgs := [];
    var cargoArgs := parsed.cargoArgs;
    if !parsed.hasManifestPath {
      finalArgs := finalArgs + ["--manifest-path", manifestPath];
    }
    if !parsed.hasPackageSelection && !parsed.hasManifestPath {
      finalArgs := finalArgs + ["--workspace"];
    }
    if !parsed.hasNoDeps {
      finalArgs := finalArgs + ["--no-deps"];
    }
    assert finalArgs == Front(parsed, manifestPath);
    hide Front;
    if !parsed.hasFix && !parsed.hasCargoTargetSelection {
      cargoArgs := cargoArgs + ["--all-targets"];
    }
    finalArgs := finalArgs + parsed.lintArgs;
    if cargoArgs != [] {
      finalArgs := finalArgs + ["--"] + cargoArgs;
    }
  }

  // ---------------------------------------------------------------- scanning in parts

  lemma {:induction false} ScannedConcat(s: Scan, a: seq<string>, b: seq<string>)
    ensures Scanned(s, a + b) == Scanned(Scanned(s, a), b)
    decreases |b|
  {
    if b == [] {
      assert a + b == a;
    } else {
      ScannedConcat(s, a, b[..|b| - 1]);
      assert (a + b)[..|a + b| - 1] == a + b[..|b| - 1];
    }
  }

  // The user's arguments are split at the first separator.
  lemma {:induction false} SplitAtSeparator(argv: seq<string>)
    ensures var s := Scanned(START, argv); var p := s.parsed;
      && SEPARATOR !in p.lintArgs
      && argv == p.lintArgs + (if s.afterSeparator then [SEPARATOR] + p.cargoArgs else [])
      && (!s.afterSeparator ==> p.cargoArgs == [] && !p.hasCargoTargetSelection)
  {
    if argv != [] {
      var init, arg := argv[..|argv| - 1], argv[|argv| - 1];
      SplitAtSeparator(init);
      StepArgs(Scanned(START, init), arg);
      hide Step;
      assert argv == init + [arg];
    }
  }

  predicate SameArgs(p: Parsed, q: Parsed) {
    q.lintArgs == p.lintArgs && q.cargoArgs == p.cargoArgs && q.hasCargoTargetSelection == p.hasCargoTargetSelection
  }

  lemma ValueKeepsArgs(p: Parsed, value: Expected)
    ensures SameArgs(p, TakeValue(p, value))
  {
  }

  lemma OptionKeepsArgs(p: Parsed, effect: Effect)
    ensures SameArgs(p, TakeOption(p, effect).0)
  {
  }

  lemma StepArgs(s: Scan, arg: string)
    ensures var t := Step(s, arg);
      if s.afterSeparator then
        t.afterSeparator && t.parsed.lintArgs == s.parsed.lintArgs && t.parsed.cargoArgs == s.parsed.cargoArgs + [arg]
      else if arg == SEPARATOR then t == s.(afterSeparator := true)
      else
        !t.afterSeparator && t.parsed.lintArgs == s.parsed.lintArgs + [arg] && t.parsed.cargoArgs == s.parsed.cargoArgs
        && t.parsed.hasCargoTargetSelection == s.parsed.hasCargoTargetSelection
  {
    ValueKeepsArgs(s.parsed.(lintArgs := s.parsed.lintArgs + [arg]), s.awaited);
    OptionKeepsArgs(s.parsed.(lintArgs := s.parsed.lintArgs + [arg]), EffectOf(arg));
    hide SelectsTarget, EffectOf, TakeValue, TakeOption;
  }

  predicate AnySelects(args: seq<string>) {
    exists k | 0 <= k < |args| :: SelectsTarget(args[k])
  }

  lemma {:induction false} ScannedCargo(s: Scan, args: seq<string>)
    requires s.afterSeparator
    ensures Scanned(s, args) == s.(parsed := s.parsed.(cargoArgs := s.parsed.cargoArgs + args,
      hasCargoTargetSelection := s.parsed.hasCargoTargetSelection || AnySelects(args)))
  {
    hide SelectsTarget;
    if args == [] {
      assert s.parsed.cargoArgs + args == s.parsed.cargoArgs;
    } else {
      var init, last := args[..|args| - 1], args[|args| - 1];
      ScannedCargo(s, init);
      assert s.parsed.cargoArgs + init + [last] == s.parsed.cargoArgs + args;
      AnySelectsNext(args);
    }
  }

  lemma AnySelectsNext(args: seq<string>)
    requires args != []
    ensures AnySelects(args) <==> AnySelects(args[..|args| - 1]) || SelectsTarget(args[|args| - 1])
  {
    hide SelectsTarget;
    var init := args[..|args| - 1];
    if AnySelects(init) {
      var k :| 0 <= k < |init| && SelectsTarget(init[k]);
      assert SelectsTarget(args[k]);
    }
    if AnySelects(args) {
      var k :| 0 <= k < |args| && SelectsTarget(args[k]);
      assert k < |init| ==> SelectsTarget(init[k]);
    }
  }

  // what the lint arguments alone say
  function LintOnly(p: Parsed): Parsed {
    p.(cargoArgs := [], hasCargoTargetSelection := false)
  }

  lemma LintArgsScanned(argv: seq<string>)
    ensures var p := Parse(argv); var t := Scanned(START, p.lintArgs);
      && !t.afterSeparator && t.parsed == LintOnly(p)
      && p.hasCargoTargetSelection == AnySelects(p.cargoArgs)
  {
    var s := Scanned(START, argv);
    var p := s.parsed;
    SplitAtSeparator(argv);
    SplitAtSeparator(p.lintArgs);
    var t := Scanned(START, p.lintArgs);
    hide Step, SelectsTarget;
    NoSeparatorInside(p.lintArgs, t);
    if s.afterSeparator {
      ScannedConcat(START, p.lintArgs, [SEPARATOR] + p.cargoArgs);
      ScannedConcat(t, [SEPARATOR], p.cargoArgs);
      SeparatorScanned(t);
      ScannedCargo(t.(afterSeparator := true), p.cargoArgs);
    } else {
      assert argv == p.lintArgs;
      assert !AnySelects([]);
    }
  }

  lemma SeparatorScanned(t: Scan)
    requires !t.afterSeparator
    ensures Scanned(t, [SEPARATOR]) == t.(afterSeparator := true)
  {
    assert [SEPARATOR][..0] == [];
  }

  lemma SeparatorIn(a: seq<string>, b: seq<string>)
    ensures SEPARATOR in a + ([SEPARATOR] + b)
  {
    assert (a + ([SEPARATOR] + b))[|a|] == SEPARATOR;
  }

  lemma NoSeparatorInside(args: seq<string>, t: Scan)
    requires SEPARATOR !in args && t == Scanned(START, args)
    ensures !t.afterSeparator && t.parsed.cargoArgs == [] && !t.parsed.hasCargoTargetSelection
      && t.parsed.lintArgs == args
  {
    SplitAtSeparator(args);
    SeparatorIn(t.parsed.lintArgs, t.parsed.cargoArgs);
    hide Scanned;
  }

  // ---------------------------------------------------------------- arguments in front

  // p with arguments in front of everything: they are the first lint arguments, and set three flags.
  function Shift(p: Parsed, front: seq<string>, manifest: bool, package: bool, noDeps: bool): Parsed {
    Parsed(front + p.lintArgs, p.cargoArgs, manifest || p.hasManifestPath, package || p.hasPackageSelection,
           noDeps || p.hasNoDeps, p.hasLibrarySelection, p.hasCargoTargetSelection, p.hasFix)
  }

  predicate Shifted(s: Scan, t: Scan, front: seq<string>, manifest: bool, package: bool, noDeps: bool) {
    t == Scan(Shift(s.parsed, front, manifest, package, noDeps), s.afterSeparator, s.awaited)
  }

  lemma ShiftTakesValue(p: Parsed, front: seq<string>, manifest: bool, package: bool, noDeps: bool, value: Expected)
    ensures TakeValue(Shift(p, front, manifest, package, noDeps), value) ==
      Shift(TakeValue(p, value), front, manifest, package, noDeps)
  {
  }

  lemma ShiftTakesOption(p: Parsed, front: seq<string>, manifest: bool, package: bool, noDeps: bool, effect: Effect)
    ensures TakeOption(Shift(p, front, manifest, package, noDeps), effect).0 ==
      Shift(TakeOption(p, effect).0, front, manifest, package, noDeps)
    ensures TakeOption(Shift(p, front, manifest, package, noDeps), effect).1 == TakeOption(p, effect).1
  {
  }

  lemma ShiftLint(p: Parsed, front: seq<string>, manifest: bool, package: bool, noDeps: bool, arg: string)
    ensures var q := Shift(p, front, manifest, package, noDeps);
      q.(lintArgs := q.lintArgs + [arg]) == Shift(p.(lintArgs := p.lintArgs + [arg]), front, manifest, package, noDeps)
  {
    assert front + p.lintArgs + [arg] == front + (p.lintArgs + [arg]);
  }

  lemma ShiftCargo(p: Parsed, front: seq<string>, manifest: bool, package: bool, noDeps: bool, args: seq<string>,
                   selects: bool)
    ensures Shift(p, front, manifest, package, noDeps).(cargoArgs := args, hasCargoTargetSelection := selects)
      == Shift(p.(cargoArgs := args, hasCargoTargetSelection := selects), front, manifest, package, noDeps)
    ensures Shift(p, front, manifest, package, noDeps).cargoArgs == p.cargoArgs
    ensures Shift(p, front, manifest, package, noDeps).hasCargoTargetSelection == p.hasCargoTargetSelection
  {
  }

  lemma ShiftedStep(s: Scan, t: Scan, front: seq<string>, manifest: bool, package: bool, noDeps: bool, arg: string)
    requires Shifted(s, t, front, manifest, package, noDeps)
    ensures Shifted(Step(s, arg), Step(t, arg), front, manifest, package, noDeps)
  {
    hide SelectsTarget, EffectOf, Shift, TakeOption, TakeValue;
    var selects := s.parsed.hasCargoTargetSelection || SelectsTarget(arg);
    ShiftCargo(s.parsed, front, manifest, package, noDeps, s.parsed.cargoArgs + [arg], selects);
    ShiftLint(s.parsed, front, manifest, package, noDeps, arg);
    ShiftTakesValue(s.parsed.(lintArgs := s.parsed.lintArgs + [arg]), front, manifest, package, noDeps, s.awaited);
    ShiftTakesOption(s.parsed.(lintArgs := s.parsed.lintArgs + [arg]), front, manifest, package, noDeps, EffectOf(arg));
  }

  lemma {:induction false} ShiftedScan(s: Scan, t: Scan, front: seq<string>, manifest: bool, package: bool,
                                       noDeps: bool, args: seq<string>)
    requires Shifted(s, t, front, manifest, package, noDeps)
    ensures Shifted(Scanned(s, args), Scanned(t, args), front, manifest, package, noDeps)
    decreases |args|
  {
    hide Step, Shifted;
    if args != [] {
      ShiftedScan(s, t, front, manifest, package, noDeps, args[..|args| - 1]);
      ShiftedStep(Scanned(s, args[..|args| - 1]), Scanned(t, args[..|args| - 1]), front, manifest, package, noDeps,
        args[|args| - 1]);
    }
  }

  // Scanning the front sets what it is there for.
  lemma FrontScanned(p: Parsed, manifestPath: string)
    requires manifestPath != SEPARATOR || p.hasManifestPath
    ensures Shifted(START, Scanned(START, Front(p, manifestPath)), Front(p, manifestPath),
                    !p.hasManifestPath, !p.hasPackageSelection && !p.hasManifestPath, !p.hasNoDeps)
  {
    var first := if p.hasManifestPath then [] else [MANIFEST_PATH, manifestPath];
    var second := if p.hasPackageSelection || p.hasManifestPath then [] else [WORKSPACE];
    var third := if p.hasNoDeps then [] else [NO_DEPS];
    ManifestScanned(first, manifestPath);
    assert first + second + third == Front(p, manifestPath);
    hide Scanned, SelectsTarget, EffectOf, Step;
    ScannedConcat(START, first, second);
    ScannedConcat(START, first + second, third);
    var s1 := Scanned(START, first);
    FlagScanned(s1, second, WORKSPACE);
    FlagScanned(Scanned(s1, second), third, NO_DEPS);
    assert first + second + third + [] == first + second + third;
  }

  // scanning one of the two flags, or nothing
  lemma FlagScanned(s: Scan, args: seq<string>, flag: string)
    requires (args == [] || args == [flag]) && (flag == WORKSPACE || flag == NO_DEPS) && !s.afterSeparator
      && s.awaited.Nothing?
    ensures Scanned(s, args) == s.(parsed := s.parsed.(
      lintArgs := s.parsed.lintArgs + args,
      hasPackageSelection := s.parsed.hasPackageSelection || (args != [] && flag == WORKSPACE),
      hasNoDeps := s.parsed.hasNoDeps || (args != [] && flag == NO_DEPS)))
  {
    OneScanned(s, args);
    Effects();
    hide Scanned, SelectsTarget, EffectOf;
  }

  lemma Effects()
    ensures EffectOf(MANIFEST_PATH) == Awaits(ManifestPath) && EffectOf(WORKSPACE) == SetsPackageSelection
    ensures EffectOf(NO_DEPS) == SetsNoDeps
    ensures MANIFEST_PATH != SEPARATOR && WORKSPACE != SEPARATOR && NO_DEPS != SEPARATOR
  {
    assert |MANIFEST_PATH| == 15 && |WORKSPACE| == 11 && |NO_DEPS| == 9 && |SEPARATOR| == 2 && |FIX| == 5;
    assert NO_DEPS[2] == 'n' && "--lib="[2] == 'l' && "--lib-path="[2] == 'l' && "--package="[2] == 'p'
      && WORKSPACE[2] == 'w';
    assert MANIFEST_PATH[2] == 'm';
  }

  lemma ManifestScanned(first: seq<string>, manifestPath: string)
    requires first == [] || (first == [MANIFEST_PATH, manifestPath] && manifestPath != SEPARATOR)
    ensures Scanned(START, first) == START.(parsed := START.parsed.(lintArgs := first, hasManifestPath := first != []))
  {
    Effects();
    hide SelectsTarget, EffectOf;
    if first != [] {
      ScannedConcat(START, [MANIFEST_PATH], [manifestPath]);
      OneScanned(START, [MANIFEST_PATH]);
      OneScanned(Step(START, MANIFEST_PATH), [manifestPath]);
      hide Scanned;
      assert [MANIFEST_PATH] + [manifestPath] == first && [] + [MANIFEST_PATH] + [manifestPath] == first;
    }
  }

  lemma OneScanned(s: Scan, args: seq<string>)
    requires |args| <= 1
    ensures Scanned(s, args) == if args == [] then s else Step(s, args[0])
  {
    if args != [] { assert args[..0] == []; }
  }

  // ---------------------------------------------------------------- the normal form

  // The user's part of the built arguments parses to the user's lint arguments and the completed cargo arguments.
  lemma UserPartScanned(argv: seq<string>, cargo: seq<string>)
    ensures var p := Parse(argv);
      Parse(p.lintArgs + Behind(cargo)) ==
        LintOnly(p).(cargoArgs := cargo, hasCargoTargetSelection := AnySelects(cargo))
  {
    var p := Parse(argv);
    LintArgsScanned(argv);
    var t := Scanned(START, p.lintArgs);
    hide Step, SelectsTarget;
    if cargo == [] {
      assert p.lintArgs + [] == p.lintArgs;
      assert !AnySelects([]);
    } else {
      ScannedConcat(START, p.lintArgs, [SEPARATOR] + cargo);
      ScannedConcat(t, [SEPARATOR], cargo);
      SeparatorScanned(t);
      ScannedCargo(t.(afterSeparator := true), cargo);
      assert [] + cargo == cargo;
    }
  }

  lemma CompletedSelects(argv: seq<string>)
    ensures var p := Parse(argv); AnySelects(CargoOf(p)) == (p.hasCargoTargetSelection || !p.hasFix)
  {
    var p := Parse(argv);
    LintArgsScanned(argv);
    AllTargetsSelects();
    hide SelectsTarget, Parse;
    if !p.hasFix && !p.hasCargoTargetSelection {
      assert CargoOf(p)[|p.cargoArgs|] == ALL_TARGETS;
    } else {
      assert CargoOf(p) == p.cargoArgs;
    }
  }

  lemma AllTargetsSelects()
    ensures SelectsTarget(ALL_TARGETS)
  {
  }

  // Parsing the built arguments gives the user's own back, in order, with what was added in front and behind.
  lemma UserArgsSurvive(argv: seq<string>, manifestPath: string)
    requires manifestPath != SEPARATOR || Parse(argv).hasManifestPath
    ensures var p := Parse(argv); var q := Parse(Build(p, manifestPath));
      && q.lintArgs == Front(p, manifestPath) + p.lintArgs && q.cargoArgs == CargoOf(p)
      && q.hasManifestPath && q.hasNoDeps && q.hasFix == p.hasFix && q.hasLibrarySelection == p.hasLibrarySelection
      && q.hasPackageSelection == (p.hasPackageSelection || !p.hasManifestPath)
      && q.hasCargoTargetSelection == (p.hasCargoTargetSelection || !p.hasFix)
  {
    var p := Parse(argv);
    var front, user := Front(p, manifestPath), p.lintArgs + Behind(CargoOf(p));
    hide Step, SelectsTarget, AnySelects, Scanned, Front, CargoOf, Behind, Shift, Shifted, LintOnly, Build;
    UserPartScanned(argv, CargoOf(p));
    CompletedSelects(argv);
    FrontScanned(p, manifestPath);
    ScannedConcat(START, front, user);
    BuiltParts(p, manifestPath);
    ShiftedScan(START, Scanned(START, front), front, !p.hasManifestPath, !p.hasPackageSelection && !p.hasManifestPath,
      !p.hasNoDeps, user);
    ShiftedArgs(START, user, Scanned(START, front + user), p, front, CargoOf(p));
  }

  lemma BuiltParts(p: Parsed, manifestPath: string)
    ensures Build(p, manifestPath) == Front(p, manifestPath) + (p.lintArgs + Behind(CargoOf(p)))
  {
    hide Front, Behind, CargoOf;
  }

  lemma ShiftedArgs(s: Scan, user: seq<string>, t: Scan, p: Parsed, front: seq<string>, cargo: seq<string>)
    requires Scanned(s, user).parsed == LintOnly(p).(cargoArgs := cargo, hasCargoTargetSelection := AnySelects(cargo))
    requires Shifted(Scanned(s, user), t, front, !p.hasManifestPath, !p.hasPackageSelection && !p.hasManifestPath,
      !p.hasNoDeps)
    ensures var q := t.parsed;
      && q.lintArgs == front + p.lintArgs && q.cargoArgs == cargo
      && q.hasManifestPath && q.hasNoDeps && q.hasFix == p.hasFix && q.hasLibrarySelection == p.hasLibrarySelection
      && q.hasPackageSelection == (p.hasPackageSelection || !p.hasManifestPath)
      && q.hasCargoTargetSelection == AnySelects(cargo)
  {
    hide AnySelects, Scanned;
  }

  // The built arguments are a fixed point: parsing and building again changes nothing, exactly when the manifest path
  // is not the separator or the user gave one.
  lemma NormalForm(argv: seq<string>, manifestPath: string)
    ensures var built := Build(Parse(argv), manifestPath);
      Build(Parse(built), manifestPath) == built <==> manifestPath != SEPARATOR || Parse(argv).hasManifestPath
  {
    var p := Parse(argv);
    if manifestPath != SEPARATOR || p.hasManifestPath {
      UserArgsSurvive(argv, manifestPath);
      hide Parse;
      var q := Parse(Build(p, manifestPath));
      assert Front(q, manifestPath) == [];
      assert CargoOf(q) == CargoOf(p);
      assert [] + q.lintArgs == q.lintArgs;
    } else {
      SeparatorPath(p);
    }
  }

  // With the separator as manifest path the arguments grow with every pass.
  lemma SeparatorPath(p: Parsed)
    requires !p.hasManifestPath
    ensures |Build(Parse(Build(p, SEPARATOR)), SEPARATOR)| > |Build(p, SEPARATOR)|
  {
    var built := Build(p, SEPARATOR);
    var rest := built[2..];
    SeparatorFirst(p, built);
    ManifestThenSeparator(rest);
    hide Scanned, Step, SelectsTarget, EffectOf, AnySelects;
    var q := Parse(built);
    assert |CargoOf(q)| >= |rest|;
  }

  lemma SeparatorFirst(p: Parsed, built: seq<string>)
    requires !p.hasManifestPath && built == Build(p, SEPARATOR)
    ensures |built| >= 2 && built == [MANIFEST_PATH, SEPARATOR] + built[2..]
  {
    hide CargoOf, Behind;
    assert built[0] == MANIFEST_PATH && built[1] == SEPARATOR;
  }

  // A dangling value option in front of the separator: everything else is for cargo.
  lemma ManifestThenSeparator(rest: seq<string>)
    ensures var q := Parse([MANIFEST_PATH, SEPARATOR] + rest);
      q.lintArgs == [MANIFEST_PATH] && q.cargoArgs == rest
      && !q.hasManifestPath && !q.hasPackageSelection && !q.hasNoDeps && !q.hasFix
  {
    ScannedConcat(START, [MANIFEST_PATH], [SEPARATOR] + rest);
    var t := Scanned(START, [MANIFEST_PATH]);
    OneScanned(START, [MANIFEST_PATH]);
    ScannedConcat(t, [SEPARATOR], rest);
    SeparatorScanned(t);
    ScannedCargo(t.(afterSeparator := true), rest);
    Effects();
    hide Scanned, SelectsTarget, EffectOf, AnySelects;
    assert [MANIFEST_PATH] + ([SEPARATOR] + rest) == [MANIFEST_PATH, SEPARATOR] + rest;
    assert [] + rest == rest && [] + [MANIFEST_PATH] == [MANIFEST_PATH];
  }

  // ---------------------------------------------------------------- the environment

  predicate ContainsAt(s: string, part: string, i: nat) {
    i + |part| <= |s| && s[i..i + |part|] == part
  }

  // `part in s`
  predicate Contains(s: string, part: string) {
    exists i | 0 <= i <= |s| :: ContainsAt(s, part, i)
  }

  function WithFlag(value: Option<string>, flag: string): string {
    if value.None? || value.value == "" then flag
    else if !Contains(value.value, flag) then value.value + " " + flag
    else value.value
  }

  function Get(env: map<string, string>, key: string): Option<string> {
    if key in env then Some(env[key]) else None
  }

  const FLAGS_KEY := "DYLINT_RUSTFLAGS"
  const INCREMENTAL_KEY := "CARGO_INCREMENTAL"
  const MISMATCH := "-D argument-comment-mismatch"
  const ANONYMOUS := "-D uncommented-anonymous-literal-argument"
  const NOISE := "-A unknown_lints"

  function Flags(value: Option<string>): string {
    WithFlag(Some(WithFlag(Some(WithFlag(value, MISMATCH)), ANONYMOUS)), NOISE)
  }

  function Defaulted(env: map<string, string>): map<string, string> {
    env[FLAGS_KEY := Flags(Get(env, FLAGS_KEY))]
       [INCREMENTAL_KEY := if Get(env, INCREMENTAL_KEY).None? || env[INCREMENTAL_KEY] == "" then "0"
         else env[INCREMENTAL_KEY]]
  }

  class Environment {
    var values: map<string, string>

    constructor (values: map<string, string>)
      ensures this.values == values
    {
      this.values := values;
    }

    // `append_env_flag`
    method AppendEnvFlag(key: string, flag: string)
      modifies this
      ensures values == old(values)[key := WithFlag(Get(old(values), key), flag)]
    {
      var value := Get(values, key);
      if value.None? || value.value == "" {
        values := values[key := flag];
        return;
      }
      if !Contains(value.value, flag) {
        values := values[key := value.value + " " + flag];
      }
    }

    // `set_default_lint_env`
    method SetDefaultLintEnv()
      modifies this
      ensures values == Defaulted(old(values))
    {
      hide Contains;
      AppendEnvFlag("DYLINT_RUSTFLAGS", "-D argument-comment-mismatch");
      AppendEnvFlag("DYLINT_RUSTFLAGS", "-D uncommented-anonymous-literal-argument");
      AppendEnvFlag("DYLINT_RUSTFLAGS", "-A unknown_lints");
      if "CARGO_INCREMENTAL" !in values || values["CARGO_INCREMENTAL"] == "" {
        values := values["CARGO_INCREMENTAL" := "0"];
      }
    }
  }

  // Setting a flag keeps the value in front and makes the flag part of it.
  lemma WithFlagMeaning(value: Option<string>, flag: string)
    requires flag != ""
    ensures WithFlag(value, flag) != "" && Contains(WithFlag(value, flag), flag)
    ensures value.Some? ==> value.value <= WithFlag(value, flag)
  {
    if value.None? || value.value == "" {
      assert flag[0..|flag|] == flag;
      assert ContainsAt(flag, flag, 0);
    } else if !Contains(value.value, flag) {
      var s := value.value + " " + flag;
      assert s[|value.value| + 1..|value.value| + 1 + |flag|] == flag;
      assert ContainsAt(s, flag, |value.value| + 1);
    }
  }

  lemma ContainsGrows(s: string, t: string, part: string)
    requires s <= t && Contains(s, part)
    ensures Contains(t, part)
  {
    var i :| 0 <= i <= |s| && ContainsAt(s, part, i);
    assert t[..|s|][i..i + |part|] == t[i..i + |part|];
    assert ContainsAt(t, part, i);
  }

  // Setting the defaults keeps every other variable, keeps the flags that were there in front, adds each lint flag,
  // and setting them again changes nothing.
  lemma DefaultsMeaning(env: map<string, string>)
    ensures var set1 := Defaulted(env);
      && Defaulted(set1) == set1
      && (forall key | key in env && key != FLAGS_KEY && key != INCREMENTAL_KEY :: key in set1 && set1[key] == env[key])
      && (FLAGS_KEY in env ==> env[FLAGS_KEY] <= set1[FLAGS_KEY])
      && Contains(set1[FLAGS_KEY], MISMATCH) && Contains(set1[FLAGS_KEY], ANONYMOUS) && Contains(set1[FLAGS_KEY], NOISE)
  {
    var v0 := Get(env, FLAGS_KEY);
    var v1 := WithFlag(v0, MISMATCH);
    var v2 := WithFlag(Some(v1), ANONYMOUS);
    var v3 := WithFlag(Some(v2), NOISE);
    WithFlagMeaning(v0, MISMATCH);
    WithFlagMeaning(Some(v1), ANONYMOUS);
    WithFlagMeaning(Some(v2), NOISE);
    ContainsGrows(v2, v3, ANONYMOUS);
    ContainsGrows(v1, v2, MISMATCH);
    ContainsGrows(v2, v3, MISMATCH);
    hide Contains;
    assert WithFlag(Some(v3), MISMATCH) == v3 && WithFlag(Some(v3), ANONYMOUS) == v3 && WithFlag(Some(v3), NOISE) == v3;
    assert FLAGS_KEY != INCREMENTAL_KEY;
    assert v0.Some? ==> v0.value <= v1 <= v2 <= v3;
  }
}
