/** What each flag of the parsed arguments says about the arguments themselves. */
module LintFlags {
  import opened Prelude
  import opened LintWrapper

  // An argument that claims the next one as its value.
  predicate TakesNext(arg: string) {
    arg in {"--manifest-path", "-p", "--package", "--lib", "--lib-path"}
  }

  // Argument i is the value of the option in front of it, and so no option itself.
  predicate IsValue(args: seq<string>, i: nat)
    requires i < |args|
    decreases i
  {
    i > 0 && TakesNext(args[i - 1]) && !IsValue(args, i - 1)
  }

  datatype Flag = ManifestFlag | PackageFlag | LibraryFlag | FixFlag | NoDepsFlag

  predicate Has(p: Parsed, flag: Flag) {
    match flag
    case ManifestFlag => p.hasManifestPath
    case PackageFlag => p.hasPackageSelection
    case LibraryFlag => p.hasLibrarySelection
    case FixFlag => p.hasFix
    case NoDepsFlag => p.hasNoDeps
  }

  // an option that gives the flag by itself
  predicate Alone(arg: string, flag: Flag) {
    match flag
    case ManifestFlag => "--manifest-path=" <= arg
    case PackageFlag => arg == "--workspace" || "--package=" <= arg
    case LibraryFlag => "--lib=" <= arg || "--lib-path=" <= arg
    case FixFlag => arg == "--fix"
    case NoDepsFlag => arg == "--no-deps"
  }

  // an option that gives it with the value behind
  predicate WithValue(arg: string, flag: Flag) {
    match flag
    case ManifestFlag => arg == "--manifest-path"
    case PackageFlag => arg == "-p" || arg == "--package"
    case LibraryFlag => arg == "--lib" || arg == "--lib-path"
    case FixFlag => false
    case NoDepsFlag => false
  }

  predicate GivesAt(args: seq<string>, i: nat, flag: Flag)
    requires i < |args|
  {
    if IsValue(args, i) then WithValue(args[i - 1], flag) else Alone(args[i], flag)
  }

  ghost predicate Gives(args: seq<string>, flag: Flag) {
    exists i | 0 <= i < |args| :: GivesAt(args, i, flag)
  }

  // ---------------------------------------------------------------- one argument

  lemma Different()
    ensures !("--manifest-path=" <= "--manifest-path") && !("--package=" <= "--package")
    ensures !("--lib=" <= "--lib-path") && !("--lib=" <= "--lib") && !("--lib-path=" <= "--lib-path")
  {
    assert |"--manifest-path="| == 16 && |"--package="| == 10 && |"--lib-path="| == 11 && |"--lib="| == 6;
    assert "--lib="[5] == '=' && "--lib-path"[5] == '-';
  }

  predicate EffectGives(effect: Effect, flag: Flag) {
    match effect
    case SetsManifestPath => flag == ManifestFlag
    case SetsPackageSelection => flag == PackageFlag
    case SetsLibrarySelection => flag == LibraryFlag
    case SetsFix => flag == FixFlag
    case SetsNoDeps => flag == NoDepsFlag
    case _ => false
  }

  predicate ValueGives(value: Expected, flag: Flag) {
    match value
    case Nothing => false
    case ManifestPath => flag == ManifestFlag
    case PackageSelection => flag == PackageFlag
    case LibrarySelection => flag == LibraryFlag
  }

  lemma EffectMeaning(arg: string, flag: Flag)
    ensures EffectGives(EffectOf(arg), flag) <==> Alone(arg, flag)
    ensures EffectOf(arg).Awaits? <==> TakesNext(arg)
    ensures EffectOf(arg).Awaits? ==> EffectOf(arg).value != Nothing
    ensures EffectOf(arg).Awaits? && ValueGives(EffectOf(arg).value, flag) <==> WithValue(arg, flag)
  {
    Different();
    if "--manifest-path=" <= arg { assert arg[2] == 'm' && arg[15] == '='; }
    if "--package=" <= arg { assert arg[2] == 'p' && arg[9] == '='; }
    if "--lib=" <= arg { assert arg[2] == 'l' && arg[5] == '='; }
    if "--lib-path=" <= arg { assert arg[2] == 'l' && arg[5] == '-' && arg[10] == '='; }
  }

  lemma TakingValue(p: Parsed, value: Expected, flag: Flag)
    ensures Has(TakeValue(p, value), flag) <==> Has(p, flag) || ValueGives(value, flag)
  {
  }

  lemma TakingOption(p: Parsed, effect: Effect, flag: Flag)
    ensures Has(TakeOption(p, effect).0, flag) <==> Has(p, flag) || EffectGives(effect, flag)
    ensures TakeOption(p, effect).1 == if effect.Awaits? then effect.value else Nothing
  {
  }

  lemma LintStep(s: Scan, arg: string, flag: Flag)
    requires !s.afterSeparator && arg != "--"
    ensures var t := Step(s, arg);
      && !t.afterSeparator
      && (Has(t.parsed, flag) <==>
            Has(s.parsed, flag) || if s.awaited != Nothing then ValueGives(s.awaited, flag) else Alone(arg, flag))
      && (t.awaited != Nothing <==> s.awaited == Nothing && TakesNext(arg))
      && (t.awaited != Nothing ==> (ValueGives(t.awaited, flag) <==> WithValue(arg, flag)))
  {
    var p := s.parsed.(lintArgs := s.parsed.lintArgs + [arg]);
    EffectMeaning(arg, flag);
    TakingValue(p, s.awaited, flag);
    TakingOption(p, EffectOf(arg), flag);
    HasIgnoresArgs(s.parsed, s.parsed.lintArgs + [arg], flag);
    hide EffectOf, TakeOption, TakeValue, Alone, WithValue, TakesNext, Has, EffectGives;
  }

  lemma HasIgnoresArgs(p: Parsed, args: seq<string>, flag: Flag)
    ensures Has(p.(lintArgs := args), flag) <==> Has(p, flag)
  {
  }

  // ---------------------------------------------------------------- all of them

  lemma {:induction false} IsValueInFront(args: seq<string>, n: nat, i: nat)
    requires i < n <= |args|
    ensures IsValue(args[..n], i) <==> IsValue(args, i)
    decreases i
  {
    hide TakesNext;
    if i > 0 { IsValueInFront(args, n, i - 1); }
  }

  lemma GivesNext(args: seq<string>, flag: Flag)
    requires args != []
    ensures Gives(args, flag) <==> Gives(args[..|args| - 1], flag) || GivesAt(args, |args| - 1, flag)
  {
    var init := args[..|args| - 1];
    forall i | 0 <= i < |init| ensures GivesAt(init, i, flag) <==> GivesAt(args, i, flag) {
      IsValueInFront(args, |init|, i);
      hide WithValue, Alone, IsValue;
    }
    hide GivesAt;
    if Gives(init, flag) {
      var i :| 0 <= i < |init| && GivesAt(init, i, flag);
      assert GivesAt(args, i, flag);
    }
    if Gives(args, flag) {
      var i :| 0 <= i < |args| && GivesAt(args, i, flag);
      if i < |init| { assert GivesAt(init, i, flag); }
    }
  }

  // What is awaited after some arguments is the value of the last one.
  ghost predicate AwaitsLast(s: Scan, args: seq<string>, flag: Flag) {
    && (s.awaited != Nothing <==> args != [] && TakesNext(args[|args| - 1]) && !IsValue(args, |args| - 1))
    && (s.awaited != Nothing && args != [] ==> (ValueGives(s.awaited, flag) <==> WithValue(args[|args| - 1], flag)))
  }

  lemma {:induction false} ScannedFlags(args: seq<string>, flag: Flag)
    requires "--" !in args
    ensures var s := Scanned(START, args);
      !s.afterSeparator && AwaitsLast(s, args, flag) && (Has(s.parsed, flag) <==> Gives(args, flag))
  {
    if args == [] {
      hide TakesNext, WithValue, GivesAt;
    } else {
      var init, last := args[..|args| - 1], |args| - 1;
      assert args[last] in args;
      ScannedFlags(init, flag);
      LintStep(Scanned(START, init), args[last], flag);
      GivesNext(args, flag);
      if last > 0 { IsValueInFront(args, last, last - 1); }
      assert Scanned(START, args) == Step(Scanned(START, init), args[last]);
      hide Step, Scanned, TakesNext, WithValue, Alone, ValueGives, Has, Gives;
    }
  }

  // an argument for cargo that selects targets
  predicate Targets(arg: string) {
    || arg in {"--all-targets", "--lib", "--bins", "--tests", "--examples", "--benches", "--doc",
               "--bin", "--test", "--example", "--bench"}
    || "--bin=" <= arg || "--test=" <= arg || "--example=" <= arg || "--bench=" <= arg
  }

  // Each flag is set exactly when some option gives it, by itself or through the value behind it; targets are selected
  // exactly when some argument for cargo selects them.
  lemma FlagsMeaning(argv: seq<string>, flag: Flag)
    ensures Has(Parse(argv), flag) <==> Gives(Parse(argv).lintArgs, flag)
    ensures Parse(argv).hasCargoTargetSelection <==> exists arg | arg in Parse(argv).cargoArgs :: Targets(arg)
  {
    var p := Parse(argv);
    LintArgsScanned(argv);
    SplitAtSeparator(argv);
    TargetsMeaning(p.cargoArgs);
    hide Scanned, Step, AnySelects, Targets;
    ScannedFlags(p.lintArgs, flag);
    hide Gives;
  }

  lemma TargetsMeaning(args: seq<string>)
    ensures AnySelects(args) <==> exists arg | arg in args :: Targets(arg)
  {
    assert forall arg :: Targets(arg) <==> SelectsTarget(arg);
    hide Targets, SelectsTarget;
    if AnySelects(args) {
      var k :| 0 <= k < |args| && SelectsTarget(args[k]);
      assert args[k] in args;
    }
  }
}
