/** When a reviewer report, full or compact, is read without any problem, field by field. */
module ReviewClean {
  import opened Prelude
  import opened Json
  import opened ReviewReport
  import opened ReviewGate
  import opened ReviewIdentities

  // ---------------------------------------------------------------- the header and the totals

  predicate HeaderFits(report: Object) {
    var modes := if Get(report, BaselineKind) == Null then Get(report, Modes) else Get(report, RequiredModes);
    && (Get(report, SchemaVersion) == Num(1.0) || Get(report, SchemaVersion) == Bool(true))
    && Get(report, Field.Reviewer) == Str("codex-mcp-regression-suite")
    && modes == List([Str("2025-06-18"), Str("2025-11-25"), Str("2026-07-28")])
  }

  lemma HeaderMeaning(report: Object)
    ensures Clean(Header(report)) <==> HeaderFits(report)
  {
    assert Strings(REVIEW_MODES).items == [Str("2025-06-18"), Str("2025-11-25"), Str("2026-07-28")];
  }

  // every check of the case passed, and it has one
  predicate CasePasses(results: Results, c: Case) {
    && (exists id | id in results :: id.mode == c.0 && id.transport == c.1 && results[id])
    && !exists id | id in results :: id.mode == c.0 && id.transport == c.1 && !results[id]
  }

  // The summary counts what the results hold.
  predicate TotalsFit(summary: Json, results: Results, required: set<Case>) {
    && summary.Obj?
    && EqualsInt(Get(summary.fields, Passed), |set id | id in results && results[id]|)
    && EqualsInt(Get(summary.fields, Failed), |set id | id in results && !results[id]|)
    && EqualsInt(Get(summary.fields, Total), |set id | id in results|)
    && EqualsInt(Get(summary.fields, CasesPassed), |set c | c in required && CasePasses(results, c)|)
    && EqualsInt(Get(summary.fields, CasesTotal), |required|)
  }

  lemma TotalsMeaning(summary: Json, results: Results, required: set<Case>)
    ensures TotalsMatch(summary, results, required) <==> TotalsFit(summary, results, required)
  {
    CountsMeaning(results);
    forall c ensures CasePasses(results, c) <==> CasePassed(results, c) { }
    hide CasePasses, CasePassed;
    assert (set c | c in required && CasePasses(results, c)) == PassedCases(results, required);
  }

  lemma CountsMeaning(results: Results)
    ensures (set id | id in results && results[id]) == PassedIds(results) && (set id | id in results) == results.Keys
    ensures |set id | id in results && !results[id]| == |results| - |PassedIds(results)|
  {
    var passed := set id | id in results && results[id];
    var failed := set id | id in results && !results[id];
    assert passed == PassedIds(results);
    assert passed + failed == results.Keys && passed !! failed;
    assert |results.Keys| == |passed| + |failed|;
  }

  // What is checked once everything has been read.
  lemma FinishMeaning(r: Reading, report: Object, required: set<Case>)
    ensures Clean(Finish(r, report, required)) <==>
      && Clean(r) && r.observed == required && TotalsMatch(Get(report, Summary), r.results, required)
      && (Get(report, BaselineKind) == Null ==> Get(report, Success) == Bool(OverallSuccess(r)))
  {
    NoteNoCases(r, required - r.observed, true);
    NoteNoCases(NoteCases(r, required - r.observed, true), r.observed - required, false);
    hide TotalsMatch, OverallSuccess, NoteCases;
    if required - r.observed == {} && r.observed - required == {} { assert r.observed == required; }
  }

  // ---------------------------------------------------------------- the checks of a case

  // The check has a reviewer name and an outcome.
  predicate Readable(check: Json) {
    && check.Obj? && Get(check.fields, Name).Str? && "review/" <= Get(check.fields, Name).text
    && Get(check.fields, Success).Bool?
  }

  predicate SameName(a: Json, b: Json) {
    a.Obj? && b.Obj? && Get(a.fields, Name) == Get(b.fields, Name)
  }

  predicate ChecksFit(checks: seq<Json>) {
    && (forall k | 0 <= k < |checks| :: Readable(checks[k]))
    && forall j, k | 0 <= j < k < |checks| :: !SameName(checks[j], checks[k])
  }

  predicate Passes(check: Json) {
    check.Obj? && Get(check.fields, Success) == Bool(true)
  }

  predicate AllPass(checks: seq<Json>) {
    forall k | 0 <= k < |checks| :: Passes(checks[k])
  }

  ghost predicate NothingOf(results: Results, at: Case) {
    forall id | id in results :: id.InCase() != at
  }

  // where the results after the checks come from
  ghost predicate From(before: Results, after: Results, at: Case) {
    forall id | id in after :: id in before || id.InCase() == at
  }

  lemma CheckMeaning(s: CaseScan, at: Case, check: Json)
    ensures var t := ScanCheck(s, at, check);
      && (Clean(t.reading) <==>
            && Clean(s.reading) && Readable(check)
            && ReviewId(at.0, at.1, Get(check.fields, Name).text) !in s.reading.results)
      && (Clean(t.reading) ==> (t.success <==> s.success && Passes(check)))
      && t.reading.observed == s.reading.observed
      && From(s.reading.results, t.reading.results, at)
  {
  }

  // An identity has been read exactly when some earlier check has its name.
  lemma NameTaken(r: Reading, at: Case, checks: seq<Json>, check: Json)
    requires NothingOf(r.results, at) && Clean(ScanChecks(r, at, checks).reading)
    requires Readable(check) && ChecksFit(checks)
    ensures ReviewId(at.0, at.1, Get(check.fields, Name).text) in ScanChecks(r, at, checks).reading.results <==>
      exists j | 0 <= j < |checks| :: SameName(checks[j], check)
  {
    var id := ReviewId(at.0, at.1, Get(check.fields, Name).text);
    ScanChecksExact(r, at, checks, id, true);
    ScanChecksExact(r, at, checks, id, false);
    hide ScanChecks;
    if j :| 0 <= j < |checks| && SameName(checks[j], check) {
      assert Readable(checks[j]);
      assert Names(checks[j], id, Get(checks[j].fields, Success).flag);
    }
  }

  lemma ChecksFitNext(checks: seq<Json>)
    requires checks != []
    ensures var init, check := checks[..|checks| - 1], checks[|checks| - 1];
      && (ChecksFit(checks) <==>
            ChecksFit(init) && Readable(check) && !exists j | 0 <= j < |init| :: SameName(init[j], check))
      && (AllPass(checks) <==> AllPass(init) && Passes(check))
  {
    var init := checks[..|checks| - 1];
    hide Readable, SameName, Passes;
    assert forall k | 0 <= k < |init| :: init[k] == checks[k];
    if ChecksFit(checks) {
      assert forall j | 0 <= j < |init| :: !SameName(checks[j], checks[|checks| - 1]);
    }
  }

  lemma {:induction false} ScanChecksMeaning(r: Reading, at: Case, checks: seq<Json>)
    requires NothingOf(r.results, at)
    ensures var s := ScanChecks(r, at, checks);
      && (Clean(s.reading) <==> Clean(r) && ChecksFit(checks))
      && (Clean(s.reading) ==> (s.success <==> AllPass(checks)))
      && s.reading.observed == r.observed && From(r.results, s.reading.results, at)
  {
    if checks != [] {
      var init, check := checks[..|checks| - 1], checks[|checks| - 1];
      ScanChecksMeaning(r, at, init);
      ChecksFitNext(checks);
      CheckMeaning(ScanChecks(r, at, init), at, check);
      if Clean(ScanChecks(r, at, init).reading) && Readable(check) { NameTaken(r, at, init, check); }
      hide ScanCheck, Readable, Passes, ChecksFit, AllPass, SameName;
    }
  }

  // ---------------------------------------------------------------- the cases of a full report

  // A required case with checks that fit, whose outcome is theirs.
  predicate CaseFits(c: Json, required: set<Case>) {
    && c.Obj? && Get(c.fields, Mode).Str? && Get(c.fields, Transport).Str?
    && (Get(c.fields, Mode).text, Get(c.fields, Transport).text) in required
    && Get(c.fields, Checks).List? && Get(c.fields, Checks).items != [] && ChecksFit(Get(c.fields, Checks).items)
    && Get(c.fields, Success) == Bool(AllPass(Get(c.fields, Checks).items))
  }

  predicate At(c: Json, at: Case) {
    c.Obj? && Get(c.fields, Mode) == Str(at.0) && Get(c.fields, Transport) == Str(at.1)
  }

  ghost predicate SomeAt(cases: seq<Json>, at: Case) {
    exists k | 0 <= k < |cases| :: At(cases[k], at)
  }

  // Every case fits, and no two stand for the same place.
  ghost predicate CasesFit(cases: seq<Json>, required: set<Case>) {
    && (forall k | 0 <= k < |cases| :: CaseFits(cases[k], required))
    && forall j, k, at | 0 <= j < k < |cases| && At(cases[j], at) :: !At(cases[k], at)
  }

  ghost predicate ResultsObserved(r: Reading) {
    forall id | id in r.results :: id.InCase() in r.observed
  }

  lemma CaseMeaning(r: Reading, required: set<Case>, c: Json)
    requires ResultsObserved(r)
    ensures var t := ScanCase(r, required, c);
      && ResultsObserved(t)
      && (Clean(t) <==> Clean(r) && CaseFits(c, required) && forall at | At(c, at) :: at !in r.observed)
      && (Clean(t) ==> forall at :: at in t.observed <==> at in r.observed || At(c, at))
  {
    if c.Obj? && HasCase(c.fields) {
      var at, checks := CaseOf(c.fields), Get(c.fields, Checks);
      assert At(c, at) && forall other | At(c, other) :: other == at;
      if checks.List? && at !in r.observed {
        ScanChecksMeaning(r.(observed := r.observed + {at}), at, checks.items);
      }
    }
    hide ScanChecks, ChecksFit, AllPass;
  }

  lemma CasesFitNext(cases: seq<Json>, required: set<Case>)
    requires cases != []
    ensures var init, c := cases[..|cases| - 1], cases[|cases| - 1];
      && (CasesFit(cases, required) <==>
            CasesFit(init, required) && CaseFits(c, required) && forall at | At(c, at) :: !SomeAt(init, at))
      && forall at :: SomeAt(cases, at) <==> SomeAt(init, at) || At(c, at)
  {
    var init, c := cases[..|cases| - 1], cases[|cases| - 1];
    hide CaseFits, At;
    assert forall k | 0 <= k < |init| :: init[k] == cases[k];
    forall at ensures SomeAt(cases, at) <==> SomeAt(init, at) || At(c, at) {
      if k :| 0 <= k < |init| && At(init[k], at) { assert At(cases[k], at); }
      if k :| 0 <= k < |cases| && At(cases[k], at) { if k < |init| { assert At(init[k], at); } }
    }
    if CasesFit(cases, required) {
      forall at | At(c, at) ensures !SomeAt(init, at) {
        assert At(cases[|cases| - 1], at);
        assert forall j | 0 <= j < |init| :: !At(cases[j], at);
      }
    }
  }

  lemma {:induction false} ScanCasesMeaning(r: Reading, required: set<Case>, cases: seq<Json>)
    requires r.observed == {} && r.results == map[]
    ensures var t := ScanCases(r, required, cases);
      && ResultsObserved(t)
      && (Clean(t) <==> Clean(r) && CasesFit(cases, required))
      && (Clean(t) ==> forall at :: at in t.observed <==> SomeAt(cases, at))
  {
    if cases != [] {
      var init := cases[..|cases| - 1];
      ScanCasesMeaning(r, required, init);
      CasesFitNext(cases, required);
      CaseMeaning(ScanCases(r, required, init), required, cases[|cases| - 1]);
      hide ScanCase, CaseFits, CasesFit, At, SomeAt;
    }
  }

  // ---------------------------------------------------------------- the full report

  // Exactly the required cases are there, they fit, and the totals and the overall outcome are those of the results.
  ghost predicate FullReportFits(report: Object, required: set<Case>, results: Results) {
    && HeaderFits(report)
    && Get(report, Cases).List? && CasesFit(Get(report, Cases).items, required)
    && (forall at :: at in required <==> SomeAt(Get(report, Cases).items, at))
    && TotalsFit(Get(report, Summary), results, required)
    && Get(report, Success) == Bool(required != {} && forall id | id in results :: results[id])
  }

  lemma FullBody(report: Object, required: set<Case>)
    ensures var r := ReadFull(report, required);
      Clean(r) && r.observed == required <==>
        && HeaderFits(report)
        && Get(report, Cases).List? && CasesFit(Get(report, Cases).items, required)
        && forall at :: at in required <==> SomeAt(Get(report, Cases).items, at)
  {
    HeaderMeaning(report);
    HeaderEmpty(report);
    hide Header, HeaderFits, ScanCases, CasesFit, SomeAt;
    if Get(report, Cases).List? { ScanCasesMeaning(Header(report), required, Get(report, Cases).items); }
  }

  lemma OverallMeaning(r: Reading)
    ensures OverallSuccess(r) <==> r.observed != {} && forall id | id in r.results :: r.results[id]
  {
  }

  // A full report is read without problems exactly when it fits.
  lemma FullReportMeaning(report: Object, required: set<Case>)
    requires Get(report, BaselineKind) == Null
    ensures Clean(Read(report, required)) <==> FullReportFits(report, required, Read(report, required).results)
  {
    var r := ReadFull(report, required);
    FullBody(report, required);
    FinishMeaning(r, report, required);
    OverallMeaning(r);
    TotalsMeaning(Get(report, Summary), r.results, required);
    FinishKeeps(r, report, required);
    hide ReadFull, Finish, HeaderFits, CasesFit, SomeAt, TotalsMatch, TotalsFit, OverallSuccess, Clean;
  }

  lemma FinishKeeps(r: Reading, report: Object, required: set<Case>)
    ensures Finish(r, report, required).results == r.results
  {
    NoteNoCases(r, required - r.observed, true);
    NoteNoCases(NoteCases(r, required - r.observed, true), r.observed - required, false);
    hide TotalsMatch, OverallSuccess, NoteCases;
  }
}
