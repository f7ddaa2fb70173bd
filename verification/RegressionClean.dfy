/** When a report is read without any problem, field by field, and what a compact baseline without problems records. */
module RegressionClean {
  import opened Prelude
  import opened Json
  import opened RegressionReport
  import opened RegressionCompaction
  import opened RegressionIdentities

  // ---------------------------------------------------------------- the header

  predicate HeaderFits(report: Object) {
    && Get(report, SchemaVersion) == Num(4.0)
    && Get(report, VersionCheck).Obj? && Get(Get(report, VersionCheck).fields, Success) == Bool(true)
    && Get(report, ModernFeatureEnablement) == Bool(true)
    && Get(report, OfficialConformance).Obj?
    && (var official := Get(report, OfficialConformance).fields;
        && Get(official, Repository) == Str("modelcontextprotocol/conformance")
        && Get(official, GitRef) == Str("49103de6ed70804e940637bf3e9e29e4a3f54e64")
        && Get(official, AuthenticationIncluded) == Bool(true)
        && Get(official, Scenarios).Obj?)
  }

  lemma HeaderMeaning(report: Object)
    ensures Clean(Header(report)) <==> HeaderFits(report)
  {
  }

  // The catalog that the report ran is the pinned one.
  predicate CatalogFits(report: Object, catalog: Catalog, mode: string)
    requires mode in catalog
  {
    && Get(report, OfficialConformance).Obj? && Get(Get(report, OfficialConformance).fields, Scenarios).Obj?
    && Get(Get(Get(report, OfficialConformance).fields, Scenarios).fields, Named(mode)) == Strings(catalog[mode])
  }

  lemma CatalogMeaning(r: Reading, report: Object, catalog: Catalog, mode: string)
    requires mode in catalog && HeaderFits(report)
    ensures Clean(CheckCatalog(r, report, catalog, mode)) <==> Clean(r) && CatalogFits(report, catalog, mode)
  {
  }

  // ---------------------------------------------------------------- the cases

  predicate Required(c: Json) {
    c.Obj? && (Get(c.fields, Mode) == Str("2025-06-18") || Get(c.fields, Mode) == Str("2025-11-25")
               || Get(c.fields, Mode) == Str("2026-07-28"))
  }

  predicate SamePlace(a: Json, b: Json) {
    Required(a) && Required(b) && Get(a.fields, Mode) == Get(b.fields, Mode)
      && Get(a.fields, Transport) == Get(b.fields, Transport)
  }

  // Every case is an object, and those of a required mode have a transport each, no two the same place.
  predicate CasesFit(cases: seq<Json>) {
    && (forall k | 0 <= k < |cases| :: cases[k].Obj? && (Required(cases[k]) ==> Get(cases[k].fields, Transport).Str?))
    && forall j, k | 0 <= j < k < |cases| :: !SamePlace(cases[j], cases[k])
  }

  lemma RequiredModes3(j: Json)
    ensures IsRequiredMode(j) <==> j == Str("2025-06-18") || j == Str("2025-11-25") || j == Str("2026-07-28")
  {
    assert REQUIRED_MODES[0] == "2025-06-18" && REQUIRED_MODES[1] == "2025-11-25" && REQUIRED_MODES[2] == "2026-07-28";
  }

  ghost predicate KeptSoFar(kept: Cases, cases: seq<Json>) {
    forall mode, transport :: (mode, transport) in kept <==> SomeCase(cases, mode, transport)
  }

  ghost predicate SomeCase(cases: seq<Json>, mode: string, transport: string) {
    exists k | 0 <= k < |cases| :: Required(cases[k]) && IsCase(cases[k], mode, transport)
  }

  lemma SomeCaseNext(cases: seq<Json>, mode: string, transport: string)
    requires cases != []
    ensures var init, c := cases[..|cases| - 1], cases[|cases| - 1];
      SomeCase(cases, mode, transport) <==>
        SomeCase(init, mode, transport) || (Required(c) && IsCase(c, mode, transport))
  {
    var init := cases[..|cases| - 1];
    hide IsCase, Required;
    if SomeCase(init, mode, transport) {
      var k :| 0 <= k < |init| && Required(init[k]) && IsCase(init[k], mode, transport);
      assert Required(cases[k]) && IsCase(cases[k], mode, transport);
    }
    if SomeCase(cases, mode, transport) {
      var k :| 0 <= k < |cases| && Required(cases[k]) && IsCase(cases[k], mode, transport);
      if k < |init| { assert Required(init[k]) && IsCase(init[k], mode, transport); }
    }
  }

  lemma {:induction false} ScanCasesKeeps(r: Reading, cases: seq<Json>)
    ensures KeptSoFar(ScanCases(r, cases).cases, cases)
  {
    if cases != [] {
      var init, c := cases[..|cases| - 1], cases[|cases| - 1];
      ScanCasesKeeps(r, init);
      forall mode, transport
        ensures (mode, transport) in ScanCases(r, cases).cases <==> SomeCase(cases, mode, transport)
      {
        SomeCaseNext(cases, mode, transport);
        CaseKept(ScanCases(r, init), c, mode, transport);
      }
    }
  }

  lemma CaseKept(s: CaseScan, c: Json, mode: string, transport: string)
    ensures (mode, transport) in ScanCase(s, c).cases <==>
      (mode, transport) in s.cases || (Required(c) && IsCase(c, mode, transport))
  {
    if c.Obj? { RequiredModes3(Get(c.fields, Mode)); }
    hide IsRequiredMode;
  }

  lemma CaseClean(s: CaseScan, c: Json)
    ensures Clean(ScanCase(s, c).reading) <==>
      Clean(s.reading) && c.Obj? && (Required(c) ==>
        Get(c.fields, Transport).Str? && (Get(c.fields, Mode).text, Get(c.fields, Transport).text) !in s.cases)
  {
    if c.Obj? { RequiredModes3(Get(c.fields, Mode)); }
    hide IsRequiredMode;
  }

  lemma {:induction false} ScanCasesMeaning(r: Reading, cases: seq<Json>)
    ensures Clean(ScanCases(r, cases).reading) <==> Clean(r) && CasesFit(cases)
  {
    if cases != [] {
      var init, c := cases[..|cases| - 1], cases[|cases| - 1];
      ScanCasesMeaning(r, init);
      ScanCasesKeeps(r, init);
      CaseClean(ScanCases(r, init), c);
      CasesFitNext(cases);
      hide ScanCase, CasesFit, IsCase, Required;
      if c.Obj? && Required(c) && Get(c.fields, Transport).Str? {
        assert Get(c.fields, Mode).Str? by { RequiredIsText(c); }
        PlaceTaken(init, c, Get(c.fields, Mode).text, Get(c.fields, Transport).text);
      }
    }
  }

  lemma RequiredIsText(c: Json)
    requires Required(c)
    ensures Get(c.fields, Mode).Str?
  {
  }

  lemma PlaceTaken(init: seq<Json>, c: Json, mode: string, transport: string)
    requires Required(c) && IsCase(c, mode, transport)
    ensures SomeCase(init, mode, transport) <==> exists j | 0 <= j < |init| :: SamePlace(init[j], c)
  {
  }

  lemma CasesFitNext(cases: seq<Json>)
    requires cases != []
    ensures var init, c := cases[..|cases| - 1], cases[|cases| - 1];
      CasesFit(cases) <==>
        && CasesFit(init) && c.Obj? && (Required(c) ==> Get(c.fields, Transport).Str?)
        && !exists j | 0 <= j < |init| :: SamePlace(init[j], c)
  {
    var init, c := cases[..|cases| - 1], cases[|cases| - 1];
    hide SamePlace, Required;
    assert forall k | 0 <= k < |init| :: init[k] == cases[k];
    if CasesFit(cases) {
      assert forall j | 0 <= j < |init| :: !SamePlace(cases[j], cases[|cases| - 1]);
    }
  }

  // ---------------------------------------------------------------- one case

  // The check reads as some identity with some status.
  ghost predicate Readable(check: Json) {
    exists id, status :: Names(check, id, status)
  }

  ghost predicate AllReadable(checks: seq<Json>) {
    forall k | 0 <= k < |checks| :: Readable(checks[k])
  }

  // Some check of an official or harness run names this scenario.
  ghost predicate Observed(checks: seq<Json>, scenario: string) {
    exists k | 0 <= k < |checks| :: ObservedBy(checks[k], scenario)
  }

  ghost predicate ObservedBy(check: Json, scenario: string) {
    exists id, status :: Names(check, id, status) && id.scenario == scenario && id.source in {"official", "harness"}
  }

  // There are checks, each reads as something, and over HTTP they observe the catalogued scenarios and no others.
  ghost predicate CaseFits(c: Object, catalog: Catalog, mode: string, transport: string)
    requires mode in catalog
  {
    && Get(c, Checks).List? && Get(c, Checks).items != []
    && AllReadable(Get(c, Checks).items)
    && (transport == "official-http" ==>
          forall scenario :: Observed(Get(c, Checks).items, scenario) <==> scenario in ElementsOf(catalog[mode]))
  }

  lemma PlacedIdentity(check: Json, id: Identity, status: Status, mode: string, transport: string)
    requires Names(check, id, status)
    ensures Names(check, id.(mode := mode, transport := transport), status)
  {
  }

  lemma ReadableMeaning(mode: string, transport: string, check: Json)
    ensures ReadCheck(mode, transport, check).Some? <==> Readable(check)
  {
    hide ReadCheck, Names;
    var c := ReadCheck(mode, transport, check);
    if c.Some? { CheckMeaning(mode, transport, check, c.value.0, c.value.1); }
    if id, status :| Names(check, id, status) {
      PlacedIdentity(check, id, status, mode, transport);
      CheckMeaning(mode, transport, check, id.(mode := mode, transport := transport), status);
    }
  }

  lemma ObservedMeaning(mode: string, check: Json, scenario: string)
    ensures var c := ReadCheck(mode, HTTP, check);
      ObservedBy(check, scenario) <==> c.Some? && Observes(c.value.0, mode) && c.value.0.scenario == scenario
  {
    hide ReadCheck, Names;
    var c := ReadCheck(mode, HTTP, check);
    if c.Some? { CheckMeaning(mode, HTTP, check, c.value.0, c.value.1); }
    if id, status :| Names(check, id, status) && id.scenario == scenario && id.source in {"official", "harness"} {
      PlacedIdentity(check, id, status, mode, HTTP);
      CheckMeaning(mode, HTTP, check, id.(mode := mode, transport := HTTP), status);
    }
  }

  lemma ObservedNext(checks: seq<Json>, scenario: string)
    requires checks != []
    ensures Observed(checks, scenario) <==>
      Observed(checks[..|checks| - 1], scenario) || ObservedBy(checks[|checks| - 1], scenario)
  {
    var init := checks[..|checks| - 1];
    hide ObservedBy;
    if Observed(init, scenario) {
      var k :| 0 <= k < |init| && ObservedBy(init[k], scenario);
      assert ObservedBy(checks[k], scenario);
    }
    if Observed(checks, scenario) {
      var k :| 0 <= k < |checks| && ObservedBy(checks[k], scenario);
      if k < |init| { assert ObservedBy(init[k], scenario); }
    }
  }

  lemma ReadableNext(checks: seq<Json>)
    requires checks != []
    ensures AllReadable(checks) <==>
      AllReadable(checks[..|checks| - 1]) && Readable(checks[|checks| - 1])
  {
    hide Readable;
    var init := checks[..|checks| - 1];
    assert forall k | 0 <= k < |init| :: init[k] == checks[k];
  }

  lemma {:induction false} ScanChecksMeaning(r: Reading, mode: string, transport: string, checks: seq<Json>)
    ensures Clean(ScanChecks(r, mode, transport, checks).reading) <==>
      Clean(r) && AllReadable(checks)
  {
    hide ReadCheck, Readable, Observes, Observe;
    if checks != [] {
      ScanChecksMeaning(r, mode, transport, checks[..|checks| - 1]);
      ReadableNext(checks);
      ReadableMeaning(mode, transport, checks[|checks| - 1]);
    }
  }

  lemma {:induction false} ScanChecksObserves(r: Reading, mode: string, checks: seq<Json>, scenario: string)
    ensures scenario in ScanChecks(r, mode, HTTP, checks).observed <==> Observed(checks, scenario)
  {
    hide ReadCheck, ObservedBy, Observes, Observe;
    if checks == [] {
      NothingObserved(scenario);
    } else {
      hide Observed;
      ScanChecksObserves(r, mode, checks[..|checks| - 1], scenario);
      ObservedNext(checks, scenario);
      ObservedMeaning(mode, checks[|checks| - 1], scenario);
    }
  }

  lemma NothingObserved(scenario: string)
    ensures !Observed([], scenario)
  {
  }

  lemma ReadCaseMeaning(r: Reading, catalog: Catalog, cases: Cases, mode: string, transport: string)
    requires mode in catalog
    ensures Clean(ReadCase(r, catalog, cases, mode, transport)) <==>
      Clean(r) && (mode, transport) in cases && CaseFits(cases[(mode, transport)], catalog, mode, transport)
  {
    hide Readable, Observed, ScanChecks;
    if (mode, transport) in cases {
      var checks := Get(cases[(mode, transport)], Checks);
      if checks.List? && checks.items != [] {
        ScanChecksMeaning(r, mode, transport, checks.items);
        if transport == HTTP {
          var s := ScanChecks(r, mode, HTTP, checks.items);
          CompareFacts(s.reading, catalog, mode, s.observed);
          forall scenario ensures scenario in s.observed <==> Observed(checks.items, scenario) {
            ScanChecksObserves(r, mode, checks.items, scenario);
          }
        }
      }
    }
  }

  // ---------------------------------------------------------------- the full report

  ghost predicate CaseAt(cases: Cases, catalog: Catalog, mode: string, transport: string)
    requires mode in catalog
  {
    (mode, transport) in cases && CaseFits(cases[(mode, transport)], catalog, mode, transport)
  }

  lemma ReadModeMeaning(r: Reading, report: Object, catalog: Catalog, cases: Cases, mode: string)
    requires mode in catalog && HeaderFits(report)
    ensures Clean(ReadMode(r, report, catalog, cases, mode)) <==>
      Clean(r) && CatalogFits(report, catalog, mode)
        && CaseAt(cases, catalog, mode, "stdio") && CaseAt(cases, catalog, mode, "official-http")
  {
    CatalogMeaning(r, report, catalog, mode);
    hide ReadCase, CheckCatalog, CaseFits, HeaderFits, CatalogFits;
    var r0 := CheckCatalog(r, report, catalog, mode);
    ReadCaseMeaning(r0, catalog, cases, mode, STDIO);
    ReadCaseMeaning(ReadCase(r0, catalog, cases, mode, STDIO), catalog, cases, mode, HTTP);
  }

  ghost predicate ModeFits(report: Object, catalog: Catalog, cases: Cases, mode: string)
    requires mode in catalog
  {
    CatalogFits(report, catalog, mode)
      && CaseAt(cases, catalog, mode, "stdio") && CaseAt(cases, catalog, mode, "official-http")
  }

  lemma {:induction false} ReadModesMeaning(r: Reading, report: Object, catalog: Catalog, cases: Cases, n: nat)
    requires CatalogOk(catalog) && n <= |REQUIRED_MODES| && HeaderFits(report)
    ensures Clean(ReadModes(r, report, catalog, cases, n)) <==>
      Clean(r) && forall k | 0 <= k < n :: ModeFits(report, catalog, cases, REQUIRED_MODES[k])
  {
    hide ReadMode, HeaderFits, CatalogFits, CaseAt;
    if n > 0 {
      ReadModesMeaning(r, report, catalog, cases, n - 1);
      ReadModeMeaning(ReadModes(r, report, catalog, cases, n - 1), report, catalog, cases, REQUIRED_MODES[n - 1]);
    }
  }

  // Some listed case of this place fits.
  ghost predicate Runs(cases: seq<Json>, catalog: Catalog, mode: string, transport: string)
    requires mode in catalog
  {
    exists k | 0 <= k < |cases| ::
      IsCase(cases[k], mode, transport) && CaseFits(cases[k].fields, catalog, mode, transport)
  }

  ghost predicate ModeRuns(report: Object, catalog: Catalog, cases: seq<Json>, mode: string)
    requires mode in catalog
  {
    CatalogFits(report, catalog, mode)
      && Runs(cases, catalog, mode, "stdio") && Runs(cases, catalog, mode, "official-http")
  }

  lemma CaseAtMeaning(r: Reading, cases: seq<Json>, catalog: Catalog, mode: string, transport: string)
    requires mode in catalog && mode in REQUIRED_MODES && Clean(ScanCases(r, cases).reading)
    ensures CaseAt(ScanCases(r, cases).cases, catalog, mode, transport) <==> Runs(cases, catalog, mode, transport)
  {
    var kept := ScanCases(r, cases).cases;
    hide ScanCases, CaseFits;
    if CaseAt(kept, catalog, mode, transport) {
      var fields := kept[(mode, transport)];
      ScanCasesExact(r, cases, mode, transport, fields);
      var k :| 0 <= k < |cases| && IsCase(cases[k], mode, transport) && cases[k].fields == fields;
    }
    if k :| 0 <= k < |cases| && IsCase(cases[k], mode, transport)
            && CaseFits(cases[k].fields, catalog, mode, transport)
    {
      assert Listed(cases, mode, transport, cases[k].fields);
      ScanCasesExact(r, cases, mode, transport, cases[k].fields);
    }
  }

  lemma ModeFitsMeaning(r: Reading, report: Object, cases: seq<Json>, catalog: Catalog, mode: string)
    requires mode in catalog && mode in REQUIRED_MODES && Clean(ScanCases(r, cases).reading)
    ensures ModeFits(report, catalog, ScanCases(r, cases).cases, mode) <==> ModeRuns(report, catalog, cases, mode)
  {
    hide CaseAt, Runs, CatalogFits, ScanCases;
    CaseAtMeaning(r, cases, catalog, mode, "stdio");
    CaseAtMeaning(r, cases, catalog, mode, "official-http");
  }

  lemma AllModesRun(r: Reading, report: Object, cases: seq<Json>, catalog: Catalog)
    requires CatalogOk(catalog) && Clean(ScanCases(r, cases).reading)
    requires "2025-06-18" in catalog && "2025-11-25" in catalog && "2026-07-28" in catalog
    ensures
      (forall k | 0 <= k < |REQUIRED_MODES| ::
          ModeFits(report, catalog, ScanCases(r, cases).cases, REQUIRED_MODES[k])) <==>
      && ModeRuns(report, catalog, cases, "2025-06-18") && ModeRuns(report, catalog, cases, "2025-11-25")
      && ModeRuns(report, catalog, cases, "2026-07-28")
  {
    hide *;
    var modes := RequiredModesAre();
    ModeFitsMeaning(r, report, cases, catalog, modes[0]);
    ModeFitsMeaning(r, report, cases, catalog, modes[1]);
    ModeFitsMeaning(r, report, cases, catalog, modes[2]);
  }

  lemma RequiredModesAre() returns (modes: seq<string>)
    ensures modes == REQUIRED_MODES && |modes| == 3
    ensures modes[0] == "2025-06-18" && modes[1] == "2025-11-25" && modes[2] == "2026-07-28"
    ensures forall k | 0 <= k < 3 :: modes[k] in REQUIRED_MODES
  {
    modes := REQUIRED_MODES;
  }

  lemma CatalogModes(catalog: Catalog)
    requires CatalogOk(catalog)
    ensures "2025-06-18" in catalog && "2025-11-25" in catalog && "2026-07-28" in catalog
  {
    assert REQUIRED_MODES[0] == "2025-06-18" && REQUIRED_MODES[1] == "2025-11-25" && REQUIRED_MODES[2] == "2026-07-28";
  }

  // Both the three versions and both transports are there.
  ghost predicate FullReportFits(report: Object, catalog: Catalog)
    requires CatalogOk(catalog)
  {
    CatalogModes(catalog);
    && HeaderFits(report)
    && Get(report, Field.Cases).List? && CasesFit(Get(report, Field.Cases).items)
    && ModeRuns(report, catalog, Get(report, Field.Cases).items, "2025-06-18")
    && ModeRuns(report, catalog, Get(report, Field.Cases).items, "2025-11-25")
    && ModeRuns(report, catalog, Get(report, Field.Cases).items, "2026-07-28")
  }

  // A full report is read without problems exactly when its header is right, its cases are listed once per place, and
  // in each of the three versions the pinned catalog was selected and ran over both transports.
  lemma FullReportMeaning(report: Object, catalog: Catalog)
    requires CatalogOk(catalog) && Get(report, BaselineKind) == Null
    ensures Clean(Read(report, catalog)) <==> FullReportFits(report, catalog)
  {
    CatalogModes(catalog);
    HeaderMeaning(report);
    var list := Get(report, Field.Cases);
    var r := NoteIf(Header(report), !list.List?, NoCases);
    var items := if list.List? then list.items else [];
    ScanCasesMeaning(r, items);
    var s := ScanCases(r, items);
    hide *;
    ReadIs(report, catalog, r, items);
    NoteIfClean(Header(report), !list.List?, NoCases);
    if Clean(s.reading) {
      ReadModesMeaning(s.reading, report, catalog, s.cases, |REQUIRED_MODES|);
      AllModesRun(r, report, items, catalog);
    } else {
      StaysUnclean(s.reading, report, catalog, s.cases);
    }
    FitsIs(report, catalog);
  }

  lemma ReadIs(report: Object, catalog: Catalog, r: Reading, items: seq<Json>)
    requires CatalogOk(catalog) && Get(report, BaselineKind) == Null
    requires r == NoteIf(Header(report), !Get(report, Field.Cases).List?, NoCases)
    requires items == if Get(report, Field.Cases).List? then Get(report, Field.Cases).items else []
    ensures Read(report, catalog) ==
      ReadModes(ScanCases(r, items).reading, report, catalog, ScanCases(r, items).cases, |REQUIRED_MODES|)
  {
    hide Header, ScanCases, ReadModes;
  }

  lemma NoteIfClean(r: Reading, bad: bool, p: Problem)
    ensures Clean(NoteIf(r, bad, p)) <==> Clean(r) && !bad
  {
  }

  lemma FitsIs(report: Object, catalog: Catalog)
    requires CatalogOk(catalog)
    requires "2025-06-18" in catalog && "2025-11-25" in catalog && "2026-07-28" in catalog
    ensures FullReportFits(report, catalog) <==>
      && HeaderFits(report)
      && Get(report, Field.Cases).List? && CasesFit(Get(report, Field.Cases).items)
      && ModeRuns(report, catalog, Get(report, Field.Cases).items, "2025-06-18")
      && ModeRuns(report, catalog, Get(report, Field.Cases).items, "2025-11-25")
      && ModeRuns(report, catalog, Get(report, Field.Cases).items, "2026-07-28")
  {
    hide HeaderFits, CasesFit, ModeRuns;
  }

  lemma StaysUnclean(r: Reading, report: Object, catalog: Catalog, cases: Cases)
    requires CatalogOk(catalog) && !Clean(r)
    ensures !Clean(ReadModes(r, report, catalog, cases, |REQUIRED_MODES|))
  {
    if Clean(ReadModes(r, report, catalog, cases, |REQUIRED_MODES|)) {
      CleanModes(r, report, catalog, cases, |REQUIRED_MODES|);
    }
  }
}
