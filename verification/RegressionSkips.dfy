/** Where compaction does not keep the verdict: a report whose scenarios were all skipped is accepted against itself and
    refused against its own compact baseline, whatever the catalogue. */
module RegressionSkips {
  import opened Prelude
  import opened Json
  import opened RegressionReport
  import opened RegressionGate
  import opened RegressionCompaction
  import opened RegressionIdentities
  import opened RegressionRatchet

  const ONE := "one"

  // one check that passed and belongs to no scenario
  function PassedCheck(): Json {
    Obj(map[Field.Source := Str("supplemental"), Field.Name := Str(ONE), Field.CheckId := Str(ONE),
            Field.Status := Str("PASS"), Field.Success := Bool(true)])
  }

  function SkippedCheck(scenario: string): Json {
    Obj(map[Field.Source := Str("official"), Field.Scenario := Str(scenario), Field.Name := Str(ONE),
            Field.CheckId := Str(ONE), Field.Status := Str("SKIP"), Field.Success := Bool(true)])
  }

  function Skips(names: seq<string>): seq<Json> {
    seq(|names|, i requires 0 <= i < |names| => SkippedCheck(names[i]))
  }

  function ChecksOf(names: seq<string>, transport: string): seq<Json> {
    [PassedCheck()] + if transport == HTTP then Skips(names) else []
  }

  function CaseFor(catalog: Catalog, mode: string, transport: string): Json
    requires mode in catalog
  {
    Obj(map[Field.Mode := Str(mode), Field.Transport := Str(transport),
            Field.Checks := List(ChecksOf(catalog[mode], transport))])
  }

  // both transports of each required mode
  function AllCases(catalog: Catalog): seq<Json>
    requires CatalogOk(catalog)
  {
    seq(6, k requires 0 <= k < 6 => CaseFor(catalog, REQUIRED_MODES[k / 2], TRANSPORTS[k % 2]))
  }

  function Selected(catalog: Catalog): Object
    requires CatalogOk(catalog)
  {
    map i | 0 <= i < |REQUIRED_MODES| :: Named(REQUIRED_MODES[i]) := Strings(catalog[REQUIRED_MODES[i]])
  }

  // a full report over the catalogue in which every scenario was skipped
  function SkippedReport(catalog: Catalog): Object
    requires CatalogOk(catalog)
  {
    map[
      Field.SchemaVersion := Num(REPORT_SCHEMA_VERSION as real),
      Field.VersionCheck := Obj(map[Field.Success := Bool(true)]),
      Field.ModernFeatureEnablement := Bool(true),
      Field.AutomaticAuthRequired := Bool(true),
      Field.OfficialConformance := Obj(map[
        Field.Repository := Str(CONFORMANCE_REPOSITORY),
        Field.GitRef := Str(CONFORMANCE_GIT_REF),
        Field.AuthenticationIncluded := Bool(true),
        Field.Scenarios := Obj(Selected(catalog))]),
      Field.Cases := List(AllCases(catalog))]
  }

  // ---------------------------------------------------------------- its checks

  lemma PassedRead(mode: string, transport: string)
    ensures ReadCheck(mode, transport, PassedCheck())
      == Some((Identity(mode, transport, "supplemental", "", ONE), PASS))
  {
  }

  lemma SkippedRead(mode: string, transport: string, scenario: string)
    requires scenario != ""
    ensures ReadCheck(mode, transport, SkippedCheck(scenario))
      == Some((Identity(mode, transport, "official", scenario, ONE), SKIP))
  {
  }

  predicate AllNamed(names: seq<string>) {
    forall k | 0 <= k < |names| :: names[k] != ""
  }

  // The skipped checks are read without complaint, and their scenarios are observed.
  lemma {:induction false} SkipsScanned(r: Reading, mode: string, names: seq<string>)
    requires Clean(r) && AllNamed(names)
    ensures var s := ScanChecks(r, mode, HTTP, [PassedCheck()] + Skips(names));
      Clean(s.reading) && s.observed == ElementsOf(names)
  {
    hide PassedCheck, SkippedCheck, ReadCheck, Observe;
    if names == [] {
      OnePassed(r, mode, HTTP);
      assert [PassedCheck()] + Skips(names) == [PassedCheck()];
    } else {
      var init, last := names[..|names| - 1], names[|names| - 1];
      var checks := [PassedCheck()] + Skips(names);
      SkipsScanned(r, mode, init);
      assert checks[..|checks| - 1] == [PassedCheck()] + Skips(init) && checks[|checks| - 1] == SkippedCheck(last);
      SkippedRead(mode, HTTP, last);
      ElementsNext(names);
    }
  }

  lemma ElementsNext(names: seq<string>)
    requires names != []
    ensures ElementsOf(names) == ElementsOf(names[..|names| - 1]) + {names[|names| - 1]}
  {
  }

  lemma OnePassed(r: Reading, mode: string, transport: string)
    requires Clean(r)
    ensures var s := ScanChecks(r, mode, transport, [PassedCheck()]); Clean(s.reading) && s.observed == {}
  {
    PassedRead(mode, transport);
    hide PassedCheck, ReadCheck, Observe;
    assert [PassedCheck()][..0] == [];
  }

  lemma CaseRead(r: Reading, catalog: Catalog, cases: Cases, mode: string, transport: string)
    requires Clean(r) && mode in catalog && AllNamed(catalog[mode]) && transport in TRANSPORTS
    requires Holds(cases, mode, transport, CaseFor(catalog, mode, transport).fields)
    ensures Clean(ReadCase(r, catalog, cases, mode, transport))
  {
    var checks := ChecksOf(catalog[mode], transport);
    assert Get(cases[(mode, transport)], Field.Checks) == List(checks);
    hide PassedCheck, CaseFor, ScanChecks, CompareScenarios, Skips;
    if transport == HTTP {
      SkipsScanned(r, mode, catalog[mode]);
      var s := ScanChecks(r, mode, HTTP, checks);
      CompareFacts(s.reading, catalog, mode, s.observed);
    } else {
      OnePassed(r, mode, transport);
      assert checks == [PassedCheck()];
    }
  }

  // ---------------------------------------------------------------- its cases

  // Cases of required modes in different places are read without complaint.
  lemma {:induction false} DifferentPlaces(r: Reading, cases: seq<Json>, places: seq<(string, string)>)
    requires Clean(r) && |places| == |cases|
    requires forall k | 0 <= k < |cases| :: places[k].0 in REQUIRED_MODES && IsCase(cases[k], places[k].0, places[k].1)
    requires forall i, j | 0 <= i < j < |cases| :: places[i] != places[j]
    ensures Clean(ScanCases(r, cases).reading)
    ensures forall p | p in ScanCases(r, cases).cases :: p in places
  {
    if cases != [] {
      var n := |cases| - 1;
      DifferentPlaces(r, cases[..n], places[..n]);
      var s := ScanCases(r, cases[..n]);
      assert places[n] !in places[..n];
      hide ScanCases;
      OneMoreCase(s, cases[n], places[n]);
      assert places == places[..n] + [places[n]];
    }
  }

  lemma OneMoreCase(s: CaseScan, c: Json, place: (string, string))
    requires Clean(s.reading) && place.0 in REQUIRED_MODES && IsCase(c, place.0, place.1) && place !in s.cases
    ensures Clean(ScanCase(s, c).reading) && ScanCase(s, c).cases.Keys == s.cases.Keys + {place}
  {
  }

  function Place(k: nat): (string, string)
    requires k < 6
  {
    (REQUIRED_MODES[k / 2], TRANSPORTS[k % 2])
  }

  lemma PlacesDiffer(i: nat, j: nat)
    requires i < j < 6
    ensures Place(i) != Place(j)
  {
    if i / 2 < j / 2 { ModesDistinct(i / 2, j / 2); }
    assert STDIO[0] != HTTP[0];
  }

  lemma CasesRead(r: Reading, catalog: Catalog)
    requires Clean(r) && CatalogOk(catalog)
    ensures Clean(ScanCases(r, AllCases(catalog)).reading)
    ensures forall k | 0 <= k < 6 ::
      Holds(ScanCases(r, AllCases(catalog)).cases, Place(k).0, Place(k).1,
            CaseFor(catalog, Place(k).0, Place(k).1).fields)
  {
    var cases, places := AllCases(catalog), seq(6, k requires 0 <= k < 6 => Place(k));
    hide ScanCases, ChecksOf;
    forall i, j | 0 <= i < j < 6 ensures places[i] != places[j] { PlacesDiffer(i, j); }
    DifferentPlaces(r, cases, places);
    forall k | 0 <= k < 6
      ensures Holds(ScanCases(r, cases).cases, Place(k).0, Place(k).1,
                    CaseFor(catalog, Place(k).0, Place(k).1).fields)
    {
      assert IsCase(cases[k], Place(k).0, Place(k).1);
      assert Listed(cases, Place(k).0, Place(k).1, cases[k].fields);
      ScanCasesExact(r, cases, Place(k).0, Place(k).1, cases[k].fields);
    }
  }

  // ---------------------------------------------------------------- the whole report

  predicate ScenariosNamed(catalog: Catalog)
    requires CatalogOk(catalog)
  {
    forall i | 0 <= i < |REQUIRED_MODES| :: AllNamed(catalog[REQUIRED_MODES[i]])
  }

  lemma HeaderRead(catalog: Catalog)
    requires CatalogOk(catalog)
    ensures var report := SkippedReport(catalog);
      && Header(report) == Reading([], map[]) && SelectedScenarios(report) == Selected(catalog)
      && Get(report, Field.BaselineKind) == Null && Get(report, Field.AutomaticAuthRequired) == Bool(true)
      && Get(report, Field.Cases) == List(AllCases(catalog))
  {
    hide AllCases, Selected;
  }

  lemma SelectedIs(catalog: Catalog, k: nat)
    requires CatalogOk(catalog) && k < |REQUIRED_MODES|
    ensures Get(Selected(catalog), Named(REQUIRED_MODES[k])) == Strings(catalog[REQUIRED_MODES[k]])
  {
    hide Strings;
    assert Named(REQUIRED_MODES[k]) in Selected(catalog);
  }

  lemma {:induction false} ModesRead(r: Reading, catalog: Catalog, cases: Cases, n: nat)
    requires Clean(r) && CatalogOk(catalog) && ScenariosNamed(catalog) && n <= |REQUIRED_MODES|
    requires forall k | 0 <= k < 6 ::
      Holds(cases, Place(k).0, Place(k).1, CaseFor(catalog, Place(k).0, Place(k).1).fields)
    ensures Clean(ReadModes(r, SkippedReport(catalog), catalog, cases, n))
  {
    hide Holds, CaseFor, SkippedReport, ReadCase, Selected, Strings;
    if n > 0 {
      ModesRead(r, catalog, cases, n - 1);
      var mode, report := REQUIRED_MODES[n - 1], SkippedReport(catalog);
      var before := ReadModes(r, report, catalog, cases, n - 1);
      HeaderRead(catalog);
      SelectedIs(catalog, n - 1);
      var checked := CheckCatalog(before, report, catalog, mode);
      assert Place(2 * (n - 1)) == (mode, STDIO) && Place(2 * (n - 1) + 1) == (mode, HTTP);
      CaseRead(checked, catalog, cases, mode, STDIO);
      CaseRead(ReadCase(checked, catalog, cases, mode, STDIO), catalog, cases, mode, HTTP);
    }
  }

  lemma SkippedReads(catalog: Catalog)
    requires CatalogOk(catalog) && ScenariosNamed(catalog)
    ensures Clean(Read(SkippedReport(catalog), catalog))
  {
    HeaderRead(catalog);
    CasesRead(Reading([], map[]), catalog);
    hide Header, SkippedReport, AllCases, ScanCases, ReadModes, Holds;
    var s := ScanCases(Reading([], map[]), AllCases(catalog));
    ModesRead(s.reading, catalog, s.cases, |REQUIRED_MODES|);
  }

  // A status other than SKIP is the PASS of the check without a scenario.
  lemma SkippedStatuses(catalog: Catalog, id: Identity, status: Status)
    requires CatalogOk(catalog) && ScenariosNamed(catalog)
    requires status in Statuses(Read(SkippedReport(catalog), catalog).identities, id) && !status.SKIP?
    ensures status == PASS && id.source == "supplemental"
  {
    var report := SkippedReport(catalog);
    HeaderRead(catalog);
    SkippedReads(catalog);
    hide SkippedReport, Read, Statuses, ChecksOf, ReadCheck;
    ReadingIsExact(report, catalog, id, status);
    var items := AllCases(catalog);
    var k :| 0 <= k < |items| && IsCase(items[k], id.mode, id.transport) && NamedByCase(items[k].fields, id, status);
    var names := catalog[REQUIRED_MODES[k / 2]];
    NamedPassed(names, TRANSPORTS[k % 2], id, status);
  }

  lemma NamedPassed(names: seq<string>, transport: string, id: Identity, status: Status)
    requires AllNamed(names) && NamedIn(ChecksOf(names, transport), id, status) && !status.SKIP?
    ensures status == PASS && id.source == "supplemental"
  {
    var checks := ChecksOf(names, transport);
    hide ReadCheck, PassedCheck, SkippedCheck, Names;
    var j :| 0 <= j < |checks| && Names(checks[j], id, status);
    CheckMeaning(id.mode, id.transport, checks[j], id, status);
    if j == 0 { PassedRead(id.mode, id.transport); }
    else {
      assert checks[j] == SkippedCheck(names[j - 1]);
      SkippedRead(id.mode, id.transport, names[j - 1]);
    }
  }

  // Without its SKIPs the report observes no scenario.
  lemma NothingObserved(catalog: Catalog, mode: string)
    requires CatalogOk(catalog) && ScenariosNamed(catalog)
    ensures ObservedScenarios(WithoutSkips(Read(SkippedReport(catalog), catalog).identities), mode) == {}
  {
    var ids := Read(SkippedReport(catalog), catalog).identities;
    hide SkippedReport, Read;
    forall id | id in WithoutSkips(ids) ensures !Observes(id, mode) {
      var status: Status := if PASS in ids[id] then PASS else FAIL;
      SkippedStatuses(catalog, id, status);
      assert "supplemental"[0] == 's' && "official"[0] == 'o' && "harness"[0] == 'h';
    }
  }

  // The report can be compacted and accepts itself. As soon as the catalogue lists a scenario, its compact baseline
  // no longer covers it, reads with problems, and accepts nothing, not even the report it was made of.
  lemma SkippedScenariosAreLost(catalog: Catalog, k: nat, candidate: Evidence)
    requires CatalogOk(catalog) && ScenariosNamed(catalog) && k < |REQUIRED_MODES| && catalog[REQUIRED_MODES[k]] != []
    ensures var report := SkippedReport(catalog);
      && CompactBaseline(report, catalog).Ok? && Accepts(Examine(report, catalog), Examine(report, catalog))
      && !Covered(WithoutSkips(Examine(report, catalog).identities), catalog)
      && Examine(CompactBaseline(report, catalog).value, catalog).problems != []
      && !Accepts(candidate, Examine(CompactBaseline(report, catalog).value, catalog))
  {
    var report := SkippedReport(catalog);
    var e := Examine(report, catalog);
    HeaderRead(catalog);
    SkippedReads(catalog);
    NoShippingFailure(catalog);
    NothingObserved(catalog, REQUIRED_MODES[k]);
    hide SkippedReport, Read, Accepts, CompactForm, WithoutSkips, ShippingFailures, ObservedScenarios;
    assert Acceptable(e);
    CompactableMeaning(e);
    AcceptsReflexive(e);
    NotCovered(WithoutSkips(e.identities), catalog, k);
    CompactReread(report, catalog);
    CompactionAndAcceptance(candidate, report, catalog);
  }

  lemma NoShippingFailure(catalog: Catalog)
    requires CatalogOk(catalog) && ScenariosNamed(catalog)
    ensures ShippingFailures(Read(SkippedReport(catalog), catalog).identities) == {}
  {
    var ids := Read(SkippedReport(catalog), catalog).identities;
    hide SkippedReport, Read;
    forall id ensures id !in WithStatus(ids, FAIL) {
      if id in WithStatus(ids, FAIL) { SkippedStatuses(catalog, id, FAIL); }
    }
  }

  lemma NotCovered(ids: Identities, catalog: Catalog, k: nat)
    requires CatalogOk(catalog) && k < |REQUIRED_MODES| && catalog[REQUIRED_MODES[k]] != []
    requires ObservedScenarios(ids, REQUIRED_MODES[k]) == {}
    ensures !Covered(ids, catalog)
  {
    hide ObservedScenarios, HasCase;
    assert catalog[REQUIRED_MODES[k]][0] in ElementsOf(catalog[REQUIRED_MODES[k]]);
    assert !ModeCovered(ids, catalog, REQUIRED_MODES[k]);
  }
}
