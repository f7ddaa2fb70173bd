/** What the identities of a full report stand for: the checks its cases name, with the statuses they report. */
module RegressionIdentities {
  import opened Prelude
  import opened PythonText
  import opened Json
  import opened RegressionReport
  import opened RegressionGate
  import opened RegressionCompaction

  // The name is a stem, a '#' and an arrival number.
  ghost predicate Numbered(name: string, stem: string, number: string) {
    && stem != "" && number != "" && (forall k | 0 <= k < |number| :: '0' <= number[k] <= '9')
    && name == stem + "#" + number
  }

  // The name without its arrival number, if it has one.
  ghost predicate StableFor(name: string, stable: string) {
    || (exists number :: Numbered(name, stable, number))
    || (stable == name && forall stem, number :: !Numbered(name, stem, number))
  }

  // The check's fields give this identity, its mode and transport aside: a recorded identifier counts whatever the
  // name, and otherwise the stable name does.
  ghost predicate Identifies(check: Object, id: Identity) {
    && Get(check, Source) == Str(id.source) && id.source in {"official", "harness", "supplemental"}
    && Get(check, Name).Str? && Get(check, Name).text != ""
    && (if id.scenario == "" then Get(check, Scenario) == Null else Get(check, Scenario) == Str(id.scenario))
    && (if Get(check, CheckId) == Null then StableFor(Get(check, Name).text, id.checkId)
        else id.checkId != "" && Get(check, CheckId) == Str(id.checkId))
  }

  // A check reports a status in words and, consistently, as a success or not.
  predicate Reports(check: Object, status: Status) {
    match status
    case PASS => Get(check, Field.Status) == Str("PASS") && Get(check, Success) == Bool(true)
    case FAIL => Get(check, Field.Status) == Str("FAIL") && Get(check, Success) == Bool(false)
    case SKIP => Get(check, Field.Status) == Str("SKIP") && Get(check, Success) == Bool(true)
  }

  ghost predicate Names(check: Json, id: Identity, status: Status) {
    check.Obj? && Identifies(check.fields, id) && Reports(check.fields, status)
  }

  lemma NumberedOnce(name: string, stem: string, number: string)
    requires Numbered(name, stem, number)
    ensures LastHash(name) == |stem| && name[..|stem|] == stem && name[|stem| + 1..] == number
  {
    var i := LastHash(name);
    assert name[|stem|] == '#' && name[|stem| + 1..] == number;
  }

  lemma StableNameMeaning(name: string, stable: string)
    ensures StableFor(name, stable) <==> StableName(name) == stable
  {
    var i := LastHash(name);
    if 0 < i < |name| && IsNumber(name[i + 1..]) {
      assert name == name[..i] + "#" + name[i + 1..];
      assert Numbered(name, name[..i], name[i + 1..]);
      forall stem, number | Numbered(name, stem, number) ensures stem == name[..i] { NumberedOnce(name, stem, number); }
    } else {
      forall stem, number ensures !Numbered(name, stem, number) {
        if Numbered(name, stem, number) { NumberedOnce(name, stem, number); }
      }
    }
  }

  lemma IdentifiesMeaning(mode: string, transport: string, check: Object, id: Identity)
    ensures CheckIdentity(mode, transport, check) == Some(id) <==>
      id.mode == mode && id.transport == transport && Identifies(check, id)
  {
    if Get(check, Name).Str? { StableNameMeaning(Get(check, Name).text, id.checkId); }
    hide StableFor, StableName;
  }

  // A check is taken in as an identity with a status exactly when its fields say so; every other check is malformed.
  lemma CheckMeaning(mode: string, transport: string, check: Json, id: Identity, status: Status)
    ensures ReadCheck(mode, transport, check) == Some((id, status)) <==>
      id.mode == mode && id.transport == transport && Names(check, id, status)
  {
    if check.Obj? { IdentifiesMeaning(mode, transport, check.fields, id); }
    hide CheckIdentity, Identifies;
  }

  // Some check of the list names this identity with this status.
  ghost predicate NamedIn(checks: seq<Json>, id: Identity, status: Status) {
    exists k | 0 <= k < |checks| :: Names(checks[k], id, status)
  }

  // Some check of this case does.
  ghost predicate NamedByCase(c: Object, id: Identity, status: Status) {
    Get(c, Checks).List? && NamedIn(Get(c, Checks).items, id, status)
  }

  // The report holds a case for the identity's mode and transport, and that case names it.
  ghost predicate NamedByReport(report: Object, id: Identity, status: Status) {
    && Get(report, Field.Cases).List?
    && exists k | 0 <= k < |Get(report, Field.Cases).items| ::
        IsCase(Get(report, Field.Cases).items[k], id.mode, id.transport)
        && NamedByCase(Get(report, Field.Cases).items[k].fields, id, status)
  }

  predicate IsCase(c: Json, mode: string, transport: string) {
    c.Obj? && Get(c.fields, Mode) == Str(mode) && Get(c.fields, Transport) == Str(transport)
  }

  // ---------------------------------------------------------------- one case

  lemma ReadCheckPlace(mode: string, transport: string, check: Json)
    requires ReadCheck(mode, transport, check).Some?
    ensures var id := ReadCheck(mode, transport, check).value.0; id.mode == mode && id.transport == transport
  {
  }

  lemma ObserveStatuses(ids: Identities, seen: Identity, observed: Status, id: Identity, status: Status)
    ensures status in Statuses(Observe(ids, seen, observed), id) <==>
      status in Statuses(ids, id) || (seen, observed) == (id, status)
  {
  }

  lemma NamedNext(checks: seq<Json>, id: Identity, status: Status)
    requires checks != []
    ensures NamedIn(checks, id, status) <==>
      NamedIn(checks[..|checks| - 1], id, status) || Names(checks[|checks| - 1], id, status)
  {
    var init := checks[..|checks| - 1];
    hide Names;
    if NamedIn(init, id, status) {
      var k :| 0 <= k < |init| && Names(init[k], id, status);
      assert Names(checks[k], id, status);
    }
    if NamedIn(checks, id, status) {
      var k :| 0 <= k < |checks| && Names(checks[k], id, status);
      if k < |init| { assert Names(init[k], id, status); }
    }
  }

  lemma {:induction false} ScanChecksExact(r: Reading, mode: string, transport: string, checks: seq<Json>, id: Identity,
                                           status: Status)
    ensures status in Statuses(ScanChecks(r, mode, transport, checks).reading.identities, id) <==>
      status in Statuses(r.identities, id)
        || (id.mode == mode && id.transport == transport && NamedIn(checks, id, status))
  {
    hide ReadCheck, Names, NamedIn, Observe;
    if checks == [] {
      NothingNamed(id, status);
    } else {
      var init, check := checks[..|checks| - 1], checks[|checks| - 1];
      ScanChecksExact(r, mode, transport, init, id, status);
      NamedNext(checks, id, status);
      CheckMeaning(mode, transport, check, id, status);
      var c := ReadCheck(mode, transport, check);
      if c.Some? {
        ReadCheckPlace(mode, transport, check);
        ObserveStatuses(ScanChecks(r, mode, transport, init).reading.identities, c.value.0, c.value.1, id, status);
      }
    }
  }

  lemma NothingNamed(id: Identity, status: Status)
    ensures !NamedIn([], id, status)
  {
  }

  lemma ReadCaseExact(r: Reading, catalog: Catalog, cases: Cases, mode: string, transport: string, id: Identity,
                      status: Status)
    requires mode in catalog
    ensures status in Statuses(ReadCase(r, catalog, cases, mode, transport).identities, id) <==>
      || status in Statuses(r.identities, id)
      || (id.mode == mode && id.transport == transport && (mode, transport) in cases
          && NamedByCase(cases[(mode, transport)], id, status))
  {
    hide NamedIn, ScanChecks;
    NothingNamed(id, status);
    if (mode, transport) in cases {
      var checks := Get(cases[(mode, transport)], Checks);
      if checks.List? && checks.items != [] {
        ScanChecksExact(r, mode, transport, checks.items, id, status);
        var s := ScanChecks(r, mode, transport, checks.items);
        CompareFacts(s.reading, catalog, mode, s.observed);
      }
    }
  }

  // ---------------------------------------------------------------- all modes

  ghost predicate NamedByCases(cases: Cases, id: Identity, status: Status) {
    (id.mode, id.transport) in cases && NamedByCase(cases[(id.mode, id.transport)], id, status)
  }

  lemma ReadModeExact(r: Reading, report: Object, catalog: Catalog, cases: Cases, mode: string, id: Identity,
                      status: Status)
    requires mode in catalog
    ensures status in Statuses(ReadMode(r, report, catalog, cases, mode).identities, id) <==>
      || status in Statuses(r.identities, id)
      || (id.mode == mode && (id.transport == STDIO || id.transport == HTTP) && NamedByCases(cases, id, status))
  {
    hide ReadCase, NamedByCase, Statuses, Strings;
    var r0 := CheckCatalog(r, report, catalog, mode);
    ReadCaseExact(r0, catalog, cases, mode, STDIO, id, status);
    ReadCaseExact(ReadCase(r0, catalog, cases, mode, STDIO), catalog, cases, mode, HTTP, id, status);
  }

  lemma {:induction false} ReadModesExact(r: Reading, report: Object, catalog: Catalog, cases: Cases, n: nat,
                                          id: Identity, status: Status)
    requires CatalogOk(catalog) && n <= |REQUIRED_MODES|
    ensures status in Statuses(ReadModes(r, report, catalog, cases, n).identities, id) <==>
      || status in Statuses(r.identities, id)
      || (id.mode in REQUIRED_MODES[..n] && (id.transport == STDIO || id.transport == HTTP)
          && NamedByCases(cases, id, status))
  {
    hide ReadMode, NamedByCases, Statuses;
    if n > 0 {
      ReadModesExact(r, report, catalog, cases, n - 1, id, status);
      ReadModeExact(ReadModes(r, report, catalog, cases, n - 1), report, catalog, cases, REQUIRED_MODES[n - 1], id,
        status);
      assert REQUIRED_MODES[..n] == REQUIRED_MODES[..n - 1] + [REQUIRED_MODES[n - 1]];
    }
  }

  // ---------------------------------------------------------------- the cases themselves

  predicate Holds(kept: Cases, mode: string, transport: string, fields: Object) {
    (mode, transport) in kept && kept[(mode, transport)] == fields
  }

  ghost predicate Listed(cases: seq<Json>, mode: string, transport: string, fields: Object) {
    exists k | 0 <= k < |cases| :: IsCase(cases[k], mode, transport) && cases[k].fields == fields
  }

  lemma ListedNext(cases: seq<Json>, mode: string, transport: string, fields: Object)
    requires cases != []
    ensures Listed(cases, mode, transport, fields) <==>
      || Listed(cases[..|cases| - 1], mode, transport, fields)
      || (IsCase(cases[|cases| - 1], mode, transport) && cases[|cases| - 1].fields == fields)
  {
    var init := cases[..|cases| - 1];
    if Listed(cases, mode, transport, fields) {
      var k :| 0 <= k < |cases| && IsCase(cases[k], mode, transport) && cases[k].fields == fields;
      if k < |init| { assert IsCase(init[k], mode, transport) && init[k].fields == fields; }
    }
    if Listed(init, mode, transport, fields) {
      var k :| 0 <= k < |init| && IsCase(init[k], mode, transport) && init[k].fields == fields;
      assert IsCase(cases[k], mode, transport) && cases[k].fields == fields;
    }
  }

  lemma CaseStep(s: CaseScan, c: Json, mode: string, transport: string, fields: Object)
    requires mode in REQUIRED_MODES && Clean(ScanCase(s, c).reading)
    ensures Clean(s.reading)
    ensures Holds(ScanCase(s, c).cases, mode, transport, fields) <==>
      Holds(s.cases, mode, transport, fields) || (IsCase(c, mode, transport) && c.fields == fields)
  {
  }

  // Without complaints no two cases share a place, and every case of a required mode is kept.
  lemma {:induction false} ScanCasesExact(r: Reading, cases: seq<Json>, mode: string, transport: string, fields: Object)
    requires mode in REQUIRED_MODES && Clean(ScanCases(r, cases).reading)
    ensures Holds(ScanCases(r, cases).cases, mode, transport, fields) <==> Listed(cases, mode, transport, fields)
  {
    if cases != [] {
      var init, c := cases[..|cases| - 1], cases[|cases| - 1];
      hide ScanCase, Holds, Listed;
      CaseStep(ScanCases(r, init), c, mode, transport, fields);
      ScanCasesExact(r, init, mode, transport, fields);
      ListedNext(cases, mode, transport, fields);
    }
  }

  lemma CasesAreListed(r: Reading, cases: seq<Json>, id: Identity, status: Status)
    requires id.mode in REQUIRED_MODES && Clean(ScanCases(r, cases).reading)
    ensures NamedByCases(ScanCases(r, cases).cases, id, status) <==>
      exists k | 0 <= k < |cases| :: IsCase(cases[k], id.mode, id.transport) && NamedByCase(cases[k].fields, id, status)
  {
    var kept := ScanCases(r, cases).cases;
    hide ScanCases, NamedByCase;
    if NamedByCases(kept, id, status) {
      var fields := kept[(id.mode, id.transport)];
      ScanCasesExact(r, cases, id.mode, id.transport, fields);
      var k :| 0 <= k < |cases| && IsCase(cases[k], id.mode, id.transport) && cases[k].fields == fields;
    }
    if k :| 0 <= k < |cases| && IsCase(cases[k], id.mode, id.transport) && NamedByCase(cases[k].fields, id, status) {
      assert Listed(cases, id.mode, id.transport, cases[k].fields);
      ScanCasesExact(r, cases, id.mode, id.transport, cases[k].fields);
    }
  }

  // ---------------------------------------------------------------- the whole report

  lemma RequiredReading(report: Object, catalog: Catalog, id: Identity, status: Status)
    requires CatalogOk(catalog) && Get(report, BaselineKind) == Null && Clean(Read(report, catalog))
    requires id.mode in REQUIRED_MODES && (id.transport == STDIO || id.transport == HTTP)
    ensures status in Statuses(Read(report, catalog).identities, id) <==> NamedByReport(report, id, status)
  {
    hide ReadModes, ScanCases, Header, NamedByCase, IsCase, Statuses;
    HeaderFacts(report);
    var list := Get(report, Field.Cases);
    var items := if list.List? then list.items else [];
    var r := NoteIf(Header(report), !list.List?, NoCases);
    ScanCasesFacts(r, items);
    var s := ScanCases(r, items);
    ReadModesExact(s.reading, report, catalog, s.cases, |REQUIRED_MODES|, id, status);
    CleanModes(s.reading, report, catalog, s.cases, |REQUIRED_MODES|);
    CasesAreListed(r, items, id, status);
    NoStatuses(id);
    assert REQUIRED_MODES[..|REQUIRED_MODES|] == REQUIRED_MODES;
  }

  // The identities of a full report without problems are exactly those its required cases name, each with exactly the
  // statuses that checks report for it.
  lemma ReadingIsExact(report: Object, catalog: Catalog, id: Identity, status: Status)
    requires CatalogOk(catalog) && Get(report, BaselineKind) == Null && Clean(Read(report, catalog))
    ensures status in Statuses(Read(report, catalog).identities, id) <==>
      id.mode in REQUIRED_MODES && id.transport in TRANSPORTS && NamedByReport(report, id, status)
  {
    ReadFacts(report, catalog);
    hide Read, NamedByReport;
    if id.mode in REQUIRED_MODES && id.transport in TRANSPORTS { RequiredReading(report, catalog, id, status); }
  }

  lemma NoStatuses(id: Identity)
    ensures Statuses(map[], id) == {}
  {
  }

  lemma {:induction false} CleanModes(r: Reading, report: Object, catalog: Catalog, cases: Cases, n: nat)
    requires CatalogOk(catalog) && n <= |REQUIRED_MODES| && Clean(ReadModes(r, report, catalog, cases, n))
    ensures Clean(r)
  {
    hide ReadCase, CheckCatalog;
    if n > 0 {
      var mode, before := REQUIRED_MODES[n - 1], ReadModes(r, report, catalog, cases, n - 1);
      CleanCase(ReadCase(CheckCatalog(before, report, catalog, mode), catalog, cases, mode, STDIO), catalog, cases,
        mode, HTTP);
      CleanCase(CheckCatalog(before, report, catalog, mode), catalog, cases, mode, STDIO);
      CleanCatalog(before, report, catalog, mode);
      CleanModes(r, report, catalog, cases, n - 1);
    }
  }

  lemma CleanCatalog(r: Reading, report: Object, catalog: Catalog, mode: string)
    requires mode in catalog && Clean(CheckCatalog(r, report, catalog, mode))
    ensures Clean(r)
  {
  }

  lemma CleanCase(r: Reading, catalog: Catalog, cases: Cases, mode: string, transport: string)
    requires mode in catalog && Clean(ReadCase(r, catalog, cases, mode, transport))
    ensures Clean(r)
  {
    hide ScanChecks, CompareScenarios;
    if (mode, transport) in cases {
      var checks := Get(cases[(mode, transport)], Checks);
      if checks.List? && checks.items != [] {
        var s := ScanChecks(r, mode, transport, checks.items);
        CompareFacts(s.reading, catalog, mode, s.observed);
        CleanChecks(r, mode, transport, checks.items);
      }
    }
  }

  lemma {:induction false} CleanChecks(r: Reading, mode: string, transport: string, checks: seq<Json>)
    requires Clean(ScanChecks(r, mode, transport, checks).reading)
    ensures Clean(r)
  {
    hide ReadCheck;
    if checks != [] { CleanChecks(r, mode, transport, checks[..|checks| - 1]); }
  }
}
