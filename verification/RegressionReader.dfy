/** `_required_regression_checks` as it runs: the error list and the identity dictionary are filled in loops. */
module RegressionReader {
  import opened Prelude
  import opened Ordering
  import opened Json
  import opened RegressionReport

  // the checks in front of both readings
  method ReadHeader(report: Object) returns (errors: seq<Problem>)
    ensures Header(report) == Reading(errors, map[])
  {
    errors := [];
    if !EqualsInt(Get(report, SchemaVersion), 4) {
      errors := errors + [WrongSchema];
    }
    var version := Get(report, VersionCheck);
    if !version.Obj? || Get(version.fields, Success) != Bool(true) {
      errors := errors + [NoVersionCheck];
    }
    if Get(report, ModernFeatureEnablement) != Bool(true) {
      errors := errors + [ModernDisabled];
    }
    var official := Get(report, OfficialConformance);
    if !official.Obj? {
      errors := errors + [NoOfficialMetadata];
      return;
    }
    if Get(official.fields, Repository) != Str("modelcontextprotocol/conformance") {
      errors := errors + [WrongRepository];
    }
    if Get(official.fields, GitRef) != Str("49103de6ed70804e940637bf3e9e29e4a3f54e64") {
      errors := errors + [WrongRevision];
    }
    if Get(official.fields, AuthenticationIncluded) != Bool(true) {
      errors := errors + [NoAuthentication];
    }
    if !Get(official.fields, Scenarios).Obj? {
      errors := errors + [NoCatalog];
    }
  }

  // what was observed against what the catalog expects
  method AppendScenarioProblems(errors0: seq<Problem>, ghost identities: Identities, catalog: Catalog, mode: string,
                                observed: set<string>)
    returns (errors: seq<Problem>)
    requires mode in catalog
    ensures Reading(errors, identities) == CompareScenarios(Reading(errors0, identities), catalog, mode, observed)
  {
    errors := errors0;
    var expected := set k | 0 <= k < |catalog[mode]| :: catalog[mode][k];
    var missing := expected - observed;
    var unexpected := observed - expected;
    if missing != {} {
      errors := errors + [MissingScenarios(mode, SortedStrings(missing))];
    }
    if unexpected != {} {
      errors := errors + [UnexpectedScenarios(mode, SortedStrings(unexpected))];
    }
  }

  method ReadBucketRecords(errors0: seq<Problem>, identities0: Identities, bucket: Bucket, checks: Object)
    returns (errors: seq<Problem>, identities: Identities)
    ensures Reading(errors, identities) == ReadBucket(Reading(errors0, identities0), bucket, checks)
  {
    errors, identities := errors0, identities0;
    var records := Get(checks, if bucket.PassingBucket? then Passing else Failing);
    if !records.List? {
      errors := errors + [NoBucket(bucket)];
      return;
    }
    var seen: set<Identity> := {};
    for k := 0 to |records.items|
      invariant Scan(Reading(errors, identities), seen) ==
        ScanRecords(Reading(errors0, identities0), bucket, records.items[..k])
    {
      assert records.items[..k + 1][..k] == records.items[..k];
      var record := records.items[k];
      if !RecordOk(record) {
        errors := errors + [MalformedIdentity(bucket)];
        continue;
      }
      var identity := RecordIdentity(record);
      if identity in seen {
        errors := errors + [DuplicateIdentity(bucket)];
        continue;
      }
      seen := seen + {identity};
      identities := Observe(identities, identity, StatusOfBucket(bucket));
    }
    assert records.items[..|records.items|] == records.items;
  }

  method CollectCases(errors0: seq<Problem>, list: seq<Json>) returns (errors: seq<Problem>, cases: Cases)
    ensures CaseScan(Reading(errors, map[]), cases) == ScanCases(Reading(errors0, map[]), list)
  {
    errors, cases := errors0, map[];
    for k := 0 to |list|
      invariant CaseScan(Reading(errors, map[]), cases) == ScanCases(Reading(errors0, map[]), list[..k])
    {
      assert list[..k + 1][..k] == list[..k];
      var c := list[k];
      if !c.Obj? {
        errors := errors + [MalformedCase];
        continue;
      }
      var mode, transport := Get(c.fields, Mode), Get(c.fields, Transport);
      if !IsRequiredMode(mode) {
        continue;
      }
      if !transport.Str? {
        errors := errors + [MalformedRequiredCase];
        continue;
      }
      var key := (mode.text, transport.text);
      if key in cases {
        errors := errors + [DuplicateCase(mode.text, transport.text)];
        continue;
      }
      cases := cases[key := c.fields];
    }
    assert list[..|list|] == list;
  }

  method ReadCaseChecks(errors0: seq<Problem>, identities0: Identities, catalog: Catalog, cases: Cases, mode: string,
                        transport: string)
    returns (errors: seq<Problem>, identities: Identities)
    requires mode in catalog
    ensures Reading(errors, identities) == ReadCase(Reading(errors0, identities0), catalog, cases, mode, transport)
  {
    errors, identities := errors0, identities0;
    if (mode, transport) !in cases {
      errors := errors + [MissingCase(mode, transport)];
      return;
    }
    var raw := Get(cases[(mode, transport)], Checks);
    if !raw.List? || raw.items == [] {
      errors := errors + [NoChecks(mode, transport)];
      return;
    }
    var observed: set<string> := {};
    for k := 0 to |raw.items|
      invariant CheckScan(Reading(errors, identities), observed)
             == ScanChecks(Reading(errors0, identities0), mode, transport, raw.items[..k])
    {
      assert raw.items[..k + 1][..k] == raw.items[..k];
      var check := ReadCheck(mode, transport, raw.items[k]);
      if check.None? {
        errors := errors + [MalformedCheck(mode, transport)];
        continue;
      }
      var (identity, status) := check.value;
      identities := Observe(identities, identity, status);
      if Observes(identity, mode) {
        observed := observed + {identity.scenario};
      }
    }
    assert raw.items[..|raw.items|] == raw.items;
    if transport == HTTP {
      errors := AppendScenarioProblems(errors, identities, catalog, mode, observed);
    }
  }

  method ReadCompactReport(report: Object, catalog: Catalog) returns (errors: seq<Problem>, identities: Identities)
    requires CatalogOk(catalog)
    ensures Reading(errors, identities) == ReadCompact(report, catalog)
  {
    errors := ReadHeader(report);
    identities := map[];
    if Get(report, BaselineKind) != Str(COMPACT_BASELINE_KIND) {
      errors := errors + [UnsupportedBaseline];
      return;
    }
    if Get(report, RequiredModes) != Strings(REQUIRED_MODES) {
      errors := errors + [WrongModes];
    }
    if !TransportsOk(Get(report, Transports)) {
      errors := errors + [WrongTransports];
    }
    var checks := Get(report, Checks);
    if !checks.Obj? {
      errors := errors + [NoIdentities];
      return;
    }
    errors, identities := ReadBucketRecords(errors, identities, PassingBucket, checks.fields);
    errors, identities := ReadBucketRecords(errors, identities, FailingBucket, checks.fields);
    HeaderReadsNothing(report);
    hide ReadBucket, Header, CheckCompactModes, TransportsOk, Strings;
    errors := CheckAllModes(errors, identities, report, catalog);
  }

  // one required mode of a compact baseline
  method CheckMode(errors0: seq<Problem>, identities: Identities, report: Object, catalog: Catalog, mode: string)
    returns (errors: seq<Problem>)
    requires mode in catalog
    ensures Reading(errors, identities) == CheckCompactMode(Reading(errors0, identities), report, catalog, mode)
  {
    hide CompareScenarios, Strings;
    errors := errors0;
    if Get(SelectedScenarios(report), Named(mode)) != Strings(catalog[mode]) {
      errors := errors + [IncompleteCatalog(mode)];
    }
    if !exists id | id in identities :: id.mode == mode && id.transport == "stdio" {
      errors := errors + [MissingCase(mode, "stdio")];
    }
    if !exists id | id in identities :: id.mode == mode && id.transport == "official-http" {
      errors := errors + [MissingCase(mode, "official-http")];
    }
    var observed := set id | id in identities && id.mode == mode && id.transport == "official-http"
                             && id.source in {"official", "harness"} :: id.scenario;
    assert observed == ObservedScenarios(identities, mode);
    errors := AppendScenarioProblems(errors, identities, catalog, mode, observed);
  }

  // the loop over the required modes
  method CheckAllModes(errors0: seq<Problem>, identities: Identities, report: Object, catalog: Catalog)
    returns (errors: seq<Problem>)
    requires CatalogOk(catalog)
    ensures Reading(errors, identities) ==
      CheckCompactModes(Reading(errors0, identities), report, catalog, |REQUIRED_MODES|)
  {
    hide CheckCompactMode;
    errors := errors0;
    for k := 0 to |REQUIRED_MODES|
      invariant Reading(errors, identities) == CheckCompactModes(Reading(errors0, identities), report, catalog, k)
    {
      errors := CheckMode(errors, identities, report, catalog, REQUIRED_MODES[k]);
    }
  }

  method ReadFullReport(report: Object, catalog: Catalog) returns (errors: seq<Problem>, identities: Identities)
    requires CatalogOk(catalog)
    ensures Reading(errors, identities) == ReadFull(report, catalog)
  {
    errors := ReadHeader(report);
    identities := map[];
    var list := Get(report, Field.Cases);
    var items: seq<Json> := [];
    if list.List? {
      items := list.items;
    } else {
      errors := errors + [NoCases];
    }
    var cases: Cases;
    errors, cases := CollectCases(errors, items);
    HeaderReadsNothing(report);
    hide ScanCases, Header, ReadModes;
    errors, identities := ReadAllModes(errors, identities, report, catalog, cases);
  }

  lemma HeaderReadsNothing(report: Object)
    ensures Header(report).identities == map[]
  {
  }

  // the loop over the required modes
  method ReadAllModes(errors0: seq<Problem>, identities0: Identities, report: Object, catalog: Catalog, cases: Cases)
    returns (errors: seq<Problem>, identities: Identities)
    requires CatalogOk(catalog)
    ensures Reading(errors, identities) ==
      ReadModes(Reading(errors0, identities0), report, catalog, cases, |REQUIRED_MODES|)
  {
    hide ReadCase, Strings;
    errors, identities := errors0, identities0;
    for k := 0 to |REQUIRED_MODES|
      invariant Reading(errors, identities) == ReadModes(Reading(errors0, identities0), report, catalog, cases, k)
    {
      var mode := REQUIRED_MODES[k];
      if Get(SelectedScenarios(report), Named(mode)) != Strings(catalog[mode]) {
        errors := errors + [IncompleteCatalog(mode)];
      }
      errors, identities := ReadCaseChecks(errors, identities, catalog, cases, mode, STDIO);
      errors, identities := ReadCaseChecks(errors, identities, catalog, cases, mode, HTTP);
    }
  }

  method RequiredRegressionChecks(report: Object, catalog: Catalog)
    returns (errors: seq<Problem>, identities: Identities)
    requires CatalogOk(catalog)
    ensures Reading(errors, identities) == Read(report, catalog)
  {
    if Get(report, BaselineKind) != Null {
      errors, identities := ReadCompactReport(report, catalog);
    } else {
      errors, identities := ReadFullReport(report, catalog);
    }
  }
}
