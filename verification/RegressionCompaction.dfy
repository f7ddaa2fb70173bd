/** `_compact_regression_baseline`, and what the gate sees of a compacted baseline. */
module RegressionCompaction {
  import opened Prelude
  import opened Ordering
  import opened Json
  import opened RegressionReport
  import opened RegressionGate

  datatype CompactError = UnreadableReport(problems: seq<Problem>) | NoPolicy | ShippingRegression

  // asdict(identity)
  function AsDict(id: Identity): Json {
    Obj(map[Mode := Str(id.mode), Transport := Str(id.transport), Source := Str(id.source),
            Scenario := Str(id.scenario), CheckId := Str(id.checkId)])
  }

  function AsDicts(ids: seq<Identity>): seq<Json> {
    seq(|ids|, i requires 0 <= i < |ids| => AsDict(ids[i]))
  }

  function CompactErrors(e: Evidence): seq<CompactError> {
    (if e.problems == [] then [] else [UnreadableReport(e.problems)])
    + (if e.policy.Bool? then [] else [NoPolicy])
    + (if ShippingFailures(e.identities) == {} then [] else [ShippingRegression])
  }

  // {mode: scenarios[mode] for mode in REQUIRED_REGRESSION_MODES}
  function Selection(scenarios: Object): Object {
    map i | 0 <= i < |REQUIRED_MODES| :: Named(REQUIRED_MODES[i]) := Get(scenarios, Named(REQUIRED_MODES[i]))
  }

  function CompactForm(scenarios: Object, auth: Json, ids: Identities): Object {
    map[
      BaselineKind := Str(COMPACT_BASELINE_KIND),
      SchemaVersion := Num(REPORT_SCHEMA_VERSION as real),
      RequiredModes := Strings(REQUIRED_MODES),
      Transports := Strings(TRANSPORTS),
      VersionCheck := Obj(map[Success := Bool(true)]),
      ModernFeatureEnablement := Bool(true),
      AutomaticAuthRequired := auth,
      OfficialConformance := Obj(map[
        Repository := Str(CONFORMANCE_REPOSITORY),
        GitRef := Str(CONFORMANCE_GIT_REF),
        AuthenticationIncluded := Bool(true),
        Scenarios := Obj(Selection(scenarios))]),
      Checks := Obj(map[
        Passing := List(AsDicts(SortIds(WithStatus(ids, PASS)))),
        Failing := List(AsDicts(SortIds(WithStatus(ids, FAIL))))])]
  }

  function CompactBaseline(report: Object, catalog: Catalog): Result<Object, seq<CompactError>>
    requires CatalogOk(catalog)
  {
    var e := Examine(report, catalog);
    if CompactErrors(e) != [] then Err(CompactErrors(e))
    else Ok(CompactForm(SelectedScenarios(report), e.policy, e.identities))
  }

  // The reports that can be compacted are those the gate could accept at all.
  lemma CompactableMeaning(e: Evidence)
    ensures CompactErrors(e) == [] <==> Acceptable(e)
    ensures NoPolicy in CompactErrors(e) <==> !e.policy.Bool?
    ensures ShippingRegression in CompactErrors(e) <==> exists id :: FailsInShipping(e.identities, id)
    ensures forall problems ::
      UnreadableReport(problems) in CompactErrors(e) <==> problems != [] && problems == e.problems
  {
    assert forall id :: FailsInShipping(e.identities, id) <==> id in ShippingFailures(e.identities);
  }

  lemma CompactionSucceeds(report: Object, catalog: Catalog)
    requires CatalogOk(catalog)
    ensures CompactBaseline(report, catalog).Ok? <==> Acceptable(Examine(report, catalog))
    ensures CompactBaseline(report, catalog).Err? ==>
      CompactBaseline(report, catalog).error == CompactErrors(Examine(report, catalog))
  {
    CompactableMeaning(Examine(report, catalog));
    hide Examine, CompactForm, Acceptable, CompactErrors;
  }

  // ---------------------------------------------------------------- what reading a report establishes

  predicate Clean(r: Reading) {
    r.problems == []
  }

  ghost predicate AllWellFormed(ids: Identities) {
    forall id | id in ids :: WellFormed(id)
  }

  lemma {:induction false} ScanRecordsFacts(r: Reading, bucket: Bucket, records: seq<Json>)
    requires AllWellFormed(r.identities)
    ensures AllWellFormed(ScanRecords(r, bucket, records).reading.identities)
    ensures Clean(ScanRecords(r, bucket, records).reading) ==> Clean(r)
  {
    if records != [] {
      ScanRecordsFacts(r, bucket, records[..|records| - 1]);
    }
  }

  lemma {:induction false} CheckCompactModesFacts(r: Reading, report: Object, catalog: Catalog, n: nat)
    requires CatalogOk(catalog) && n <= |REQUIRED_MODES|
    ensures CheckCompactModes(r, report, catalog, n).identities == r.identities
    ensures Clean(CheckCompactModes(r, report, catalog, n)) <==> Clean(r) && forall k | 0 <= k < n ::
      Get(SelectedScenarios(report), Named(REQUIRED_MODES[k])) == Strings(catalog[REQUIRED_MODES[k]])
      && ModeCovered(r.identities, catalog, REQUIRED_MODES[k])
  {
    hide CheckCompactMode, Strings, ModeCovered;
    if n > 0 {
      CheckCompactModesFacts(r, report, catalog, n - 1);
      CheckCompactModeFacts(CheckCompactModes(r, report, catalog, n - 1), report, catalog, REQUIRED_MODES[n - 1]);
    }
  }

  // Both transports of the mode and exactly the catalogued scenarios are observed.
  predicate ModeCovered(ids: Identities, catalog: Catalog, mode: string)
    requires mode in catalog
  {
    HasCase(ids, mode, STDIO) && HasCase(ids, mode, HTTP) && ObservedScenarios(ids, mode) == ElementsOf(catalog[mode])
  }

  lemma CompareFacts(r: Reading, catalog: Catalog, mode: string, observed: set<string>)
    requires mode in catalog
    ensures CompareScenarios(r, catalog, mode, observed).identities == r.identities
    ensures Clean(CompareScenarios(r, catalog, mode, observed)) <==> Clean(r) && observed == ElementsOf(catalog[mode])
  {
  }

  lemma CheckCompactModeFacts(r: Reading, report: Object, catalog: Catalog, mode: string)
    requires mode in catalog
    ensures CheckCompactMode(r, report, catalog, mode).identities == r.identities
    ensures Clean(CheckCompactMode(r, report, catalog, mode)) <==>
      Clean(r) && Get(SelectedScenarios(report), Named(mode)) == Strings(catalog[mode])
        && ModeCovered(r.identities, catalog, mode)
  {
    var r1 := CheckCatalog(r, report, catalog, mode);
    var r2 := NoteIf(r1, !HasCase(r.identities, mode, STDIO), MissingCase(mode, STDIO));
    var r3 := NoteIf(r2, !HasCase(r.identities, mode, HTTP), MissingCase(mode, HTTP));
    CompareFacts(r3, catalog, mode, ObservedScenarios(r.identities, mode));
  }

  // Identities of one case added to those already known, and what they observe.
  ghost predicate Adds(before: Identities, after: Identities, mode: string, transport: string, observed: set<string>) {
    && AllWellFormed(after)
    && (forall id | id in after :: id in before || (id.mode == mode && id.transport == transport))
    && (forall id | id in before :: id in after)
    && ObservedScenarios(after, mode) == ObservedScenarios(before, mode) + observed
  }

  lemma AddsOne(before: Identities, ids: Identities, mode: string, transport: string, observed: set<string>,
                id: Identity, status: Status)
    requires Adds(before, ids, mode, transport, observed) && WellFormed(id) && id.mode == mode
      && id.transport == transport
    ensures Adds(before, Observe(ids, id, status), mode, transport,
      if Observes(id, mode) then observed + {id.scenario} else observed)
    ensures HasCase(Observe(ids, id, status), mode, transport)
  {
    ObserveFacts(ids, id, status, mode);
    hide WellFormed, Observes, ObservedScenarios, Observe;
    assert id in Observe(ids, id, status);
  }

  // Reading checks of one case: which identities it can add, and what it observes.
  lemma {:induction false} ScanChecksFacts(r: Reading, mode: string, transport: string, checks: seq<Json>)
    requires mode in REQUIRED_MODES && transport in TRANSPORTS && AllWellFormed(r.identities)
    ensures var s := ScanChecks(r, mode, transport, checks);
      && Adds(r.identities, s.reading.identities, mode, transport, s.observed)
      && (Clean(s.reading) ==> Clean(r) && (checks != [] ==> HasCase(s.reading.identities, mode, transport)))
  {
    if checks == [] {
      hide WellFormed, Observes;
    } else {
      var init, check := checks[..|checks| - 1], checks[|checks| - 1];
      ScanChecksFacts(r, mode, transport, init);
      var s := ScanChecks(r, mode, transport, init);
      var c := ReadCheck(mode, transport, check);
      if c.Some? {
        ReadCheckIdentity(mode, transport, check);
        CheckIdentityWellFormed(mode, transport, check.fields);
        AddsOne(r.identities, s.reading.identities, mode, transport, s.observed, c.value.0, c.value.1);
      }
      hide ReadCheck, WellFormed, Observes, Observe, Adds, HasCase;
    }
  }

  lemma ReadCheckIdentity(mode: string, transport: string, check: Json)
    requires ReadCheck(mode, transport, check).Some?
    ensures check.Obj?
      && CheckIdentity(mode, transport, check.fields) == Some(ReadCheck(mode, transport, check).value.0)
  {
    hide CheckIdentity;
  }

  lemma ObserveFacts(ids: Identities, id: Identity, status: Status, mode: string)
    ensures var after := Observe(ids, id, status);
      && after.Keys == ids.Keys + {id}
      && ObservedScenarios(after, mode) ==
          ObservedScenarios(ids, mode) + (if Observes(id, mode) then {id.scenario} else {})
  {
    var after := Observe(ids, id, status);
    assert after.Keys == ids.Keys + {id};
    assert forall i | i in ids && Observes(i, mode) :: i in after;
  }

  ghost predicate NoneOfMode(ids: Identities, mode: string) {
    forall id | id in ids :: id.mode != mode
  }

  // Reading one mode adds identities of that mode only and, when nothing is wrong, covers it.
  lemma ReadModeFacts(r: Reading, report: Object, catalog: Catalog, cases: Cases, mode: string)
    requires mode in catalog && mode in REQUIRED_MODES && AllWellFormed(r.identities) && NoneOfMode(r.identities, mode)
    ensures var s := ReadMode(r, report, catalog, cases, mode);
      && AllWellFormed(s.identities)
      && (forall id | id in s.identities :: id in r.identities || id.mode == mode)
      && (forall id | id in r.identities :: id in s.identities)
      && (Clean(s) ==> Clean(r) && ModeCovered(s.identities, catalog, mode)
                       && Get(SelectedScenarios(report), Named(mode)) == Strings(catalog[mode]))
  {
    var r0 := CheckCatalog(r, report, catalog, mode);
    var r1 := ReadCase(r0, catalog, cases, mode, STDIO);
    ReadCaseFacts(r0, catalog, cases, mode, STDIO);
    assert ObservedScenarios(r0.identities, mode) == {};
    ReadCaseFacts(r1, catalog, cases, mode, HTTP);
  }

  lemma ReadCaseFacts(r: Reading, catalog: Catalog, cases: Cases, mode: string, transport: string)
    requires mode in catalog && mode in REQUIRED_MODES && transport in TRANSPORTS && AllWellFormed(r.identities)
    requires ObservedScenarios(r.identities, mode) == {}
    ensures var s := ReadCase(r, catalog, cases, mode, transport);
      && AllWellFormed(s.identities)
      && (forall id | id in s.identities :: id in r.identities || (id.mode == mode && id.transport == transport))
      && (forall id | id in r.identities :: id in s.identities)
      && (transport == STDIO ==> ObservedScenarios(s.identities, mode) == {})
      && (Clean(s) ==> Clean(r) && HasCase(s.identities, mode, transport))
      && (Clean(s) && transport == HTTP ==> ObservedScenarios(s.identities, mode) == ElementsOf(catalog[mode]))
  {
    if (mode, transport) in cases {
      var checks := Get(cases[(mode, transport)], Checks);
      if checks.List? && checks.items != [] {
        ScanChecksFacts(r, mode, transport, checks.items);
        var s := ScanChecks(r, mode, transport, checks.items);
        CompareFacts(s.reading, catalog, mode, s.observed);
        if transport == STDIO {
          StdioObservesNothing(r, s.reading.identities, mode);
        }
      }
    }
  }

  lemma StdioObservesNothing(r: Reading, after: Identities, mode: string)
    requires ObservedScenarios(r.identities, mode) == {}
    requires forall id | id in after :: id in r.identities || id.transport == STDIO
    ensures ObservedScenarios(after, mode) == {}
  {
    assert forall id | id in r.identities && Observes(id, mode) :: id.scenario in ObservedScenarios(r.identities, mode);
    assert forall id | id in after :: !Observes(id, mode);
  }

  // Identities of other modes do not disturb a mode that is covered.
  lemma CoveredKept(before: Identities, after: Identities, catalog: Catalog, mode: string, other: string)
    requires mode in catalog && mode != other && ModeCovered(before, catalog, mode)
    requires forall id | id in after :: id in before || id.mode == other
    requires forall id | id in before :: id in after
    ensures ModeCovered(after, catalog, mode)
  {
    var a :| a in before && a.mode == mode && a.transport == STDIO;
    var b :| b in before && b.mode == mode && b.transport == HTTP;
    assert a in after && b in after;
    assert ObservedScenarios(after, mode) == ObservedScenarios(before, mode);
  }

  lemma ModesDistinct(i: nat, j: nat)
    requires i < j < |REQUIRED_MODES|
    ensures REQUIRED_MODES[i] != REQUIRED_MODES[j]
  {
    assert SHIPPING[6] == '6' && LEGACY[6] == '1' && SHIPPING[3] == '5' && LEGACY[3] == '5' && MODERN[3] == '6';
  }

  lemma {:induction false} ReadModesFacts(r: Reading, report: Object, catalog: Catalog, cases: Cases, n: nat)
    requires CatalogOk(catalog) && n <= |REQUIRED_MODES| && r.identities == map[]
    ensures var s := ReadModes(r, report, catalog, cases, n);
      && AllWellFormed(s.identities)
      && (forall id | id in s.identities :: exists k | 0 <= k < n :: id.mode == REQUIRED_MODES[k])
      && (Clean(s) ==> Clean(r) && forall k | 0 <= k < n ::
            ModeCovered(s.identities, catalog, REQUIRED_MODES[k])
            && Get(SelectedScenarios(report), Named(REQUIRED_MODES[k])) == Strings(catalog[REQUIRED_MODES[k]]))
  {
    if n > 0 {
      hide ReadMode, ModeCovered, WellFormed, Strings;
      ReadModesFacts(r, report, catalog, cases, n - 1);
      var s, mode := ReadModes(r, report, catalog, cases, n - 1), REQUIRED_MODES[n - 1];
      forall id | id in s.identities ensures id.mode != mode {
        var k :| 0 <= k < n - 1 && id.mode == REQUIRED_MODES[k];
        ModesDistinct(k, n - 1);
      }
      ReadModeFacts(s, report, catalog, cases, mode);
      var t := ReadMode(s, report, catalog, cases, mode);
      if Clean(t) {
        forall k | 0 <= k < n - 1 ensures ModeCovered(t.identities, catalog, REQUIRED_MODES[k]) {
          ModesDistinct(k, n - 1);
          CoveredKept(s.identities, t.identities, catalog, REQUIRED_MODES[k], mode);
        }
      }
    }
  }

  lemma HeaderFacts(report: Object)
    ensures Header(report).identities == map[]
    ensures Clean(Header(report)) ==>
      (Get(report, OfficialConformance).Obj? && Get(Get(report, OfficialConformance).fields, Scenarios).Obj?)
  {
  }

  lemma {:induction false} ScanCasesFacts(r: Reading, cases: seq<Json>)
    ensures ScanCases(r, cases).reading.identities == r.identities
    ensures Clean(ScanCases(r, cases).reading) ==> Clean(r)
  {
    if cases != [] { ScanCasesFacts(r, cases[..|cases| - 1]); }
  }

  lemma BucketFacts(r: Reading, bucket: Bucket, checks: Object)
    requires AllWellFormed(r.identities)
    ensures AllWellFormed(ReadBucket(r, bucket, checks).identities)
    ensures Clean(ReadBucket(r, bucket, checks)) ==> Clean(r)
  {
    var records := Get(checks, if bucket.PassingBucket? then Passing else Failing);
    if records.List? { ScanRecordsFacts(r, bucket, records.items); }
  }

  ghost predicate CatalogSelected(report: Object, catalog: Catalog)
    requires CatalogOk(catalog)
  {
    forall k | 0 <= k < |REQUIRED_MODES| ::
      Get(SelectedScenarios(report), Named(REQUIRED_MODES[k])) == Strings(catalog[REQUIRED_MODES[k]])
  }

  predicate Covered(ids: Identities, catalog: Catalog)
    requires CatalogOk(catalog)
  {
    forall k | 0 <= k < |REQUIRED_MODES| :: ModeCovered(ids, catalog, REQUIRED_MODES[k])
  }

  // Whatever the form of the report: its identities are well formed, and a report without problems selects the
  // catalogued scenarios and observes all of them, and nothing else, over both transports in every required mode.
  lemma ReadFacts(report: Object, catalog: Catalog)
    requires CatalogOk(catalog)
    ensures AllWellFormed(Read(report, catalog).identities)
    ensures Clean(Read(report, catalog)) ==>
      CatalogSelected(report, catalog) && Covered(Read(report, catalog).identities, catalog)
  {
    HeaderFacts(report);
    if Get(report, BaselineKind) != Null {
      ReadCompactFacts(report, catalog);
    } else {
      ReadFullFacts(report, catalog);
    }
  }

  lemma ReadFullFacts(report: Object, catalog: Catalog)
    requires CatalogOk(catalog)
    ensures AllWellFormed(ReadFull(report, catalog).identities)
    ensures Clean(ReadFull(report, catalog)) ==>
      CatalogSelected(report, catalog) && Covered(ReadFull(report, catalog).identities, catalog)
  {
    hide ReadModes, ScanCases, Header, ModeCovered, Strings;
    HeaderFacts(report);
    var list := Get(report, Field.Cases);
    var items := if list.List? then list.items else [];
    var r := NoteIf(Header(report), !list.List?, NoCases);
    ScanCasesFacts(r, items);
    var s := ScanCases(r, items);
    ReadModesFacts(s.reading, report, catalog, s.cases, |REQUIRED_MODES|);
  }

  lemma ReadCompactFacts(report: Object, catalog: Catalog)
    requires CatalogOk(catalog)
    ensures AllWellFormed(ReadCompact(report, catalog).identities)
    ensures Clean(ReadCompact(report, catalog)) ==>
      CatalogSelected(report, catalog) && Covered(ReadCompact(report, catalog).identities, catalog)
  {
    hide CheckCompactModes, ReadBucket, Header, ModeCovered, Strings;
    HeaderFacts(report);
    var r0 := Header(report);
    var r1 := NoteIf(r0, Get(report, RequiredModes) != Strings(REQUIRED_MODES), WrongModes);
    var r2 := NoteIf(r1, !TransportsOk(Get(report, Transports)), WrongTransports);
    var checks := Get(report, Checks);
    if checks.Obj? {
      var r3 := ReadBucket(r2, PassingBucket, checks.fields);
      BucketFacts(r2, PassingBucket, checks.fields);
      BucketFacts(r3, FailingBucket, checks.fields);
      CheckCompactModesFacts(ReadBucket(r3, FailingBucket, checks.fields), report, catalog, |REQUIRED_MODES|);
    }
  }

  // ---------------------------------------------------------------- reading back a compact baseline

  lemma AsDictRoundTrip(id: Identity)
    ensures RecordOk(AsDict(id)) <==> WellFormed(id)
    ensures WellFormed(id) ==> RecordIdentity(AsDict(id)) == id
  {
  }

  function ObserveAll(ids: Identities, seen: set<Identity>, status: Status): Identities {
    map id | id in ids.Keys + seen :: Statuses(ids, id) + (if id in seen then {status} else {})
  }

  function Members(ids: seq<Identity>): set<Identity> {
    set k | 0 <= k < |ids| :: ids[k]
  }

  lemma MembersNext(ids: seq<Identity>)
    requires ids != [] && forall i, j | 0 <= i < j < |ids| :: ids[i] != ids[j]
    ensures Members(ids) == Members(ids[..|ids| - 1]) + {ids[|ids| - 1]}
    ensures ids[|ids| - 1] !in Members(ids[..|ids| - 1])
  {
  }

  lemma ObserveNone(ids: Identities, status: Status)
    ensures ObserveAll(ids, Members([]), status) == ids
  {
    var none := ObserveAll(ids, Members([]), status);
    assert none.Keys == ids.Keys;
    forall id | id in ids ensures none[id] == ids[id] {
      assert ids[id] + {} == ids[id];
    }
  }

  // A bucket of distinct well-formed identities is read back as that set of identities.
  lemma {:induction false} ScanOwnRecords(r: Reading, bucket: Bucket, ids: seq<Identity>)
    requires forall i | 0 <= i < |ids| :: WellFormed(ids[i])
    requires forall i, j | 0 <= i < j < |ids| :: ids[i] != ids[j]
    ensures ScanRecords(r, bucket, AsDicts(ids))
         == Scan(r.(identities := ObserveAll(r.identities, Members(ids), StatusOfBucket(bucket))), Members(ids))
  {
    hide AsDict, RecordOk, RecordIdentity, ObserveAll, Observe, WellFormed;
    if ids == [] {
      ObserveNone(r.identities, StatusOfBucket(bucket));
      assert Members(ids) == {};
    } else {
      var init, id := ids[..|ids| - 1], ids[|ids| - 1];
      ScanOwnRecords(r, bucket, init);
      AsDictRoundTrip(id);
      MembersNext(ids);
      ObserveAllNext(r.identities, Members(init), id, StatusOfBucket(bucket));
      AsDictsInit(ids);
      hide Members, AsDicts;
    }
  }

  lemma AsDictsInit(ids: seq<Identity>)
    requires ids != []
    ensures AsDicts(ids) != [] && AsDicts(ids)[..|AsDicts(ids)| - 1] == AsDicts(ids[..|ids| - 1])
    ensures AsDicts(ids)[|AsDicts(ids)| - 1] == AsDict(ids[|ids| - 1])
  {
    hide AsDict;
  }

  lemma ObserveAllNext(ids: Identities, seen: set<Identity>, id: Identity, status: Status)
    requires id !in seen
    ensures Observe(ObserveAll(ids, seen, status), id, status) == ObserveAll(ids, seen + {id}, status)
  {
    var a, b := Observe(ObserveAll(ids, seen, status), id, status), ObserveAll(ids, seen + {id}, status);
    assert a.Keys == b.Keys;
    assert Statuses(ids, id) + {} == Statuses(ids, id);
    assert a[id] == b[id];
  }

  lemma SortedDistinct(ids: set<Identity>)
    ensures forall i, j | 0 <= i < j < |SortIds(ids)| :: SortIds(ids)[i] != SortIds(ids)[j]
    ensures Members(SortIds(ids)) == ids
    ensures forall i | 0 <= i < |SortIds(ids)| :: SortIds(ids)[i] in ids
  {
    var s := SortIds(ids);
    SortIdsSorted(ids);
    forall i, j | 0 <= i < j < |s| ensures s[i] != s[j] {
      assert IdLess(s[i], s[j]);
      TupleLessIrreflexive(s[i].Key());
    }
    forall i | 0 <= i < |s| ensures s[i] in ids { assert s[i] in s; }
    forall id | id in ids ensures id in Members(s) {
      assert id in s;
    }
  }

  // The identities with a PASS or FAIL, without their SKIPs: what a compact baseline records.
  function WithoutSkips(ids: Identities): Identities {
    map id | id in WithStatus(ids, PASS) + WithStatus(ids, FAIL) :: ids[id] - {SKIP}
  }

  lemma BucketsTogether(ids: Identities)
    ensures ObserveAll(ObserveAll(map[], WithStatus(ids, PASS), PASS), WithStatus(ids, FAIL), FAIL) == WithoutSkips(ids)
  {
    var back := ObserveAll(ObserveAll(map[], WithStatus(ids, PASS), PASS), WithStatus(ids, FAIL), FAIL);
    forall id | id in WithoutSkips(ids) ensures back[id] == WithoutSkips(ids)[id] {
      assert id in ids && id in back;
      forall s ensures s in back[id] <==> s in WithoutSkips(ids)[id] {
        match s case PASS => case FAIL => case SKIP =>
      }
    }
  }

  // the fields of a compact form, one by one
  lemma CompactFormFields(scenarios: Object, auth: Json, ids: Identities)
    ensures var c := CompactForm(scenarios, auth, ids);
      && Get(c, SchemaVersion) == Num(REPORT_SCHEMA_VERSION as real)
      && Get(c, BaselineKind) == Str(COMPACT_BASELINE_KIND)
      && Get(c, RequiredModes) == Strings(REQUIRED_MODES) && Get(c, Transports) == Strings(TRANSPORTS)
      && Get(c, AutomaticAuthRequired) == auth && Get(c, ModernFeatureEnablement) == Bool(true)
      && Get(c, VersionCheck).Obj? && Get(Get(c, VersionCheck).fields, Success) == Bool(true)
      && Get(c, OfficialConformance).Obj?
      && var official := Get(c, OfficialConformance).fields;
      && Get(official, Repository) == Str(CONFORMANCE_REPOSITORY) && Get(official, GitRef) == Str(CONFORMANCE_GIT_REF)
      && Get(official, AuthenticationIncluded) == Bool(true) && Get(official, Scenarios) == Obj(Selection(scenarios))
  {
    hide SortIds, AsDicts, Strings, Selection;
  }

  lemma CompactFormHeader(scenarios: Object, auth: Json, ids: Identities)
    ensures var c := CompactForm(scenarios, auth, ids);
      && Clean(Header(c)) && Get(c, BaselineKind) == Str(COMPACT_BASELINE_KIND)
      && Get(c, RequiredModes) == Strings(REQUIRED_MODES) && TransportsOk(Get(c, Transports))
      && Get(c, AutomaticAuthRequired) == auth
      && forall k | 0 <= k < |REQUIRED_MODES| ::
           Get(SelectedScenarios(c), Named(REQUIRED_MODES[k])) == Get(scenarios, Named(REQUIRED_MODES[k]))
  {
    CompactFormFields(scenarios, auth, ids);
    hide CompactForm, Strings;
  }

  lemma CompactFormBuckets(scenarios: Object, auth: Json, ids: Identities, r: Reading)
    requires AllWellFormed(ids) && r == Reading([], map[])
    ensures var c := CompactForm(scenarios, auth, ids);
      && Get(c, Checks).Obj?
      && ReadBucket(ReadBucket(r, PassingBucket, Get(c, Checks).fields), FailingBucket, Get(c, Checks).fields)
         == Reading([], WithoutSkips(ids))
  {
    var passing, failing := WithStatus(ids, PASS), WithStatus(ids, FAIL);
    SortedDistinct(passing);
    SortedDistinct(failing);
    BucketsTogether(ids);
    hide SortIds, SortedIdentities, AsDicts, ScanRecords, ObserveAll, WithoutSkips, Strings;
    ScanOwnRecords(r, PassingBucket, SortIds(passing));
    ScanOwnRecords(Reading([], ObserveAll(map[], passing, PASS)), FailingBucket, SortIds(failing));
  }

  // Examining a compact form gives back the policy and the identities without their SKIPs, and no problem exactly
  // when those identities alone still cover every required case and scenario.
  lemma CompactFormReread(scenarios: Object, policy: Json, ids: Identities, catalog: Catalog)
    requires CatalogOk(catalog) && AllWellFormed(ids)
    requires forall k | 0 <= k < |REQUIRED_MODES| ::
      Get(scenarios, Named(REQUIRED_MODES[k])) == Strings(catalog[REQUIRED_MODES[k]])
    ensures var back := Examine(CompactForm(scenarios, policy, ids), catalog);
      && back.identities == WithoutSkips(ids) && back.policy == policy
      && (back.problems == [] <==> Covered(WithoutSkips(ids), catalog))
  {
    var c := CompactForm(scenarios, policy, ids);
    CompactFormHeader(scenarios, policy, ids);
    HeaderFacts(c);
    hide CompactForm, ReadBucket, CheckCompactModes, Header, WithoutSkips, ModeCovered, Strings, ReadFull;
    CompactFormBuckets(scenarios, policy, ids, Header(c));
    CheckCompactModesFacts(Reading([], WithoutSkips(ids)), c, catalog, |REQUIRED_MODES|);
    assert Read(c, catalog) == CheckCompactModes(Reading([], WithoutSkips(ids)), c, catalog, |REQUIRED_MODES|);
  }

  function Unskipped(e: Evidence): Evidence {
    e.(identities := WithoutSkips(e.identities))
  }

  // Re-examining the compact form of a report: its own evidence without SKIPs, readable exactly when that covers.
  lemma CompactReread(report: Object, catalog: Catalog)
    requires CatalogOk(catalog) && CompactBaseline(report, catalog).Ok?
    ensures var e := Examine(report, catalog); var back := Examine(CompactBaseline(report, catalog).value, catalog);
      && Acceptable(e)
      && back.identities == WithoutSkips(e.identities) && back.policy == e.policy
      && (back.problems == [] <==> Covered(WithoutSkips(e.identities), catalog))
  {
    var e := Examine(report, catalog);
    CompactableMeaning(e);
    ReadFacts(report, catalog);
    hide Read, CompactForm, Covered, Strings;
    CompactFormReread(SelectedScenarios(report), e.policy, e.identities, catalog);
  }
}
