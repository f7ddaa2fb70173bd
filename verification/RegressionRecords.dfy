/** What a compact baseline records, field by field, and when it is read without any problem. */
module RegressionRecords {
  import opened Prelude
  import opened Json
  import opened RegressionReport
  import opened RegressionGate
  import opened RegressionCompaction
  import opened RegressionIdentities
  import opened RegressionClean

  // The record's fields spell out this identity.
  predicate Records(record: Json, id: Identity) {
    && record.Obj?
    && Get(record.fields, Mode) == Str(id.mode) && id.mode in {"2025-06-18", "2025-11-25", "2026-07-28"}
    && Get(record.fields, Transport) == Str(id.transport) && id.transport in {"stdio", "official-http"}
    && Get(record.fields, Source) == Str(id.source) && id.source in {"official", "harness", "supplemental"}
    && Get(record.fields, Scenario) == Str(id.scenario)
    && Get(record.fields, CheckId) == Str(id.checkId) && id.checkId != ""
  }

  ghost predicate InList(records: seq<Json>, id: Identity) {
    exists k | 0 <= k < |records| :: Records(records[k], id)
  }

  ghost predicate Recordable(record: Json) {
    exists id :: Records(record, id)
  }

  // Each record spells out an identity, and no two the same.
  ghost predicate RecordsFit(records: seq<Json>) {
    && (forall k | 0 <= k < |records| :: Recordable(records[k]))
    && forall j, k, id | 0 <= j < k < |records| && Records(records[j], id) :: !Records(records[k], id)
  }

  lemma RecordMeaning(record: Json, id: Identity)
    ensures RecordOk(record) && RecordIdentity(record) == id <==> Records(record, id)
  {
    assert REQUIRED_MODES[0] == "2025-06-18" && REQUIRED_MODES[1] == "2025-11-25" && REQUIRED_MODES[2] == "2026-07-28";
    assert TRANSPORTS[0] == "stdio" && TRANSPORTS[1] == "official-http";
  }

  lemma RecordableMeaning(record: Json)
    ensures RecordOk(record) <==> Recordable(record)
  {
    hide RecordOk, Records;
    if RecordOk(record) { RecordMeaning(record, RecordIdentity(record)); }
    if id :| Records(record, id) { RecordMeaning(record, id); }
  }

  lemma InListNext(records: seq<Json>, id: Identity)
    requires records != []
    ensures InList(records, id) <==> InList(records[..|records| - 1], id) || Records(records[|records| - 1], id)
  {
    var init := records[..|records| - 1];
    hide Records;
    if InList(init, id) {
      var k :| 0 <= k < |init| && Records(init[k], id);
      assert Records(records[k], id);
    }
    if InList(records, id) {
      var k :| 0 <= k < |records| && Records(records[k], id);
      if k < |init| { assert Records(init[k], id); }
    }
  }

  lemma RecordsFitNext(records: seq<Json>)
    requires records != []
    ensures var init, last := records[..|records| - 1], records[|records| - 1];
      RecordsFit(records) <==>
        RecordsFit(init) && Recordable(last) && forall id | Records(last, id) :: !InList(init, id)
  {
    var init, last := records[..|records| - 1], records[|records| - 1];
    hide Records, Recordable;
    assert forall k | 0 <= k < |init| :: init[k] == records[k];
    if RecordsFit(records) {
      assert forall id | Records(last, id) :: !InList(init, id);
    }
  }

  // The scan has seen what the list spells out, and observed it under the bucket's status.
  lemma {:induction false} ScanRecordsExact(r: Reading, bucket: Bucket, records: seq<Json>, id: Identity,
                                            status: Status)
    ensures id in ScanRecords(r, bucket, records).seen <==> InList(records, id)
    ensures status in Statuses(ScanRecords(r, bucket, records).reading.identities, id) <==>
      status in Statuses(r.identities, id) || (status == StatusOfBucket(bucket) && InList(records, id))
    ensures id in ScanRecords(r, bucket, records).reading.identities <==> id in r.identities || InList(records, id)
  {
    hide RecordOk, RecordIdentity, Records, InList;
    if records == [] {
      NothingInList(id);
    } else {
      var init, record := records[..|records| - 1], records[|records| - 1];
      ScanRecordsExact(r, bucket, init, id, status);
      InListNext(records, id);
      RecordMeaning(record, id);
      if RecordOk(record) {
        ObserveStatuses(ScanRecords(r, bucket, init).reading.identities, RecordIdentity(record), StatusOfBucket(bucket),
          id, status);
      }
    }
  }

  lemma NothingInList(id: Identity)
    ensures !InList([], id)
  {
  }

  lemma {:induction false} ScanRecordsMeaning(r: Reading, bucket: Bucket, records: seq<Json>)
    ensures Clean(ScanRecords(r, bucket, records).reading) <==> Clean(r) && RecordsFit(records)
  {
    hide RecordOk, RecordIdentity, Records, Recordable, InList, Observe;
    if records != [] {
      hide RecordsFit;
      var init, record := records[..|records| - 1], records[|records| - 1];
      ScanRecordsMeaning(r, bucket, init);
      RecordsFitNext(records);
      RecordableMeaning(record);
      if RecordOk(record) {
        var id := RecordIdentity(record);
        RecordMeaning(record, id);
        ScanRecordsExact(r, bucket, init, id, PASS);
        forall other | Records(record, other) ensures other == id { RecordMeaning(record, other); }
      }
    }
  }

  // ---------------------------------------------------------------- the baseline

  function ListAt(report: Object, bucket: Bucket): Json {
    if !Get(report, Checks).Obj? then Null
    else Get(Get(report, Checks).fields, if bucket.PassingBucket? then Passing else Failing)
  }

  ghost predicate RecordedAs(report: Object, bucket: Bucket, id: Identity) {
    ListAt(report, bucket).List? && InList(ListAt(report, bucket).items, id)
  }

  ghost predicate Recorded(report: Object, id: Identity) {
    RecordedAs(report, PassingBucket, id) || RecordedAs(report, FailingBucket, id)
  }

  // Over both transports something is recorded, and over HTTP the catalogued scenarios and no others.
  ghost predicate ModeRecorded(report: Object, catalog: Catalog, mode: string)
    requires mode in catalog
  {
    && (exists id :: Recorded(report, id) && id.mode == mode && id.transport == "stdio")
    && (exists id :: Recorded(report, id) && id.mode == mode && id.transport == "official-http")
    && forall scenario :: scenario in ElementsOf(catalog[mode]) <==> ScenarioRecorded(report, mode, scenario)
  }

  ghost predicate ScenarioRecorded(report: Object, mode: string, scenario: string) {
    exists id :: Recorded(report, id) && id.mode == mode && id.transport == "official-http"
                 && id.source in {"official", "harness"} && id.scenario == scenario
  }

  predicate TransportsFit(report: Object) {
    var transports := Get(report, Transports);
    transports == List([Str("stdio"), Str("official-http")]) || transports == List([Str("official-http"), Str("stdio")])
  }

  ghost predicate BaselineFits(report: Object) {
    && HeaderFits(report)
    && Get(report, BaselineKind) == Str("mcp-conformance-regression-baseline-v1")
    && Get(report, RequiredModes) == List([Str("2025-06-18"), Str("2025-11-25"), Str("2026-07-28")])
    && TransportsFit(report)
    && ListAt(report, PassingBucket).List? && RecordsFit(ListAt(report, PassingBucket).items)
    && ListAt(report, FailingBucket).List? && RecordsFit(ListAt(report, FailingBucket).items)
  }

  // what has been read when the modes are looked at
  function BeforeModes(report: Object): Reading {
    var r0 := NoteIf(Header(report), Get(report, RequiredModes) != Strings(REQUIRED_MODES), WrongModes);
    NoteIf(r0, !TransportsOk(Get(report, Transports)), WrongTransports)
  }

  function BothBuckets(r: Reading, checks: Object): Reading {
    ReadBucket(ReadBucket(r, PassingBucket, checks), FailingBucket, checks)
  }

  lemma ModesText()
    ensures Strings(REQUIRED_MODES) == List([Str("2025-06-18"), Str("2025-11-25"), Str("2026-07-28")])
  {
    assert Strings(REQUIRED_MODES).items == [Str("2025-06-18"), Str("2025-11-25"), Str("2026-07-28")];
  }

  lemma TransportsMeaning(report: Object)
    ensures TransportsOk(Get(report, Transports)) <==> TransportsFit(report)
  {
    assert Strings([STDIO, HTTP]).items == [Str("stdio"), Str("official-http")];
    assert Strings([HTTP, STDIO]).items == [Str("official-http"), Str("stdio")];
  }

  lemma BucketsMeaning(r: Reading, report: Object)
    requires Get(report, Checks).Obj?
    ensures Clean(BothBuckets(r, Get(report, Checks).fields)) <==>
      && Clean(r)
      && ListAt(report, PassingBucket).List? && RecordsFit(ListAt(report, PassingBucket).items)
      && ListAt(report, FailingBucket).List? && RecordsFit(ListAt(report, FailingBucket).items)
  {
    var checks := Get(report, Checks).fields;
    hide RecordsFit, ScanRecords;
    var r1 := ReadBucket(r, PassingBucket, checks);
    if Get(checks, Passing).List? { ScanRecordsMeaning(r, PassingBucket, Get(checks, Passing).items); }
    if Get(checks, Failing).List? { ScanRecordsMeaning(r1, FailingBucket, Get(checks, Failing).items); }
  }

  lemma BucketsExact(r: Reading, report: Object, id: Identity, status: Status)
    requires Get(report, Checks).Obj?
    ensures status in Statuses(BothBuckets(r, Get(report, Checks).fields).identities, id) <==>
      || status in Statuses(r.identities, id)
      || (status == PASS && RecordedAs(report, PassingBucket, id))
      || (status == FAIL && RecordedAs(report, FailingBucket, id))
    ensures id in BothBuckets(r, Get(report, Checks).fields).identities <==> id in r.identities || Recorded(report, id)
  {
    var checks := Get(report, Checks).fields;
    hide InList, ScanRecords;
    var r1 := ReadBucket(r, PassingBucket, checks);
    if Get(checks, Passing).List? { ScanRecordsExact(r, PassingBucket, Get(checks, Passing).items, id, status); }
    if Get(checks, Failing).List? { ScanRecordsExact(r1, FailingBucket, Get(checks, Failing).items, id, status); }
  }

  lemma ModeCoveredMeaning(ids: Identities, report: Object, catalog: Catalog, mode: string)
    requires mode in catalog && forall id :: id in ids <==> Recorded(report, id)
    ensures ModeCovered(ids, catalog, mode) <==> ModeRecorded(report, catalog, mode)
  {
    hide Recorded, ElementsOf;
    assert forall scenario :: scenario in ObservedScenarios(ids, mode) <==> ScenarioRecorded(report, mode, scenario);
  }

  ghost predicate ModeFitsBaseline(report: Object, catalog: Catalog, mode: string)
    requires mode in catalog
  {
    CatalogFits(report, catalog, mode) && ModeRecorded(report, catalog, mode)
  }

  lemma ModesMeaning(r: Reading, report: Object, catalog: Catalog)
    requires CatalogOk(catalog) && HeaderFits(report) && forall id :: id in r.identities <==> Recorded(report, id)
    requires "2025-06-18" in catalog && "2025-11-25" in catalog && "2026-07-28" in catalog
    ensures Clean(CheckCompactModes(r, report, catalog, |REQUIRED_MODES|)) <==>
      && Clean(r)
      && ModeFitsBaseline(report, catalog, "2025-06-18") && ModeFitsBaseline(report, catalog, "2025-11-25")
      && ModeFitsBaseline(report, catalog, "2026-07-28")
  {
    hide *;
    var modes := RequiredModesAre();
    CheckCompactModesFacts(r, report, catalog, |REQUIRED_MODES|);
    ModeMeaning(r, report, catalog, modes[0]);
    ModeMeaning(r, report, catalog, modes[1]);
    ModeMeaning(r, report, catalog, modes[2]);
  }

  lemma ModeMeaning(r: Reading, report: Object, catalog: Catalog, mode: string)
    requires mode in catalog && HeaderFits(report) && forall id :: id in r.identities <==> Recorded(report, id)
    ensures ModeFitsBaseline(report, catalog, mode) <==>
      Get(SelectedScenarios(report), Named(mode)) == Strings(catalog[mode]) && ModeCovered(r.identities, catalog, mode)
  {
    ModeCoveredMeaning(r.identities, report, catalog, mode);
    hide ModeCovered, ModeRecorded, Recorded, Strings;
  }

  ghost predicate CompactReportFits(report: Object, catalog: Catalog)
    requires CatalogOk(catalog)
  {
    CatalogModes(catalog);
    && BaselineFits(report)
    && ModeFitsBaseline(report, catalog, "2025-06-18") && ModeFitsBaseline(report, catalog, "2025-11-25")
    && ModeFitsBaseline(report, catalog, "2026-07-28")
  }

  lemma ReadCompactIs(report: Object, catalog: Catalog)
    requires CatalogOk(catalog) && Get(report, BaselineKind) == Str("mcp-conformance-regression-baseline-v1")
    requires Get(report, Checks).Obj?
    ensures Read(report, catalog) ==
      CheckCompactModes(BothBuckets(BeforeModes(report), Get(report, Checks).fields), report, catalog, |REQUIRED_MODES|)
  {
    hide Header, ReadBucket, CheckCompactModes, TransportsOk, Strings;
  }

  lemma BeforeModesMeaning(report: Object)
    ensures BeforeModes(report).identities == map[]
    ensures Clean(BeforeModes(report)) <==>
      HeaderFits(report) && TransportsFit(report)
        && Get(report, RequiredModes) == List([Str("2025-06-18"), Str("2025-11-25"), Str("2026-07-28")])
  {
    HeaderMeaning(report);
    HeaderFacts(report);
    ModesText();
    TransportsMeaning(report);
    hide Header, HeaderFits, TransportsOk, TransportsFit, Strings;
  }

  // Without the right kind or the check lists, the baseline has a problem.
  lemma ReadCompactRefuses(report: Object, catalog: Catalog)
    requires CatalogOk(catalog) && Get(report, BaselineKind) != Null
    requires Get(report, BaselineKind) != Str("mcp-conformance-regression-baseline-v1") || !Get(report, Checks).Obj?
    ensures !Clean(Read(report, catalog))
  {
    hide Header, Strings, TransportsOk;
  }

  // The identities of a compact baseline, whatever its problems: those its buckets record, as passing or failing.
  lemma CompactReportIsExact(report: Object, catalog: Catalog, id: Identity, status: Status)
    requires CatalogOk(catalog) && Get(report, BaselineKind) == Str("mcp-conformance-regression-baseline-v1")
    requires Get(report, Checks).Obj?
    ensures status in Statuses(Read(report, catalog).identities, id) <==>
      || (status == PASS && RecordedAs(report, PassingBucket, id))
      || (status == FAIL && RecordedAs(report, FailingBucket, id))
    ensures id in Read(report, catalog).identities <==> Recorded(report, id)
  {
    var r := BeforeModes(report);
    ReadCompactIs(report, catalog);
    BeforeModesMeaning(report);
    BucketsExact(r, report, id, status);
    CheckCompactModesFacts(BothBuckets(r, Get(report, Checks).fields), report, catalog, |REQUIRED_MODES|);
    NoStatuses(id);
    hide *;
    assert r.identities == map[];
    assert id !in r.identities;
  }

  // A compact baseline is read without problems exactly when its header and lists are right, no identity is listed
  // twice in a bucket, and in each version the pinned catalog was selected and is recorded over both transports.
  lemma CompactReportMeaning(report: Object, catalog: Catalog)
    requires CatalogOk(catalog) && Get(report, BaselineKind) != Null
    ensures Clean(Read(report, catalog)) <==> CompactReportFits(report, catalog)
  {
    CatalogModes(catalog);
    if Get(report, BaselineKind) != Str("mcp-conformance-regression-baseline-v1") || !Get(report, Checks).Obj? {
      hide Read, CompactReportFits;
      ReadCompactRefuses(report, catalog);
      UnfitBaseline(report, catalog);
    } else {
      CompactReportMeans(report, catalog);
    }
  }

  lemma UnfitBaseline(report: Object, catalog: Catalog)
    requires CatalogOk(catalog)
    requires Get(report, BaselineKind) != Str("mcp-conformance-regression-baseline-v1") || !Get(report, Checks).Obj?
    ensures !CompactReportFits(report, catalog)
  {
    hide HeaderFits, TransportsFit, RecordsFit, ModeFitsBaseline;
  }

  lemma CompactReportMeans(report: Object, catalog: Catalog)
    requires CatalogOk(catalog) && Get(report, BaselineKind) == Str("mcp-conformance-regression-baseline-v1")
    requires Get(report, Checks).Obj?
    ensures Clean(Read(report, catalog)) <==> CompactReportFits(report, catalog)
  {
    CatalogModes(catalog);
    var r := BeforeModes(report);
    var s := BothBuckets(r, Get(report, Checks).fields);
    ReadCompactIs(report, catalog);
    BeforeModesMeaning(report);
    BucketsMeaning(r, report);
    CompactFitsIs(report, catalog);
    CheckCompactModesFacts(s, report, catalog, |REQUIRED_MODES|);
    hide *;
    if Clean(r) {
      forall id ensures id in s.identities <==> Recorded(report, id) {
        CompactReportIsExact(report, catalog, id, PASS);
      }
      ModesMeaning(s, report, catalog);
    }
  }

  lemma CompactFitsIs(report: Object, catalog: Catalog)
    requires CatalogOk(catalog) && Get(report, BaselineKind) == Str("mcp-conformance-regression-baseline-v1")
    requires "2025-06-18" in catalog && "2025-11-25" in catalog && "2026-07-28" in catalog
    ensures CompactReportFits(report, catalog) <==>
      && HeaderFits(report) && TransportsFit(report)
      && Get(report, RequiredModes) == List([Str("2025-06-18"), Str("2025-11-25"), Str("2026-07-28")])
      && ListAt(report, PassingBucket).List? && RecordsFit(ListAt(report, PassingBucket).items)
      && ListAt(report, FailingBucket).List? && RecordsFit(ListAt(report, FailingBucket).items)
      && ModeFitsBaseline(report, catalog, "2025-06-18") && ModeFitsBaseline(report, catalog, "2025-11-25")
      && ModeFitsBaseline(report, catalog, "2026-07-28")
  {
    hide HeaderFits, TransportsFit, RecordsFit, ModeFitsBaseline, ListAt;
  }
}
