/** What a compact reviewer baseline records, field by field, and when it is read without any problem. */
module ReviewRecords {
  import opened Prelude
  import opened Json
  import opened ReviewReport
  import opened ReviewGate
  import opened ReviewIdentities
  import opened ReviewClean

  // ---------------------------------------------------------------- the required cases

  predicate IsPlace(c: Json) {
    c.Obj? && Get(c.fields, Mode).Str? && Get(c.fields, Transport).Str?
  }

  // Every entry is a place, and no two the same.
  ghost predicate PlacesFit(cases: seq<Json>) {
    && (forall k | 0 <= k < |cases| :: IsPlace(cases[k]))
    && forall j, k, at | 0 <= j < k < |cases| && At(cases[j], at) :: !At(cases[k], at)
  }

  lemma PlaceMeaning(r: Reading, c: Json)
    ensures var t := ScanRequiredCase(r, c);
      && t.results == r.results
      && (Clean(t) <==> Clean(r) && IsPlace(c) && forall at | At(c, at) :: at !in r.observed)
      && (Clean(t) ==> forall at :: at in t.observed <==> at in r.observed || At(c, at))
  {
    if c.Obj? && HasCase(c.fields) {
      assert At(c, CaseOf(c.fields)) && forall other | At(c, other) :: other == CaseOf(c.fields);
    }
  }

  lemma PlacesFitNext(cases: seq<Json>)
    requires cases != []
    ensures var init, c := cases[..|cases| - 1], cases[|cases| - 1];
      && (PlacesFit(cases) <==> PlacesFit(init) && IsPlace(c) && forall at | At(c, at) :: !SomeAt(init, at))
      && forall at :: SomeAt(cases, at) <==> SomeAt(init, at) || At(c, at)
  {
    var init, c := cases[..|cases| - 1], cases[|cases| - 1];
    hide IsPlace, At;
    assert forall k | 0 <= k < |init| :: init[k] == cases[k];
    forall at ensures SomeAt(cases, at) <==> SomeAt(init, at) || At(c, at) {
      if k :| 0 <= k < |init| && At(init[k], at) { assert At(cases[k], at); }
      if k :| 0 <= k < |cases| && At(cases[k], at) { if k < |init| { assert At(init[k], at); } }
    }
    if PlacesFit(cases) {
      forall at | At(c, at) ensures !SomeAt(init, at) {
        assert At(cases[|cases| - 1], at);
        assert forall j | 0 <= j < |init| :: !At(cases[j], at);
      }
    }
  }

  lemma {:induction false} PlacesMeaning(r: Reading, cases: seq<Json>)
    requires r.observed == {}
    ensures var t := ScanRequiredCases(r, cases);
      && t.results == r.results
      && (Clean(t) <==> Clean(r) && PlacesFit(cases))
      && (Clean(t) ==> forall at :: at in t.observed <==> SomeAt(cases, at))
  {
    if cases != [] {
      var init := cases[..|cases| - 1];
      PlacesMeaning(r, init);
      PlacesFitNext(cases);
      PlaceMeaning(ScanRequiredCases(r, init), cases[|cases| - 1]);
      hide ScanRequiredCase, PlacesFit, IsPlace, At, SomeAt;
    }
  }

  // ---------------------------------------------------------------- the records

  // The record's fields spell out this identity, of a required case.
  predicate Records(record: Json, id: ReviewId, required: set<Case>) {
    && record.Obj?
    && Get(record.fields, Mode) == Str(id.mode) && Get(record.fields, Transport) == Str(id.transport)
    && (id.mode, id.transport) in required
    && Get(record.fields, CheckId) == Str(id.checkId) && "review/" <= id.checkId
  }

  ghost predicate Recordable(record: Json, required: set<Case>) {
    exists id :: Records(record, id, required)
  }

  ghost predicate InList(records: seq<Json>, id: ReviewId, required: set<Case>) {
    exists k | 0 <= k < |records| :: Records(records[k], id, required)
  }

  // Each record spells out an identity, and no two the same.
  ghost predicate RecordsFit(records: seq<Json>, required: set<Case>) {
    && (forall k | 0 <= k < |records| :: Recordable(records[k], required))
    && forall j, k, id | 0 <= j < k < |records| && Records(records[j], id, required) ::
         !Records(records[k], id, required)
  }

  lemma RecordMeaning(r: Reading, success: bool, required: set<Case>, record: Json)
    ensures var t := ScanRecord(r, success, required, record);
      && t.observed == r.observed
      && (Clean(t) <==>
            Clean(r) && Recordable(record, required) && forall id | Records(record, id, required) :: id !in r.results)
      && (Clean(t) ==> forall id, outcome :: Holds(t.results, id, outcome) <==>
            Holds(r.results, id, outcome) || (outcome == success && Records(record, id, required)))
  {
    if RecordOk(record, required) {
      assert Records(record, RecordId(record), required);
      assert forall id | Records(record, id, required) :: id == RecordId(record);
    }
  }

  lemma RecordsFitNext(records: seq<Json>, required: set<Case>)
    requires records != []
    ensures var init, last := records[..|records| - 1], records[|records| - 1];
      && (RecordsFit(records, required) <==>
            RecordsFit(init, required) && Recordable(last, required)
            && forall id | Records(last, id, required) :: !InList(init, id, required))
      && forall id :: InList(records, id, required) <==> InList(init, id, required) || Records(last, id, required)
  {
    var init, last := records[..|records| - 1], records[|records| - 1];
    hide Records, Recordable;
    assert forall k | 0 <= k < |init| :: init[k] == records[k];
    forall id ensures InList(records, id, required) <==> InList(init, id, required) || Records(last, id, required) {
      if k :| 0 <= k < |init| && Records(init[k], id, required) { assert Records(records[k], id, required); }
      if k :| 0 <= k < |records| && Records(records[k], id, required) {
        if k < |init| { assert Records(init[k], id, required); }
      }
    }
    if RecordsFit(records, required) {
      forall id | Records(last, id, required) ensures !InList(init, id, required) {
        assert Records(records[|records| - 1], id, required);
        assert forall j | 0 <= j < |init| :: !Records(records[j], id, required);
      }
    }
  }

  // Reading a list adds what it spells out, and is clean when that is new.
  lemma {:induction false} RecordsMeaning(r: Reading, success: bool, required: set<Case>, records: seq<Json>)
    ensures var t := ScanRecords(r, success, required, records);
      && t.observed == r.observed
      && (Clean(t) <==>
            Clean(r) && RecordsFit(records, required) && forall id | InList(records, id, required) :: id !in r.results)
      && (Clean(t) ==> forall id, outcome :: Holds(t.results, id, outcome) <==>
            Holds(r.results, id, outcome) || (outcome == success && InList(records, id, required)))
  {
    if records == [] {
      assert forall id :: !InList([], id, required);
    } else {
      var init, record := records[..|records| - 1], records[|records| - 1];
      RecordsMeaning(r, success, required, init);
      RecordsFitNext(records, required);
      RecordMeaning(ScanRecords(r, success, required, init), success, required, record);
      HeldIsKey(ScanRecords(r, success, required, init).results);
      HeldIsKey(r.results);
      hide ScanRecord, RecordsFit, Recordable, Records, InList, Holds;
    }
  }

  lemma HeldIsKey(results: Results)
    ensures forall id :: id in results <==> Holds(results, id, true) || Holds(results, id, false)
  {
  }

  // ---------------------------------------------------------------- the baseline

  function ListAt(report: Object, bucket: Field): Json {
    if Get(report, Checks).Obj? then Get(Get(report, Checks).fields, bucket) else Null
  }

  ghost predicate RecordedAs(report: Object, outcome: bool, id: ReviewId, required: set<Case>) {
    var list := ListAt(report, if outcome then Passing else Failing);
    list.List? && InList(list.items, id, required)
  }

  // Exactly the required cases are listed, no identity is recorded twice, and the totals are those of the records.
  ghost predicate BaselineFits(report: Object, required: set<Case>, results: Results) {
    && HeaderFits(report)
    && Get(report, BaselineKind) == Str("mcp-review-regression-baseline-v1")
    && Get(report, RequiredCases).List? && PlacesFit(Get(report, RequiredCases).items)
    && (forall at :: at in required <==> SomeAt(Get(report, RequiredCases).items, at))
    && ListAt(report, Passing).List? && RecordsFit(ListAt(report, Passing).items, required)
    && ListAt(report, Failing).List? && RecordsFit(ListAt(report, Failing).items, required)
    && (forall id | InList(ListAt(report, Passing).items, id, required) ::
          !InList(ListAt(report, Failing).items, id, required))
    && TotalsFit(Get(report, Summary), results, required)
  }

  // the reading in front of the check lists
  function Places(report: Object): Reading {
    var r := NoteIf(Header(report), Get(report, BaselineKind) != Str(REVIEW_BASELINE_KIND), UnsupportedBaseline);
    var cases := Get(report, RequiredCases);
    if cases.List? then ScanRequiredCases(r, cases.items) else Note(r, NoCases)
  }

  lemma PlacesRead(report: Object)
    ensures Places(report).results == map[]
    ensures Clean(Places(report)) <==>
      && HeaderFits(report) && Get(report, BaselineKind) == Str("mcp-review-regression-baseline-v1")
      && Get(report, RequiredCases).List? && PlacesFit(Get(report, RequiredCases).items)
    ensures Clean(Places(report)) ==>
      forall at :: at in Places(report).observed <==> SomeAt(Get(report, RequiredCases).items, at)
  {
    HeaderMeaning(report);
    HeaderEmpty(report);
    hide Header, HeaderFits, ScanRequiredCases, PlacesFit, SomeAt;
    var r := NoteIf(Header(report), Get(report, BaselineKind) != Str(REVIEW_BASELINE_KIND), UnsupportedBaseline);
    if Get(report, RequiredCases).List? { PlacesMeaning(r, Get(report, RequiredCases).items); }
  }

  function Buckets(r: Reading, report: Object, required: set<Case>): Reading {
    var checks := Get(report, Checks);
    var fields := if checks.Obj? then checks.fields else map[];
    ReadBucket(ReadBucket(NoteIf(r, !checks.Obj?, NoIdentities), true, required, fields), false, required, fields)
  }

  // Nothing is dropped from the complaints on the way.
  lemma BucketClean(r: Reading, success: bool, required: set<Case>, checks: Object)
    ensures Clean(ReadBucket(r, success, required, checks)) ==>
      Clean(r) && Get(checks, if success then Passing else Failing).List?
    ensures ReadBucket(r, success, required, checks).observed == r.observed
  {
    var records := Get(checks, if success then Passing else Failing);
    if records.List? { RecordsMeaning(r, success, required, records.items); }
    hide ScanRecords, RecordsFit, InList, Holds;
  }

  lemma BucketsMeaning(r: Reading, report: Object, required: set<Case>)
    requires r.results == map[]
    ensures var t := Buckets(r, report, required);
      && t.observed == r.observed
      && (Clean(t) <==>
          && Clean(r)
          && ListAt(report, Passing).List? && RecordsFit(ListAt(report, Passing).items, required)
          && ListAt(report, Failing).List? && RecordsFit(ListAt(report, Failing).items, required)
          && forall id | InList(ListAt(report, Passing).items, id, required) ::
               !InList(ListAt(report, Failing).items, id, required))
      && (Clean(t) ==> forall id, outcome :: Holds(t.results, id, outcome) <==>
            RecordedAs(report, outcome, id, required))
  {
    var checks := Get(report, Checks);
    var fields := if checks.Obj? then checks.fields else map[];
    var r0 := NoteIf(r, !checks.Obj?, NoIdentities);
    var r1 := ReadBucket(r0, true, required, fields);
    BucketClean(r0, true, required, fields);
    BucketClean(r1, false, required, fields);
    HeldIsKey(r0.results);
    HeldIsKey(r1.results);
    if Get(fields, Passing).List? { RecordsMeaning(r0, true, required, Get(fields, Passing).items); }
    if Get(fields, Failing).List? { RecordsMeaning(r1, false, required, Get(fields, Failing).items); }
    hide ScanRecords, RecordsFit, InList, Holds;
    assert forall id, outcome :: !Holds(r.results, id, outcome) by { NoneHeld(); }
  }

  lemma NoneHeld()
    ensures forall id, outcome :: !Holds(map[], id, outcome)
  {
  }

  lemma ReadCompactIs(report: Object, required: set<Case>)
    ensures ReadCompact(report, required) == Buckets(Places(report), report, required)
  {
    hide Header, ScanRequiredCases, ReadBucket;
  }

  lemma PlacesRequired(report: Object, required: set<Case>)
    requires Clean(Places(report))
    ensures Get(report, RequiredCases).List?
    ensures Places(report).observed == required <==>
      forall at :: at in required <==> SomeAt(Get(report, RequiredCases).items, at)
  {
    PlacesRead(report);
    hide Places, SomeAt, PlacesFit, HeaderFits;
    assert Places(report).observed == required <==> forall at :: at in required <==> at in Places(report).observed;
  }

  lemma CompactBody(report: Object, required: set<Case>)
    ensures var r := ReadCompact(report, required);
      && (Clean(r) && r.observed == required && TotalsFit(Get(report, Summary), r.results, required) <==>
            BaselineFits(report, required, r.results))
      && (Clean(r) ==> forall id, outcome :: Holds(r.results, id, outcome) <==>
            RecordedAs(report, outcome, id, required))
  {
    ReadCompactIs(report, required);
    PlacesRead(report);
    if Clean(Places(report)) { PlacesRequired(report, required); }
    BucketsMeaning(Places(report), report, required);
    hide ReadCompact, Places, Buckets, HeaderFits, PlacesFit, RecordsFit, InList, Holds, TotalsFit, SomeAt, ListAt,
      RecordedAs, Clean;
  }

  // A compact baseline is read without problems exactly when it fits; its results are then what its lists record.
  lemma CompactReportMeaning(report: Object, required: set<Case>)
    requires Get(report, BaselineKind) != Null
    ensures Clean(Read(report, required)) <==> BaselineFits(report, required, Read(report, required).results)
    ensures Clean(Read(report, required)) ==>
      forall id, outcome ::
        Holds(Read(report, required).results, id, outcome) <==> RecordedAs(report, outcome, id, required)
  {
    var r := ReadCompact(report, required);
    CompactBody(report, required);
    FinishMeaning(r, report, required);
    TotalsMeaning(Get(report, Summary), r.results, required);
    FinishKeeps(r, report, required);
    hide ReadCompact, Finish, BaselineFits, TotalsMatch, TotalsFit, InList, Holds, ListAt, RecordedAs;
  }
}
