/** `_required_review_checks`: reading a reviewer report or a compact reviewer baseline into a map from check
    identities to success, collecting every problem on the way. The set of required (mode, transport) cases is a
    parameter. */
module ReviewReport {
  import opened Prelude
  import opened Ordering
  import opened Json

  const REVIEW_SCHEMA_VERSION := 1
  const REVIEW_BASELINE_KIND := "mcp-review-regression-baseline-v1"
  const REVIEWER := "codex-mcp-regression-suite"
  const REVIEW_MODES: seq<string> := ["2025-06-18", "2025-11-25", "2026-07-28"]
  const CHECK_PREFIX := "review/"

  type Case = (string, string)

  datatype ReviewId = ReviewId(mode: string, transport: string, checkId: string) {
    function Key(): seq<string> {
      [mode, transport, checkId]
    }

    function InCase(): Case {
      (mode, transport)
    }
  }

  type Results = map<ReviewId, bool>

  datatype Problem =
    | WrongSchema | WrongReviewer | WrongModes
    | UnsupportedBaseline | NoCases | MalformedCase | UnexpectedCase | DuplicateCase
    | NoIdentities | NoBucket(success: bool) | MalformedRecord(success: bool)
    | NoChecks(at: Case) | MalformedCheck | DuplicateCheck | InconsistentCase(at: Case)
    | CaseMissing(at: Case) | CaseUnexpected(at: Case)
    | InconsistentTotals | InconsistentSuccess

  datatype Reading = Reading(problems: seq<Problem>, observed: set<Case>, results: Results)

  function Note(r: Reading, p: Problem): Reading {
    r.(problems := r.problems + [p])
  }

  function NoteIf(r: Reading, bad: bool, p: Problem): Reading {
    if bad then Note(r, p) else r
  }

  predicate IsCheckId(j: Json) {
    j.Str? && CHECK_PREFIX <= j.text
  }

  predicate HasCase(o: Object) {
    Get(o, Mode).Str? && Get(o, Transport).Str?
  }

  function CaseOf(o: Object): Case
    requires HasCase(o)
  {
    (Get(o, Mode).text, Get(o, Transport).text)
  }

  function Header(report: Object): Reading {
    var compact := Get(report, BaselineKind) != Null;
    var r0 :=
      NoteIf(Reading([], {}, map[]), !EqualsInt(Get(report, SchemaVersion), REVIEW_SCHEMA_VERSION), WrongSchema);
    var r1 := NoteIf(r0, Get(report, Field.Reviewer) != Str(REVIEWER), WrongReviewer);
    NoteIf(r1, Get(report, if compact then RequiredModes else Modes) != Strings(REVIEW_MODES), WrongModes)
  }

  // ---------------------------------------------------------------- compact baselines

  function ScanRequiredCase(r: Reading, c: Json): Reading {
    if !c.Obj? || !HasCase(c.fields) then Note(r, MalformedCase)
    else if CaseOf(c.fields) in r.observed then Note(r, DuplicateCase)
    else r.(observed := r.observed + {CaseOf(c.fields)})
  }

  function ScanRequiredCases(r: Reading, cases: seq<Json>): Reading {
    if cases == [] then r else ScanRequiredCase(ScanRequiredCases(r, cases[..|cases| - 1]), cases[|cases| - 1])
  }

  predicate RecordOk(record: Json, required: set<Case>) {
    record.Obj? && HasCase(record.fields) && IsCheckId(Get(record.fields, Field.CheckId))
      && CaseOf(record.fields) in required
  }

  function RecordId(record: Json): ReviewId
    requires record.Obj? && HasCase(record.fields) && Get(record.fields, Field.CheckId).Str?
  {
    ReviewId(CaseOf(record.fields).0, CaseOf(record.fields).1, Get(record.fields, Field.CheckId).text)
  }

  function ScanRecord(r: Reading, success: bool, required: set<Case>, record: Json): Reading {
    if !RecordOk(record, required) then Note(r, MalformedRecord(success))
    else if RecordId(record) in r.results then Note(r, DuplicateCheck)
    else r.(results := r.results[RecordId(record) := success])
  }

  function ScanRecords(r: Reading, success: bool, required: set<Case>, records: seq<Json>): Reading {
    if records == [] then r
    else ScanRecord(ScanRecords(r, success, required, records[..|records| - 1]), success, required,
      records[|records| - 1])
  }

  function ReadBucket(r: Reading, success: bool, required: set<Case>, checks: Object): Reading {
    var records := Get(checks, if success then Passing else Failing);
    if !records.List? then Note(r, NoBucket(success)) else ScanRecords(r, success, required, records.items)
  }

  function ReadCompact(report: Object, required: set<Case>): Reading {
    var r0 := NoteIf(Header(report), Get(report, BaselineKind) != Str(REVIEW_BASELINE_KIND), UnsupportedBaseline);
    var cases := Get(report, RequiredCases);
    var r1 := if cases.List? then ScanRequiredCases(r0, cases.items) else Note(r0, NoCases);
    var checks := Get(report, Checks);
    var r2 := NoteIf(r1, !checks.Obj?, NoIdentities);
    var fields := if checks.Obj? then checks.fields else map[];
    ReadBucket(ReadBucket(r2, true, required, fields), false, required, fields)
  }

  // ---------------------------------------------------------------- full reports

  datatype CaseScan = CaseScan(reading: Reading, success: bool)

  predicate CheckOk(check: Json) {
    check.Obj? && IsCheckId(Get(check.fields, Name)) && Get(check.fields, Success).Bool?
  }

  function ScanCheck(s: CaseScan, at: Case, check: Json): CaseScan {
    if !CheckOk(check) then s.(reading := Note(s.reading, MalformedCheck))
    else
      var id, success := ReviewId(at.0, at.1, Get(check.fields, Name).text), Get(check.fields, Success).flag;
      if id in s.reading.results then s.(reading := Note(s.reading, DuplicateCheck))
      else CaseScan(s.reading.(results := s.reading.results[id := success]), s.success && success)
  }

  function ScanChecks(r: Reading, at: Case, checks: seq<Json>): CaseScan {
    if checks == [] then CaseScan(r, true)
    else ScanCheck(ScanChecks(r, at, checks[..|checks| - 1]), at, checks[|checks| - 1])
  }

  function ScanCase(r: Reading, required: set<Case>, c: Json): Reading {
    if !c.Obj? then Note(r, MalformedCase)
    else if !HasCase(c.fields) || CaseOf(c.fields) !in required then Note(r, UnexpectedCase)
    else if CaseOf(c.fields) in r.observed then Note(r, DuplicateCase)
    else
      var at := CaseOf(c.fields);
      var seen := r.(observed := r.observed + {at});
      var checks := Get(c.fields, Checks);
      if !checks.List? || checks.items == [] then Note(seen, NoChecks(at))
      else
        var s := ScanChecks(seen, at, checks.items);
        NoteIf(s.reading, Get(c.fields, Success) != Bool(s.success), InconsistentCase(at))
  }

  function ScanCases(r: Reading, required: set<Case>, cases: seq<Json>): Reading {
    if cases == [] then r else ScanCase(ScanCases(r, required, cases[..|cases| - 1]), required, cases[|cases| - 1])
  }

  function ReadFull(report: Object, required: set<Case>): Reading {
    var cases := Get(report, Cases);
    if cases.List? then ScanCases(Header(report), required, cases.items) else Note(Header(report), NoCases)
  }

  // ---------------------------------------------------------------- totals

  function PassedIds(results: Results): set<ReviewId> {
    set id | id in results && results[id]
  }

  predicate CasePassed(results: Results, c: Case) {
    && (forall id | id in results :: id.InCase() == c ==> results[id])
    && (exists id | id in results :: id.InCase() == c)
  }

  function PassedCases(results: Results, observed: set<Case>): set<Case> {
    set c | c in observed && CasePassed(results, c)
  }

  predicate TotalsMatch(summary: Json, results: Results, observed: set<Case>) {
    && summary.Obj?
    && EqualsInt(Get(summary.fields, Passed), |PassedIds(results)|)
    && EqualsInt(Get(summary.fields, Failed), |results| - |PassedIds(results)|)
    && EqualsInt(Get(summary.fields, Total), |results|)
    && EqualsInt(Get(summary.fields, CasesPassed), |PassedCases(results, observed)|)
    && EqualsInt(Get(summary.fields, CasesTotal), |observed|)
  }

  predicate OverallSuccess(r: Reading) {
    r.observed != {} && forall id | id in r.results :: r.results[id]
  }

  type Keys = seq<seq<string>>

  function CaseKeys(cases: set<Case>): set<seq<string>> {
    set c | c in cases :: [c.0, c.1]
  }

  predicate ArePairs(keys: Keys) {
    forall k | 0 <= k < |keys| :: |keys[k]| == 2
  }

  lemma CaseKeysArePairs(cases: set<Case>)
    ensures ArePairs(Sorted(CaseKeys(cases)))
  {
    var keys := Sorted(CaseKeys(cases));
    SortedIsSorted(CaseKeys(cases));
    assert forall k | 0 <= k < |keys| :: keys[k] in keys;
  }

  // one problem for each listed case
  function CaseProblems(keys: Keys, missing: bool): (problems: seq<Problem>)
    requires ArePairs(keys)
    ensures |problems| == |keys|
  {
    if keys == [] then []
    else
      var init, at := CaseProblems(keys[..|keys| - 1], missing), (keys[|keys| - 1][0], keys[|keys| - 1][1]);
      init + [if missing then CaseMissing(at) else CaseUnexpected(at)]
  }

  // in sorted order, as `sorted` of a set of pairs puts them
  function NoteCases(r: Reading, cases: set<Case>, missing: bool): Reading {
    CaseKeysArePairs(cases);
    r.(problems := r.problems + CaseProblems(Sorted(CaseKeys(cases)), missing))
  }

  lemma NoteNoCases(r: Reading, cases: set<Case>, missing: bool)
    ensures NoteCases(r, cases, missing).problems == [] <==> r.problems == [] && cases == {}
    ensures cases == {} ==> NoteCases(r, cases, missing) == r
    ensures NoteCases(r, cases, missing).results == r.results && NoteCases(r, cases, missing).observed == r.observed
  {
    CaseKeysArePairs(cases);
    SortedIsSorted(CaseKeys(cases));
    if cases != {} {
      var c :| c in cases;
      assert [c.0, c.1] in CaseKeys(cases);
    } else {
      assert CaseKeys(cases) == {};
    }
  }

  function Finish(r: Reading, report: Object, required: set<Case>): Reading {
    var r1 := NoteCases(r, required - r.observed, true);
    var r2 := NoteCases(r1, r.observed - required, false);
    var r3 := NoteIf(r2, !TotalsMatch(Get(report, Summary), r.results, r.observed), InconsistentTotals);
    NoteIf(r3, Get(report, BaselineKind) == Null && Get(report, Success) != Bool(OverallSuccess(r)),
      InconsistentSuccess)
  }

  function Read(report: Object, required: set<Case>): Reading {
    Finish(if Get(report, BaselineKind) != Null then ReadCompact(report, required) else ReadFull(report, required),
      report, required)
  }
}
