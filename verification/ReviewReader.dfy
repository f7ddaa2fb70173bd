/** `_required_review_checks` as it runs: errors, observed cases and identities are filled in loops. */
module ReviewReader {
  import opened Prelude
  import opened Ordering
  import opened Json
  import opened ReviewReport

  // the checks in front of both readings
  method ReadHeader(report: Object) returns (errors: seq<Problem>)
    ensures Header(report) == Reading(errors, {}, map[])
  {
    errors := [];
    if !EqualsInt(Get(report, SchemaVersion), 1) {
      errors := errors + [WrongSchema];
    }
    if Get(report, Field.Reviewer) != Str("codex-mcp-regression-suite") {
      errors := errors + [WrongReviewer];
    }
    var modes: Json;
    if Get(report, BaselineKind) != Null {
      modes := Get(report, RequiredModes);
    } else {
      modes := Get(report, Modes);
    }
    if modes != Strings(REVIEW_MODES) {
      errors := errors + [WrongModes];
    }
  }

  method CollectRequiredCases(r0: Reading, cases: seq<Json>) returns (errors: seq<Problem>, observed: set<Case>)
    ensures Reading(errors, observed, r0.results) == ScanRequiredCases(r0, cases)
  {
    errors, observed := r0.problems, r0.observed;
    for k := 0 to |cases|
      invariant Reading(errors, observed, r0.results) == ScanRequiredCases(r0, cases[..k])
    {
      assert cases[..k + 1][..k] == cases[..k];
      var c := cases[k];
      if !c.Obj? || !HasCase(c.fields) {
        errors := errors + [MalformedCase];
        continue;
      }
      var identity := CaseOf(c.fields);
      if identity in observed {
        errors := errors + [DuplicateCase];
        continue;
      }
      observed := observed + {identity};
    }
    assert cases[..|cases|] == cases;
  }

  method CollectRecords(r0: Reading, success: bool, required: set<Case>, checks: Object)
    returns (errors: seq<Problem>, identities: Results)
    ensures Reading(errors, r0.observed, identities) == ReadBucket(r0, success, required, checks)
  {
    errors, identities := r0.problems, r0.results;
    var records := Get(checks, if success then Passing else Failing);
    if !records.List? {
      errors := errors + [NoBucket(success)];
      return;
    }
    for k := 0 to |records.items|
      invariant Reading(errors, r0.observed, identities) == ScanRecords(r0, success, required, records.items[..k])
    {
      assert records.items[..k + 1][..k] == records.items[..k];
      var record := records.items[k];
      if !RecordOk(record, required) {
        errors := errors + [MalformedRecord(success)];
        continue;
      }
      var identity := RecordId(record);
      if identity in identities {
        errors := errors + [DuplicateCheck];
        continue;
      }
      identities := identities[identity := success];
    }
    assert records.items[..|records.items|] == records.items;
  }

  method CollectChecks(r0: Reading, at: Case, checks: seq<Json>)
    returns (errors: seq<Problem>, identities: Results, caseSuccess: bool)
    ensures CaseScan(Reading(errors, r0.observed, identities), caseSuccess) == ScanChecks(r0, at, checks)
  {
    errors, identities, caseSuccess := r0.problems, r0.results, true;
    for k := 0 to |checks|
      invariant CaseScan(Reading(errors, r0.observed, identities), caseSuccess) == ScanChecks(r0, at, checks[..k])
    {
      assert checks[..k + 1][..k] == checks[..k];
      var check := checks[k];
      if !CheckOk(check) {
        errors := errors + [MalformedCheck];
        continue;
      }
      var identity, success := ReviewId(at.0, at.1, Get(check.fields, Name).text), Get(check.fields, Success).flag;
      if identity in identities {
        errors := errors + [DuplicateCheck];
        continue;
      }
      identities := identities[identity := success];
      caseSuccess := caseSuccess && success;
    }
    assert checks[..|checks|] == checks;
  }

  method CollectCases(r0: Reading, required: set<Case>, cases: seq<Json>)
    returns (errors: seq<Problem>, observed: set<Case>, identities: Results)
    ensures Reading(errors, observed, identities) == ScanCases(r0, required, cases)
  {
    errors, observed, identities := r0.problems, r0.observed, r0.results;
    for k := 0 to |cases|
      invariant Reading(errors, observed, identities) == ScanCases(r0, required, cases[..k])
    {
      assert cases[..k + 1][..k] == cases[..k];
      var c := cases[k];
      if !c.Obj? {
        errors := errors + [MalformedCase];
        continue;
      }
      if !HasCase(c.fields) || CaseOf(c.fields) !in required {
        errors := errors + [UnexpectedCase];
        continue;
      }
      var at := CaseOf(c.fields);
      if at in observed {
        errors := errors + [DuplicateCase];
        continue;
      }
      observed := observed + {at};
      var checks := Get(c.fields, Checks);
      if !checks.List? || checks.items == [] {
        errors := errors + [NoChecks(at)];
        continue;
      }
      var caseSuccess;
      errors, identities, caseSuccess := CollectChecks(Reading(errors, observed, identities), at, checks.items);
      if Get(c.fields, Success) != Bool(caseSuccess) {
        errors := errors + [InconsistentCase(at)];
      }
    }
    assert cases[..|cases|] == cases;
  }

  // a loop over the sorted cases that are missing, or that are unexpected
  method AppendCases(errors0: seq<Problem>, cases: set<Case>, missing: bool) returns (errors: seq<Problem>)
    ensures forall r: Reading :: r.problems == errors0 ==> NoteCases(r, cases, missing) == r.(problems := errors)
  {
    CaseKeysArePairs(cases);
    var keys := Sorted(CaseKeys(cases));
    errors := errors0;
    for k := 0 to |keys|
      invariant errors == errors0 + CaseProblems(keys[..k], missing)
    {
      assert keys[..k + 1][..k] == keys[..k];
      var at := (keys[k][0], keys[k][1]);
      errors := errors + [if missing then CaseMissing(at) else CaseUnexpected(at)];
    }
    assert keys[..|keys|] == keys;
  }

  // the compact branch
  method ReadCompactReport(report: Object, required: set<Case>)
    returns (errors: seq<Problem>, observed: set<Case>, identities: Results)
    ensures Reading(errors, observed, identities) == ReadCompact(report, required)
  {
    hide Header, ScanRequiredCases, ReadBucket;
    errors := ReadHeader(report);
    observed, identities := {}, map[];
    if Get(report, BaselineKind) != Str(REVIEW_BASELINE_KIND) {
      errors := errors + [UnsupportedBaseline];
    }
    var rawCases := Get(report, RequiredCases);
    if rawCases.List? {
      errors, observed := CollectRequiredCases(Reading(errors, observed, identities), rawCases.items);
    } else {
      errors := errors + [NoCases];
    }
    var rawChecks := Get(report, Checks);
    if !rawChecks.Obj? {
      errors := errors + [NoIdentities];
    }
    var fields: Object := if rawChecks.Obj? then rawChecks.fields else map[];
    errors, identities := CollectRecords(Reading(errors, observed, identities), true, required, fields);
    errors, identities := CollectRecords(Reading(errors, observed, identities), false, required, fields);
  }

  // the other branch
  method ReadFullReport(report: Object, required: set<Case>)
    returns (errors: seq<Problem>, observed: set<Case>, identities: Results)
    ensures Reading(errors, observed, identities) == ReadFull(report, required)
  {
    hide Header, ScanCases;
    errors := ReadHeader(report);
    observed, identities := {}, map[];
    var rawCases := Get(report, Cases);
    if rawCases.List? {
      errors, observed, identities := CollectCases(Reading(errors, observed, identities), required, rawCases.items);
    } else {
      errors := errors + [NoCases];
    }
  }

  method RequiredReviewChecks(report: Object, required: set<Case>)
    returns (errors: seq<Problem>, observed: set<Case>, identities: Results)
    ensures Reading(errors, observed, identities) == Read(report, required)
  {
    var compact := Get(report, BaselineKind) != Null;
    if compact {
      errors, observed, identities := ReadCompactReport(report, required);
    } else {
      errors, observed, identities := ReadFullReport(report, required);
    }
    hide ReadCompact, ReadFull, NoteCases, TotalsMatch;
    errors := AppendCases(errors, required - observed, true);
    errors := AppendCases(errors, observed - required, false);
    if !TotalsMatch(Get(report, Summary), identities, observed) {
      errors := errors + [InconsistentTotals];
    }
    if !compact && Get(report, Success) != Bool(OverallSuccess(Reading(errors, observed, identities))) {
      errors := errors + [InconsistentSuccess];
    }
  }
}
