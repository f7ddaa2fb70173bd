/** What the results of a full reviewer report stand for: the checks its cases name, each with its own outcome. */
module ReviewIdentities {
  import opened Prelude
  import opened Json
  import opened ReviewReport
  import opened ReviewGate

  predicate Holds(results: Results, id: ReviewId, success: bool) {
    id in results && results[id] == success
  }

  // The check is named by the identity and has this outcome.
  predicate Names(check: Json, id: ReviewId, success: bool) {
    && check.Obj? && Get(check.fields, Name) == Str(id.checkId) && "review/" <= id.checkId
    && Get(check.fields, Success) == Bool(success)
  }

  ghost predicate NamedIn(checks: seq<Json>, id: ReviewId, success: bool) {
    exists k | 0 <= k < |checks| :: Names(checks[k], id, success)
  }

  ghost predicate NamedByCase(c: Json, id: ReviewId, success: bool) {
    && c.Obj? && Get(c.fields, Mode) == Str(id.mode) && Get(c.fields, Transport) == Str(id.transport)
    && Get(c.fields, Checks).List? && NamedIn(Get(c.fields, Checks).items, id, success)
  }

  ghost predicate NamedByCases(cases: seq<Json>, id: ReviewId, success: bool) {
    exists k | 0 <= k < |cases| :: NamedByCase(cases[k], id, success)
  }

  lemma NamedNext(checks: seq<Json>, id: ReviewId, success: bool)
    requires checks != []
    ensures NamedIn(checks, id, success) <==>
      NamedIn(checks[..|checks| - 1], id, success) || Names(checks[|checks| - 1], id, success)
  {
    var init := checks[..|checks| - 1];
    hide Names;
    if NamedIn(checks, id, success) {
      var k :| 0 <= k < |checks| && Names(checks[k], id, success);
      if k < |init| { assert Names(init[k], id, success); }
    }
    if NamedIn(init, id, success) {
      var k :| 0 <= k < |init| && Names(init[k], id, success);
      assert Names(checks[k], id, success);
    }
  }

  lemma CasesNext(cases: seq<Json>, id: ReviewId, success: bool)
    requires cases != []
    ensures NamedByCases(cases, id, success) <==>
      NamedByCases(cases[..|cases| - 1], id, success) || NamedByCase(cases[|cases| - 1], id, success)
  {
    var init := cases[..|cases| - 1];
    hide NamedByCase;
    if NamedByCases(cases, id, success) {
      var k :| 0 <= k < |cases| && NamedByCase(cases[k], id, success);
      if k < |init| { assert NamedByCase(init[k], id, success); }
    }
    if NamedByCases(init, id, success) {
      var k :| 0 <= k < |init| && NamedByCase(init[k], id, success);
      assert NamedByCase(cases[k], id, success);
    }
  }

  predicate Clean(r: Reading) {
    r.problems == []
  }

  lemma CheckStep(s: CaseScan, at: Case, check: Json, id: ReviewId, success: bool)
    requires Clean(ScanCheck(s, at, check).reading)
    ensures Clean(s.reading)
    ensures Holds(ScanCheck(s, at, check).reading.results, id, success) <==>
      Holds(s.reading.results, id, success) || (id.InCase() == at && Names(check, id, success))
  {
  }

  lemma {:induction false} ScanChecksExact(r: Reading, at: Case, checks: seq<Json>, id: ReviewId, success: bool)
    requires Clean(ScanChecks(r, at, checks).reading)
    ensures Clean(r)
    ensures Holds(ScanChecks(r, at, checks).reading.results, id, success) <==>
      Holds(r.results, id, success) || (id.InCase() == at && NamedIn(checks, id, success))
  {
    hide ScanCheck, Holds, Names, NamedIn;
    if checks == [] {
      NothingNamed(id, success);
    } else {
      var init := checks[..|checks| - 1];
      CheckStep(ScanChecks(r, at, init), at, checks[|checks| - 1], id, success);
      ScanChecksExact(r, at, init, id, success);
      NamedNext(checks, id, success);
    }
  }

  lemma NothingNamed(id: ReviewId, success: bool)
    ensures !NamedIn([], id, success) && !NamedByCases([], id, success) && !Holds(map[], id, success)
  {
  }

  lemma CaseStep(r: Reading, required: set<Case>, c: Json, id: ReviewId, success: bool)
    requires Clean(ScanCase(r, required, c))
    ensures Clean(r)
    ensures Holds(ScanCase(r, required, c).results, id, success) <==>
      Holds(r.results, id, success) || NamedByCase(c, id, success)
  {
    var at, checks := CaseOf(c.fields), Get(c.fields, Checks);
    hide ScanChecks, Holds, NamedIn;
    ScanChecksExact(r.(observed := r.observed + {at}), at, checks.items, id, success);
  }

  lemma {:induction false} ScanCasesExact(r: Reading, required: set<Case>, cases: seq<Json>, id: ReviewId,
                                          success: bool)
    requires Clean(ScanCases(r, required, cases))
    ensures Clean(r)
    ensures Holds(ScanCases(r, required, cases).results, id, success) <==>
      Holds(r.results, id, success) || NamedByCases(cases, id, success)
  {
    hide ScanCase, Holds, NamedByCases, NamedByCase;
    if cases == [] {
      NothingNamed(id, success);
    } else {
      var init := cases[..|cases| - 1];
      CaseStep(ScanCases(r, required, init), required, cases[|cases| - 1], id, success);
      ScanCasesExact(r, required, init, id, success);
      CasesNext(cases, id, success);
    }
  }

  // The results of a full report without problems are exactly the checks its cases name, each with its own outcome.
  lemma ReadingIsExact(report: Object, required: set<Case>, id: ReviewId, success: bool)
    requires Get(report, BaselineKind) == Null && Clean(Read(report, required))
    ensures Get(report, Cases).List?
    ensures Holds(Read(report, required).results, id, success) <==> NamedByCases(Get(report, Cases).items, id, success)
  {
    CleanFinish(report, required);
    HeaderEmpty(report);
    NothingNamed(id, success);
    hide Header, ScanCases, Holds, NamedByCases, Read;
    ScanCasesExact(Header(report), required, Get(report, Cases).items, id, success);
  }
}
