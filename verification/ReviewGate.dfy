/** `_compact_review_regression_baseline` and `_evaluate_review_regression_gate`.
    Lists of identities are lists of their sort keys: mode, transport and check id. */
module ReviewGate {
  import opened Prelude
  import opened Ordering
  import opened Json
  import opened ReviewReport
  import opened ReviewReader

  function KeySet(ids: set<ReviewId>): (keys: set<seq<string>>) {
    set id | id in ids :: id.Key()
  }

  predicate AreKeys(keys: Keys) {
    forall k | 0 <= k < |keys| :: |keys[k]| == 3
  }

  function FromKey(key: seq<string>): ReviewId
    requires |key| == 3
  {
    ReviewId(key[0], key[1], key[2])
  }

  lemma KeySetMember(ids: set<ReviewId>, id: ReviewId)
    ensures id.Key() in KeySet(ids) <==> id in ids
  {
    if id.Key() in KeySet(ids) {
      var i :| i in ids && i.Key() == id.Key();
      assert i == FromKey(i.Key()) && id == FromKey(id.Key());
    }
  }

  // sorted(ids)
  function Listing(ids: set<ReviewId>): Keys {
    Sorted(KeySet(ids))
  }

  lemma ListingMembers(ids: set<ReviewId>)
    ensures AreKeys(Listing(ids)) && StrictlySorted(Listing(ids))
    ensures forall k | 0 <= k < |Listing(ids)| :: |Listing(ids)[k]| == 3 && FromKey(Listing(ids)[k]) in ids
    ensures forall id: ReviewId :: id.Key() in Listing(ids) <==> id in ids
  {
    var keys := Listing(ids);
    SortedIsSorted(KeySet(ids));
    forall k | 0 <= k < |keys| ensures |keys[k]| == 3 && FromKey(keys[k]) in ids {
      assert keys[k] in keys;
      var id :| id in ids && id.Key() == keys[k];
      assert FromKey(keys[k]) == id;
    }
    forall id: ReviewId ensures id.Key() in keys <==> id in ids {
      KeySetMember(ids, id);
    }
  }

  // ---------------------------------------------------------------- the gate

  // What the gate looks at: what reading a report gives.
  datatype Evidence = Evidence(problems: seq<Problem>, results: Results)

  function Examine(report: Object, required: set<Case>): Evidence {
    var r := Read(report, required);
    Evidence(r.problems, r.results)
  }

  datatype Side = Baseline | Candidate
  datatype GateError = Unreadable(side: Side, problem: Problem)
  datatype Verdict = Verdict(success: bool, errors: seq<GateError>, known: Keys, newFailures: Keys, missing: Keys,
    fixed: Keys)

  function Tag(side: Side, problems: seq<Problem>): seq<GateError> {
    if problems == [] then []
    else Tag(side, problems[..|problems| - 1]) + [Unreadable(side, problems[|problems| - 1])]
  }

  predicate Fails(results: Results, id: ReviewId) {
    id in results && !results[id]
  }

  function KnownFailures(c: Results, b: Results): set<ReviewId> {
    set id | id in c && Fails(c, id) && Fails(b, id)
  }

  function NewFailures(c: Results, b: Results): set<ReviewId> {
    set id | id in c && Fails(c, id) && !Fails(b, id)
  }

  function MissingChecks(c: Results, b: Results): set<ReviewId> {
    set id | id in b && id !in c
  }

  function FixedChecks(c: Results, b: Results): set<ReviewId> {
    set id | id in b && id in c && !b[id] && c[id]
  }

  function Gate(c: Evidence, b: Evidence): Verdict {
    var errors := Tag(Baseline, b.problems) + Tag(Candidate, c.problems);
    var newFailures, missing := Listing(NewFailures(c.results, b.results)),
      Listing(MissingChecks(c.results, b.results));
    Verdict(errors == [] && newFailures == [] && missing == [], errors,
            Listing(KnownFailures(c.results, b.results)), newFailures, missing,
              Listing(FixedChecks(c.results, b.results)))
  }

  lemma LoopEnd(ids: Results, chosen: set<ReviewId>)
    requires chosen <= ids.Keys
    ensures Kept(Listing(ids.Keys)[..0], KeySet(chosen)) == []
    ensures Kept(Listing(ids.Keys)[..|Listing(ids.Keys)|], KeySet(chosen)) == Listing(chosen)
  {
    assert Listing(ids.Keys)[..|Listing(ids.Keys)|] == Listing(ids.Keys);
    KeptIsSorted(KeySet(ids.Keys), KeySet(chosen));
  }

  // What one round of a loop adds to one of the lists.
  lemma LoopNext(ids: Results, chosen: set<ReviewId>, k: nat)
    requires k < |Listing(ids.Keys)|
    ensures |Listing(ids.Keys)[k]| == 3 && FromKey(Listing(ids.Keys)[k]) in ids
    ensures var keys := Listing(ids.Keys);
      Kept(keys[..k + 1], KeySet(chosen)) ==
        Kept(keys[..k], KeySet(chosen)) + (if FromKey(keys[k]) in chosen then [keys[k]] else [])
  {
    ListingMembers(ids.Keys);
    var keys := Listing(ids.Keys);
    assert FromKey(keys[k]).Key() == keys[k];
    KeySetMember(chosen, FromKey(keys[k]));
    KeptNext(keys, KeySet(chosen), k);
  }

  method ScanCandidate(c: Results, b: Results) returns (known: Keys, newFailures: Keys)
    ensures known == Listing(KnownFailures(c, b)) && newFailures == Listing(NewFailures(c, b))
  {
    known, newFailures := [], [];
    var items := Listing(c.Keys);
    LoopEnd(c, KnownFailures(c, b));
    LoopEnd(c, NewFailures(c, b));
    hide Listing, Kept, KeySet;
    for k := 0 to |items|
      invariant known == Kept(items[..k], KeySet(KnownFailures(c, b)))
      invariant newFailures == Kept(items[..k], KeySet(NewFailures(c, b)))
    {
      LoopNext(c, KnownFailures(c, b), k);
      LoopNext(c, NewFailures(c, b), k);
      var identity := FromKey(items[k]);
      if c[identity] {
        continue;
      }
      if Fails(b, identity) {
        known := known + [items[k]];
      } else {
        newFailures := newFailures + [items[k]];
      }
    }
  }

  method ScanBaseline(c: Results, b: Results) returns (missing: Keys, fixed: Keys)
    ensures missing == Listing(MissingChecks(c, b)) && fixed == Listing(FixedChecks(c, b))
  {
    missing, fixed := [], [];
    var items := Listing(b.Keys);
    LoopEnd(b, MissingChecks(c, b));
    LoopEnd(b, FixedChecks(c, b));
    hide Listing, Kept, KeySet;
    for k := 0 to |items|
      invariant missing == Kept(items[..k], KeySet(MissingChecks(c, b)))
      invariant fixed == Kept(items[..k], KeySet(FixedChecks(c, b)))
    {
      LoopNext(b, MissingChecks(c, b), k);
      LoopNext(b, FixedChecks(c, b), k);
      var identity := FromKey(items[k]);
      if identity !in c {
        missing := missing + [items[k]];
      } else if !b[identity] && c[identity] {
        fixed := fixed + [items[k]];
      }
    }
  }

  method EvaluateReviewGate(candidate: Object, baseline: Object, required: set<Case>) returns (v: Verdict)
    ensures v == Gate(Examine(candidate, required), Examine(baseline, required))
  {
    var baselineProblems, _, b := RequiredReviewChecks(baseline, required);
    var candidateProblems, _, c := RequiredReviewChecks(candidate, required);
    var errors := Tag(Baseline, baselineProblems) + Tag(Candidate, candidateProblems);
    var known, newFailures := ScanCandidate(c, b);
    var missing, fixed := ScanBaseline(c, b);
    v := Verdict(errors == [] && newFailures == [] && missing == [], errors, known, newFailures, missing, fixed);
  }

  // ---------------------------------------------------------------- the gate as an order

  predicate Accepts(candidate: Evidence, baseline: Evidence) {
    Gate(candidate, baseline).success
  }

  ghost predicate NoRegression(c: Results, b: Results) {
    && (forall id | Fails(c, id) :: Fails(b, id))
    && (forall id | id in b :: id in c)
  }

  lemma EmptyListing(ids: set<ReviewId>)
    ensures Listing(ids) == [] <==> ids == {}
  {
    ListingMembers(ids);
    if ids != {} {
      var id :| id in ids;
      assert id.Key() in Listing(ids);
    }
  }

  lemma NoRegressionMeaning(c: Results, b: Results)
    ensures NoRegression(c, b) <==> NewFailures(c, b) == {} && MissingChecks(c, b) == {}
  {
    if NewFailures(c, b) == {} && MissingChecks(c, b) == {} {
      forall id | Fails(c, id) ensures Fails(b, id) { assert id !in NewFailures(c, b); }
      forall id | id in b ensures id in c { assert id !in MissingChecks(c, b); }
    }
  }

  // The gate passes exactly when both reports read cleanly, every failure is an old one and no check is lost.
  lemma AcceptsMeaning(c: Evidence, b: Evidence)
    ensures Accepts(c, b) <==> c.problems == [] && b.problems == [] && NoRegression(c.results, b.results)
  {
    NoRegressionMeaning(c.results, b.results);
    EmptyListing(NewFailures(c.results, b.results));
    EmptyListing(MissingChecks(c.results, b.results));
  }

  lemma {:induction false} TagMeaning(side: Side, problems: seq<Problem>, e: GateError)
    ensures e in Tag(side, problems) <==> e.side == side && e.problem in problems
  {
    if problems != [] { TagMeaning(side, problems[..|problems| - 1], e); }
  }

  // Which checks and which problems the gate lists.
  lemma ListsMeaning(c: Evidence, b: Evidence, id: ReviewId, e: GateError)
    ensures var v, now, before := Gate(c, b), c.results, b.results;
      && (id.Key() in v.newFailures <==> id in now && !now[id] && (id in before ==> before[id]))
      && (id.Key() in v.known <==> id in now && !now[id] && id in before && !before[id])
      && (id.Key() in v.missing <==> id in before && id !in now)
      && (id.Key() in v.fixed <==> id in before && !before[id] && id in now && now[id])
      && (e in v.errors <==> e.problem in (if e.side == Baseline then b.problems else c.problems))
  {
    ListingMembers(NewFailures(c.results, b.results));
    ListingMembers(KnownFailures(c.results, b.results));
    ListingMembers(MissingChecks(c.results, b.results));
    ListingMembers(FixedChecks(c.results, b.results));
    TagMeaning(Baseline, b.problems, e);
    TagMeaning(Candidate, c.problems, e);
    hide Listing, Tag;
  }

  lemma AcceptsReflexive(e: Evidence)
    ensures Accepts(e, e) <==> e.problems == []
  {
    AcceptsMeaning(e, e);
  }

  lemma AcceptsTransitive(a: Evidence, b: Evidence, c: Evidence)
    requires Accepts(b, a) && Accepts(c, b)
    ensures Accepts(c, a)
  {
    AcceptsMeaning(b, a);
    AcceptsMeaning(c, b);
    AcceptsMeaning(c, a);
  }

  // ---------------------------------------------------------------- compaction

  // asdict(identity)
  function AsDict(key: seq<string>): Json
    requires |key| == 3
  {
    Obj(map[Mode := Str(key[0]), Transport := Str(key[1]), Field.CheckId := Str(key[2])])
  }

  function AsDicts(keys: Keys): seq<Json>
    requires AreKeys(keys)
  {
    seq(|keys|, i requires 0 <= i < |keys| => AsDict(keys[i]))
  }

  // {"mode": mode, "transport": transport}
  function CaseDict(c: seq<string>): Json
    requires |c| == 2
  {
    Obj(map[Mode := Str(c[0]), Transport := Str(c[1])])
  }

  function CaseDicts(keys: Keys): seq<Json>
    requires ArePairs(keys)
  {
    seq(|keys|, i requires 0 <= i < |keys| => CaseDict(keys[i]))
  }

  function WithResult(results: Results, success: bool): set<ReviewId> {
    set id | id in results && results[id] == success
  }

  function CompactForm(summary: Json, results: Results, required: set<Case>): Object
    requires summary.Obj?
  {
    ListingMembers(WithResult(results, true));
    ListingMembers(WithResult(results, false));
    CaseKeysArePairs(required);
    map[
      BaselineKind := Str(REVIEW_BASELINE_KIND),
      SchemaVersion := Num(REVIEW_SCHEMA_VERSION as real),
      Field.Reviewer := Str(REVIEWER),
      RequiredModes := Strings(REVIEW_MODES),
      RequiredCases := List(CaseDicts(Sorted(CaseKeys(required)))),
      Summary := Obj(map[
        Passed := Get(summary.fields, Passed), Failed := Get(summary.fields, Failed),
          Total := Get(summary.fields, Total),
        CasesPassed := Get(summary.fields, CasesPassed), CasesTotal := Get(summary.fields, CasesTotal)]),
      Checks := Obj(map[
        Passing := List(AsDicts(Listing(WithResult(results, true)))),
        Failing := List(AsDicts(Listing(WithResult(results, false))))])]
  }

  function CompactBaseline(report: Object, required: set<Case>): Result<Object, seq<Problem>> {
    var r := Read(report, required);
    if r.problems != [] then Err(r.problems)
    else
      CleanFinish(report, required);
      Ok(CompactForm(Get(report, Summary), r.results, required))
  }

  // Exactly the reports that are read without problems can be compacted.
  lemma CompactionSucceeds(report: Object, required: set<Case>)
    ensures CompactBaseline(report, required).Ok? <==> Read(report, required).problems == []
    ensures CompactBaseline(report, required).Err? ==>
      CompactBaseline(report, required).error == Read(report, required).problems
  {
    hide Read, CompactForm;
  }

  // ---------------------------------------------------------------- what a clean reading establishes

  function ReadBody(report: Object, required: set<Case>): Reading {
    if Get(report, BaselineKind) != Null then ReadCompact(report, required) else ReadFull(report, required)
  }

  lemma CleanFinish(report: Object, required: set<Case>)
    requires Read(report, required).problems == []
    ensures ReadBody(report, required).problems == []
    ensures ReadBody(report, required).observed == required
    ensures Read(report, required).results == ReadBody(report, required).results
    ensures TotalsMatch(Get(report, Summary), Read(report, required).results, required)
  {
    var r := ReadBody(report, required);
    NoteNoCases(r, required - r.observed, true);
    NoteNoCases(NoteCases(r, required - r.observed, true), r.observed - required, false);
    hide ReadCompact, ReadFull, TotalsMatch, OverallSuccess, NoteCases;
    if required - r.observed == {} && r.observed - required == {} {
      assert r.observed == required;
    }
  }

  ghost predicate WellFormed(results: Results, required: set<Case>) {
    forall id | id in results :: CHECK_PREFIX <= id.checkId && id.InCase() in required
  }

  lemma {:induction false} ScanRecordsWellFormed(r: Reading, success: bool, required: set<Case>, records: seq<Json>)
    requires WellFormed(r.results, required)
    ensures WellFormed(ScanRecords(r, success, required, records).results, required)
  {
    if records != [] { ScanRecordsWellFormed(r, success, required, records[..|records| - 1]); }
  }

  lemma {:induction false} ScanChecksWellFormed(r: Reading, at: Case, required: set<Case>, checks: seq<Json>)
    requires WellFormed(r.results, required) && at in required
    ensures WellFormed(ScanChecks(r, at, checks).reading.results, required)
  {
    if checks != [] { ScanChecksWellFormed(r, at, required, checks[..|checks| - 1]); }
  }

  lemma {:induction false} ScanCasesWellFormed(r: Reading, required: set<Case>, cases: seq<Json>)
    requires WellFormed(r.results, required)
    ensures WellFormed(ScanCases(r, required, cases).results, required)
  {
    if cases != [] {
      var init, c := cases[..|cases| - 1], cases[|cases| - 1];
      ScanCasesWellFormed(r, required, init);
      var s := ScanCases(r, required, init);
      if c.Obj? && HasCase(c.fields) && CaseOf(c.fields) in required && Get(c.fields, Checks).List? {
        var at := CaseOf(c.fields);
        ScanChecksWellFormed(s.(observed := s.observed + {at}), at, required, Get(c.fields, Checks).items);
      }
    }
  }

  lemma {:induction false} ScanRequiredCasesKeepsResults(r: Reading, cases: seq<Json>)
    ensures ScanRequiredCases(r, cases).results == r.results
  {
    if cases != [] { ScanRequiredCasesKeepsResults(r, cases[..|cases| - 1]); }
  }

  // Every identity that reading yields belongs to a required case and names a reviewer check.
  lemma ReadWellFormed(report: Object, required: set<Case>)
    ensures WellFormed(Read(report, required).results, required)
  {
    if Get(report, BaselineKind) != Null {
      ReadCompactWellFormed(report, required);
    } else if Get(report, Cases).List? {
      ScanCasesWellFormed(Header(report), required, Get(report, Cases).items);
    }
  }

  lemma BucketWellFormed(r: Reading, success: bool, required: set<Case>, checks: Object)
    requires WellFormed(r.results, required)
    ensures WellFormed(ReadBucket(r, success, required, checks).results, required)
  {
    var records := Get(checks, if success then Passing else Failing);
    if records.List? { ScanRecordsWellFormed(r, success, required, records.items); }
  }

  lemma ReadCompactWellFormed(report: Object, required: set<Case>)
    ensures WellFormed(ReadCompact(report, required).results, required)
  {
    hide ReadBucket, ScanRequiredCases, Header;
    var r0 := NoteIf(Header(report), Get(report, BaselineKind) != Str(REVIEW_BASELINE_KIND), UnsupportedBaseline);
    var cases := Get(report, RequiredCases);
    if cases.List? { ScanRequiredCasesKeepsResults(r0, cases.items); }
    var r1 := if cases.List? then ScanRequiredCases(r0, cases.items) else Note(r0, NoCases);
    var checks := Get(report, Checks);
    var r2 := NoteIf(r1, !checks.Obj?, NoIdentities);
    var fields := if checks.Obj? then checks.fields else map[];
    HeaderEmpty(report);
    BucketWellFormed(r2, true, required, fields);
    BucketWellFormed(ReadBucket(r2, true, required, fields), false, required, fields);
  }

  lemma HeaderEmpty(report: Object)
    ensures Header(report).results == map[] && Header(report).observed == {}
  {
  }

  // ---------------------------------------------------------------- reading back

  function AddAll(results: Results, ids: set<ReviewId>, success: bool): Results {
    map id | id in results.Keys + ids :: if id in ids then success else results[id]
  }

  lemma {:induction false} ScanOwnRecords(r: Reading, success: bool, required: set<Case>, keys: Keys)
    requires AreKeys(keys) && StrictlySorted(keys)
    requires forall k | 0 <= k < |keys| ::
      FromKey(keys[k]) !in r.results && CHECK_PREFIX <= keys[k][2] && FromKey(keys[k]).InCase() in required
    ensures ScanRecords(r, success, required, AsDicts(keys)) == r.(results := AddAll(r.results, Members(keys), success))
  {
    if keys == [] {
      assert AddAll(r.results, {}, success) == r.results;
    } else {
      var init, last := keys[..|keys| - 1], keys[|keys| - 1];
      ScanOwnRecords(r, success, required, init);
      assert AsDicts(keys)[..|keys| - 1] == AsDicts(init);
      RecordRoundTrip(last, required);
      MembersNext(keys);
      AddAllNext(r.results, Members(init), FromKey(last), success);
    }
  }

  lemma RecordRoundTrip(key: seq<string>, required: set<Case>)
    requires |key| == 3
    ensures RecordOk(AsDict(key), required) <==> CHECK_PREFIX <= key[2] && FromKey(key).InCase() in required
    ensures RecordId(AsDict(key)) == FromKey(key)
  {
  }

  function Members(keys: Keys): set<ReviewId>
    requires AreKeys(keys)
  {
    set k | 0 <= k < |keys| :: FromKey(keys[k])
  }

  lemma MembersNext(keys: Keys)
    requires AreKeys(keys) && StrictlySorted(keys) && keys != []
    ensures Members(keys) == Members(keys[..|keys| - 1]) + {FromKey(keys[|keys| - 1])}
    ensures FromKey(keys[|keys| - 1]) !in Members(keys[..|keys| - 1])
  {
    var last := |keys| - 1;
    forall k | 0 <= k < last ensures FromKey(keys[k]) != FromKey(keys[last]) {
      StrictlySortedDistinct(keys, k, last);
      assert FromKey(keys[k]).Key() == keys[k] && FromKey(keys[last]).Key() == keys[last];
    }
  }

  lemma AddAllNext(results: Results, ids: set<ReviewId>, id: ReviewId, success: bool)
    ensures AddAll(results, ids, success)[id := success] == AddAll(results, ids + {id}, success)
  {
  }

  lemma ListingIsSet(ids: set<ReviewId>)
    ensures AreKeys(Listing(ids)) && Members(Listing(ids)) == ids
  {
    ListingMembers(ids);
    var keys := Listing(ids);
    forall id | id in ids ensures id in Members(keys) {
      assert id.Key() in keys;
      var k :| 0 <= k < |keys| && keys[k] == id.Key();
      assert FromKey(keys[k]) == id;
    }
  }

  lemma BucketOwn(r: Reading, success: bool, required: set<Case>, ids: set<ReviewId>, checks: Object)
    requires AreKeys(Listing(ids)) && Get(checks, if success then Passing else Failing) == List(AsDicts(Listing(ids)))
    requires forall id | id in ids :: id !in r.results && CHECK_PREFIX <= id.checkId && id.InCase() in required
    ensures ReadBucket(r, success, required, checks) == r.(results := AddAll(r.results, ids, success))
  {
    ListingMembers(ids);
    ListingIsSet(ids);
    var keys := Listing(ids);
    hide Listing;
    forall k | 0 <= k < |keys|
      ensures FromKey(keys[k]) !in r.results && CHECK_PREFIX <= keys[k][2] && FromKey(keys[k]).InCase() in required
    {
      assert FromKey(keys[k]) in ids;
    }
    ScanOwnRecords(r, success, required, keys);
  }

  lemma BucketsTogether(results: Results)
    ensures AddAll(AddAll(map[], WithResult(results, true), true), WithResult(results, false), false) == results
  {
  }

  lemma {:induction false} ScanOwnCases(r: Reading, keys: Keys)
    requires ArePairs(keys) && StrictlySorted(keys)
    requires forall k | 0 <= k < |keys| :: (keys[k][0], keys[k][1]) !in r.observed
    ensures ScanRequiredCases(r, CaseDicts(keys)) == r.(observed := r.observed + PairSet(keys))
  {
    if keys == [] {
      assert r.observed + {} == r.observed;
    } else {
      var init, last := keys[..|keys| - 1], keys[|keys| - 1];
      ScanOwnCases(r, init);
      PairSetNext(keys);
      CaseRoundTrip(last);
      hide CaseDict, HasCase, CaseOf, PairSet;
      assert CaseDicts(keys)[..|keys| - 1] == CaseDicts(init);
      assert r.observed + PairSet(keys) == r.observed + PairSet(init) + {(last[0], last[1])};
    }
  }

  lemma CaseRoundTrip(key: seq<string>)
    requires |key| == 2
    ensures CaseDict(key).Obj? && HasCase(CaseDict(key).fields) && CaseOf(CaseDict(key).fields) == (key[0], key[1])
  {
  }

  lemma PairSetNext(keys: Keys)
    requires ArePairs(keys) && StrictlySorted(keys) && keys != []
    ensures var last := keys[|keys| - 1];
      PairSet(keys) == PairSet(keys[..|keys| - 1]) + {(last[0], last[1])}
        && (last[0], last[1]) !in PairSet(keys[..|keys| - 1])
  {
    var last := |keys| - 1;
    forall k | 0 <= k < last ensures (keys[k][0], keys[k][1]) != (keys[last][0], keys[last][1]) {
      StrictlySortedDistinct(keys, k, last);
      assert keys[k] == [keys[k][0], keys[k][1]] && keys[last] == [keys[last][0], keys[last][1]];
    }
  }

  function PairSet(keys: Keys): set<Case>
    requires ArePairs(keys)
  {
    set k | 0 <= k < |keys| :: (keys[k][0], keys[k][1])
  }

  lemma PairsAreCases(cases: set<Case>)
    ensures ArePairs(Sorted(CaseKeys(cases))) && PairSet(Sorted(CaseKeys(cases))) == cases
  {
    CaseKeysArePairs(cases);
    SortedIsSorted(CaseKeys(cases));
    var keys := Sorted(CaseKeys(cases));
    forall c | c in cases ensures c in PairSet(keys) {
      assert [c.0, c.1] in keys;
      var k :| 0 <= k < |keys| && keys[k] == [c.0, c.1];
    }
    forall c | c in PairSet(keys) ensures c in cases {
      var k :| 0 <= k < |keys| && (keys[k][0], keys[k][1]) == c;
      assert keys[k] in keys;
      var d :| d in cases && [d.0, d.1] == keys[k];
      assert d.0 == keys[k][0] && d.1 == keys[k][1];
    }
  }

  lemma CompactFormFields(summary: Json, results: Results, required: set<Case>)
    requires summary.Obj?
    ensures var c := CompactForm(summary, results, required);
      && AreKeys(Listing(WithResult(results, true))) && AreKeys(Listing(WithResult(results, false)))
      && ArePairs(Sorted(CaseKeys(required)))
      && Header(c) == Reading([], {}, map[])
      && Get(c, BaselineKind) == Str(REVIEW_BASELINE_KIND)
      && Get(c, RequiredCases) == List(CaseDicts(Sorted(CaseKeys(required))))
      && Get(c, Checks).Obj?
      && Get(Get(c, Checks).fields, Passing) == List(AsDicts(Listing(WithResult(results, true))))
      && Get(Get(c, Checks).fields, Failing) == List(AsDicts(Listing(WithResult(results, false))))
      && Get(c, Summary).Obj?
      && forall f | f in {Passed, Failed, Total, CasesPassed, CasesTotal} ::
          Get(Get(c, Summary).fields, f) == Get(summary.fields, f)
  {
    ListingMembers(WithResult(results, true));
    ListingMembers(WithResult(results, false));
    CaseKeysArePairs(required);
    hide Listing, Sorted, AsDicts, CaseDicts, Strings;
  }

  lemma ReadCompactForm(summary: Json, results: Results, required: set<Case>)
    requires summary.Obj? && WellFormed(results, required)
    ensures ReadCompact(CompactForm(summary, results, required), required) == Reading([], required, results)
  {
    var c := CompactForm(summary, results, required);
    CompactFormFields(summary, results, required);
    PairsAreCases(required);
    SortedIsSorted(CaseKeys(required));
    BucketsTogether(results);
    var passing, failing := WithResult(results, true), WithResult(results, false);
    hide CompactForm, Listing, Sorted, AsDicts, CaseDicts, ReadBucket, ScanRequiredCases, Header, AddAll, Members;
    ScanOwnCases(Reading([], {}, map[]), Sorted(CaseKeys(required)));
    var checks := Get(c, Checks).fields;
    var r2 := Reading([], {} + required, map[]);
    assert {} + required == required;
    BucketOwn(r2, true, required, passing, checks);
    AddAllKeys(map[], passing, true);
    BucketOwn(r2.(results := AddAll(map[], passing, true)), false, required, failing, checks);
  }

  lemma AddAllKeys(results: Results, ids: set<ReviewId>, success: bool)
    ensures AddAll(results, ids, success).Keys == results.Keys + ids
  {
  }

  // If compaction succeeds, reading its output back gives no problem and exactly the same results.
  lemma CompactReread(report: Object, required: set<Case>)
    requires CompactBaseline(report, required).Ok?
    ensures Examine(CompactBaseline(report, required).value, required) == Examine(report, required)
  {
    var summary, results := Get(report, Summary), Read(report, required).results;
    CleanFinish(report, required);
    ReadWellFormed(report, required);
    ReadCompactForm(summary, results, required);
    CompactFormFields(summary, results, required);
    var c := CompactForm(summary, results, required);
    assert required - required == {};
    NoteNoCases(Reading([], required, results), {}, true);
    NoteNoCases(Reading([], required, results), {}, false);
    hide ReadCompact, ReadFull, CompactForm, PassedIds, PassedCases, NoteCases;
    assert Read(c, required) == Finish(Reading([], required, results), c, required);
    assert TotalsMatch(Get(c, Summary), results, required);
  }

  // Hence a gate cannot tell a report from its compact baseline.
  lemma CompactionKeepsVerdict(candidate: Evidence, report: Object, required: set<Case>)
    requires CompactBaseline(report, required).Ok?
    ensures Gate(candidate, Examine(CompactBaseline(report, required).value, required)) ==
      Gate(candidate, Examine(report, required))
  {
    CompactReread(report, required);
  }

  // Compacting a compact baseline changes nothing.
  lemma CompactionIdempotent(report: Object, required: set<Case>)
    requires CompactBaseline(report, required).Ok?
    ensures CompactBaseline(CompactBaseline(report, required).value, required) == CompactBaseline(report, required)
  {
    var compact := CompactBaseline(report, required).value;
    CompactReread(report, required);
    CleanFinish(report, required);
    var summary, results := Get(report, Summary), Read(report, required).results;
    CompactFormFields(summary, results, required);
    SameSummary(summary, Get(compact, Summary), results, required);
    hide Read, CompactForm;
  }

  lemma SameSummary(a: Json, b: Json, results: Results, required: set<Case>)
    requires a.Obj? && b.Obj?
    requires forall f | f in {Passed, Failed, Total, CasesPassed, CasesTotal} :: Get(b.fields, f) == Get(a.fields, f)
    ensures CompactForm(b, results, required) == CompactForm(a, results, required)
  {
    ListingMembers(WithResult(results, true));
    ListingMembers(WithResult(results, false));
    CaseKeysArePairs(required);
    hide Listing, Sorted, AsDicts, CaseDicts, Strings;
  }

  // ---------------------------------------------------------------- chains

  // Every report but the first was accepted against its predecessor.
  ghost predicate Ratchet(chain: seq<Evidence>) {
    forall k | 0 <= k < |chain| - 1 :: Accepts(chain[k + 1], chain[k])
  }

  lemma {:induction false} RatchetAccepts(chain: seq<Evidence>, i: nat, j: nat)
    requires Ratchet(chain) && i < j < |chain|
    ensures Accepts(chain[j], chain[i])
    decreases j
  {
    hide Accepts;
    assert Accepts(chain[(j - 1) + 1], chain[j - 1]);
    if i < j - 1 {
      RatchetAccepts(chain, i, j - 1);
      AcceptsTransitive(chain[i], chain[j - 1], chain[j]);
    }
  }

  // Ratcheting never loses a passing check and never lets a new failure in.
  lemma RatchetIsSafe(chain: seq<Evidence>)
    requires Ratchet(chain) && |chain| > 0
    ensures var first, last := chain[0].results, chain[|chain| - 1].results;
      && (forall id | id in first && first[id] :: id in last && last[id])
      && (forall id | Fails(last, id) :: Fails(first, id))
  {
    hide Accepts;
    if |chain| > 1 {
      RatchetAccepts(chain, 0, |chain| - 1);
      AcceptsMeaning(chain[|chain| - 1], chain[0]);
      var first, last := chain[0].results, chain[|chain| - 1].results;
      forall id | id in first && first[id] ensures id in last && last[id] {
        assert !Fails(first, id) && !Fails(last, id);
      }
    }
  }

  ghost predicate AcceptedAfter(candidate: Object, baseline: Object, required: set<Case>) {
    var c := Examine(candidate, required);
    || Accepts(c, Examine(baseline, required))
    || (CompactBaseline(baseline, required).Ok?
        && Accepts(c, Examine(CompactBaseline(baseline, required).value, required)))
  }

  function ExamineAll(reports: seq<Object>, required: set<Case>): seq<Evidence> {
    seq(|reports|, k requires 0 <= k < |reports| => Examine(reports[k], required))
  }

  // A chain of reports is such a ratchet even when any of the baselines were compacted first.
  lemma CompactedChainsRatchet(reports: seq<Object>, required: set<Case>)
    requires forall k | 0 <= k < |reports| - 1 :: AcceptedAfter(reports[k + 1], reports[k], required)
    ensures Ratchet(ExamineAll(reports, required))
  {
    hide Examine, Accepts, CompactBaseline;
    forall k | 0 <= k < |reports| - 1
      ensures Accepts(Examine(reports[k + 1], required), Examine(reports[k], required)) {
      assert AcceptedAfter(reports[k + 1], reports[k], required);
      if CompactBaseline(reports[k], required).Ok? {
        CompactReread(reports[k], required);
      }
    }
  }
}
