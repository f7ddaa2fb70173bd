/** `_evaluate_regression_gate` and `_compact_regression_baseline`. */
module RegressionGate {
  import opened Prelude
  import opened Ordering
  import opened Json
  import opened RegressionReport
  import opened RegressionReader

  // ---------------------------------------------------------------- sorted identity lists

  function FromKey(key: seq<string>): Identity
    requires |key| == 5
  {
    Identity(key[0], key[1], key[2], key[3], key[4])
  }

  predicate IdLess(a: Identity, b: Identity) {
    TupleLess(a.Key(), b.Key())
  }

  predicate SortedIdentities(ids: seq<Identity>) {
    forall i, j | 0 <= i < j < |ids| :: IdLess(ids[i], ids[j])
  }

  function KeySet(ids: set<Identity>): set<seq<string>> {
    set i | i in ids :: i.Key()
  }

  predicate AreKeys(keys: seq<seq<string>>) {
    forall k | 0 <= k < |keys| :: |keys[k]| == 5
  }

  lemma KeysAreKeys(ids: set<Identity>)
    ensures AreKeys(Sorted(KeySet(ids)))
  {
    var keys := Sorted(KeySet(ids));
    SortedIsSorted(KeySet(ids));
    assert forall k | 0 <= k < |keys| :: keys[k] in keys;
  }

  function FromKeys(keys: seq<seq<string>>): (ids: seq<Identity>)
    requires AreKeys(keys)
    ensures |ids| == |keys| && forall k | 0 <= k < |keys| :: ids[k].Key() == keys[k]
  {
    seq(|keys|, k requires 0 <= k < |keys| => FromKey(keys[k]))
  }

  // sorted(ids)
  function SortIds(ids: set<Identity>): seq<Identity> {
    KeysAreKeys(ids);
    FromKeys(Sorted(KeySet(ids)))
  }

  lemma SortIdsSorted(ids: set<Identity>)
    ensures forall i :: i in SortIds(ids) <==> i in ids
    ensures SortedIdentities(SortIds(ids))
  {
    KeysAreKeys(ids);
    SortedIsSorted(KeySet(ids));
    var keys, r := Sorted(KeySet(ids)), SortIds(ids);
    forall i ensures i in r <==> i in ids {
      if i in ids {
        assert i.Key() in keys;
        var k :| 0 <= k < |keys| && keys[k] == i.Key();
        assert r[k] == i;
      }
      if i in r {
        var k :| 0 <= k < |r| && r[k] == i;
        assert keys[k] in keys;
      }
    }
  }

  // A strictly sorted list is determined by its elements.
  lemma {:induction false} SortedListUnique(a: seq<Identity>, b: seq<Identity>)
    requires SortedIdentities(a) && SortedIdentities(b) && forall i :: i in a <==> i in b
    ensures a == b
  {
    assert b != [] ==> b[0] in b;
    if a != [] {
      assert a[0] in b;
      var q :| 0 <= q < |b| && b[q] == a[0];
      assert b[0] in a;
      var p :| 0 <= p < |a| && a[p] == b[0];
      if q > 0 {
        assert IdLess(b[0], b[q]);
        if p > 0 {
          assert IdLess(a[0], a[p]);
          TupleLessTransitive(a[0].Key(), b[0].Key(), a[0].Key());
        }
        TupleLessIrreflexive(a[0].Key());
      }
      assert a[0] == b[0];
      forall i ensures i in a[1..] <==> i in b[1..] {
        HeadNotInTail(a);
        HeadNotInTail(b);
        assert i in a <==> i == a[0] || i in a[1..];
        assert i in b <==> i == b[0] || i in b[1..];
      }
      SortedListUnique(a[1..], b[1..]);
      assert a == [a[0]] + a[1..] && b == [b[0]] + b[1..];
    }
  }

  lemma HeadNotInTail(a: seq<Identity>)
    requires a != [] && SortedIdentities(a)
    ensures a[0] !in a[1..]
  {
    TupleLessIrreflexive(a[0].Key());
    forall k | 1 <= k < |a| ensures a[k] != a[0] {
      assert IdLess(a[0], a[k]);
    }
  }

  // ---------------------------------------------------------------- the gate

  datatype Side = Baseline | Candidate

  datatype GateError =
    | Unreadable(side: Side, problem: Problem)
    | PolicyMissing | PolicyDiffers
    | ShippingFailed(checkId: string) | BaselineShippingFailed(checkId: string)

  datatype Verdict = Verdict(success: bool, errors: seq<GateError>, newFailures: seq<Identity>,
                             missing: seq<Identity>, known: seq<Identity>, fixed: seq<Identity>)

  function Statuses(ids: Identities, id: Identity): set<Status> {
    if id in ids then ids[id] else {}
  }

  function WithStatus(ids: Identities, status: Status): set<Identity> {
    set id | id in ids && status in ids[id]
  }

  function KnownFailures(c: Identities, b: Identities): set<Identity> {
    set id | id in WithStatus(c, FAIL) && FAIL in Statuses(b, id)
  }

  function NewFailures(c: Identities, b: Identities): set<Identity> {
    set id | id in WithStatus(c, FAIL) && FAIL !in Statuses(b, id)
  }

  predicate IsMissing(c: Identities, b: Identities, id: Identity) {
    || (PASS in Statuses(b, id) && PASS !in Statuses(c, id))
    || (FAIL in Statuses(b, id) && FAIL !in Statuses(c, id) && PASS !in Statuses(c, id))
  }

  function MissingChecks(c: Identities, b: Identities): set<Identity> {
    set id | id in b && IsMissing(c, b, id)
  }

  function FixedChecks(c: Identities, b: Identities): set<Identity> {
    set id | id in b && !IsMissing(c, b, id) && FAIL in Statuses(b, id) && FAIL !in Statuses(c, id)
  }

  function ShippingFailures(ids: Identities): set<Identity> {
    set id | id in WithStatus(ids, FAIL) && id.mode == SHIPPING
  }

  function Tag(side: Side, problems: seq<Problem>): seq<GateError> {
    if problems == [] then []
    else Tag(side, problems[..|problems| - 1]) + [Unreadable(side, problems[|problems| - 1])]
  }

  // What the gate looks at: what reading a report gives, and its recorded OAuth policy.
  datatype Evidence = Evidence(problems: seq<Problem>, identities: Identities, policy: Json)

  function Examine(report: Object, catalog: Catalog): Evidence
    requires CatalogOk(catalog)
  {
    var r := Read(report, catalog);
    Evidence(r.problems, r.identities, Get(report, AutomaticAuthRequired))
  }

  function PolicyErrors(candidate: Json, baseline: Json): seq<GateError> {
    if !baseline.Bool? || !candidate.Bool? then [PolicyMissing]
    else if baseline != candidate then [PolicyDiffers]
    else []
  }

  function ShippingError(id: Identity, side: Side): GateError {
    if side.Candidate? then ShippingFailed(id.checkId) else BaselineShippingFailed(id.checkId)
  }

  function ShippingErrors(ids: seq<Identity>, side: Side): seq<GateError> {
    if ids == [] then []
    else ShippingErrors(ids[..|ids| - 1], side) + [ShippingError(ids[|ids| - 1], side)]
  }

  function GateErrors(c: Evidence, b: Evidence): seq<GateError> {
    Tag(Baseline, b.problems) + Tag(Candidate, c.problems) + PolicyErrors(c.policy, b.policy)
    + ShippingErrors(SortIds(ShippingFailures(c.identities)), Candidate)
    + ShippingErrors(SortIds(ShippingFailures(b.identities)), Baseline)
  }

  function Gate(c: Evidence, b: Evidence): Verdict {
    var errors := GateErrors(c, b);
    var newFailures, missing := SortIds(NewFailures(c.identities, b.identities)),
      SortIds(MissingChecks(c.identities, b.identities));
    Verdict(errors == [] && newFailures == [] && missing == [], errors, newFailures, missing,
            SortIds(KnownFailures(c.identities, b.identities)), SortIds(FixedChecks(c.identities, b.identities)))
  }

  lemma {:induction false} KeptSorted(ids: seq<Identity>, chosen: set<Identity>)
    requires SortedIdentities(ids)
    ensures SortedIdentities(Kept(ids, chosen))
  {
    if ids != [] {
      var init := ids[..|ids| - 1];
      KeptSorted(init, chosen);
      forall k | 0 <= k < |Kept(init, chosen)| ensures IdLess(Kept(init, chosen)[k], ids[|ids| - 1]) {
        assert Kept(init, chosen)[k] in init;
        var j :| 0 <= j < |init| && init[j] == Kept(init, chosen)[k];
        assert IdLess(ids[j], ids[|ids| - 1]);
      }
    }
  }

  // Filtering a sorted dictionary's items gives the sorted subset.
  lemma KeptIsSorted(all: set<Identity>, chosen: set<Identity>)
    requires chosen <= all
    ensures Kept(SortIds(all), chosen) == SortIds(chosen)
  {
    SortIdsSorted(all);
    SortIdsSorted(chosen);
    KeptSorted(SortIds(all), chosen);
    SortedListUnique(Kept(SortIds(all), chosen), SortIds(chosen));
  }

  lemma ShippingErrorsNext(errors: seq<GateError>, ids: seq<Identity>, id: Identity, side: Side)
    ensures errors + ShippingErrors(ids + [id], side) == errors + ShippingErrors(ids, side) + [ShippingError(id, side)]
    ensures ids + [] == ids
  {
  }

  function OneIf(keep: bool, id: Identity): seq<Identity> {
    if keep then [id] else []
  }

  // What one round of the first loop adds.
  lemma CandidateNext(c: Identities, b: Identities, items: seq<Identity>, k: nat, errors: seq<GateError>)
    requires k < |items| && items[k] in c
    ensures var id := items[k];
      && Kept(items[..k + 1], NewFailures(c, b)) ==
          Kept(items[..k], NewFailures(c, b)) + OneIf(FAIL in c[id] && FAIL !in Statuses(b, id), id)
      && Kept(items[..k + 1], KnownFailures(c, b)) ==
          Kept(items[..k], KnownFailures(c, b)) + OneIf(FAIL in c[id] && FAIL in Statuses(b, id), id)
      && errors + ShippingErrors(Kept(items[..k + 1], ShippingFailures(c)), Candidate)
         == errors + ShippingErrors(Kept(items[..k], ShippingFailures(c)), Candidate)
            + (if FAIL in c[id] && id.mode == SHIPPING then [ShippingFailed(id.checkId)] else [])
  {
    var id := items[k];
    assert id in ShippingFailures(c) <==> FAIL in c[id] && id.mode == SHIPPING;
    KeptNext(items, NewFailures(c, b), k);
    KeptNext(items, KnownFailures(c, b), k);
    KeptNext(items, ShippingFailures(c), k);
    ShippingErrorsNext(errors, Kept(items[..k], ShippingFailures(c)), id, Candidate);
  }

  // What one round of the second loop adds.
  lemma BaselineNext(c: Identities, b: Identities, items: seq<Identity>, k: nat, errors: seq<GateError>)
    requires k < |items| && items[k] in b
    ensures var id, before, now := items[k], b[items[k]], Statuses(c, items[k]);
      var missing := (PASS in before && PASS !in now) || (FAIL in before && FAIL !in now && PASS !in now);
      && Kept(items[..k + 1], MissingChecks(c, b)) == Kept(items[..k], MissingChecks(c, b)) + OneIf(missing, id)
      && Kept(items[..k + 1], FixedChecks(c, b)) ==
          Kept(items[..k], FixedChecks(c, b)) + OneIf(!missing && FAIL in before && FAIL !in now, id)
      && errors + ShippingErrors(Kept(items[..k + 1], ShippingFailures(b)), Baseline)
         == errors + ShippingErrors(Kept(items[..k], ShippingFailures(b)), Baseline)
            + (if FAIL in before && id.mode == SHIPPING then [BaselineShippingFailed(id.checkId)] else [])
  {
    var id := items[k];
    assert id in ShippingFailures(b) <==> FAIL in b[id] && id.mode == SHIPPING;
    KeptNext(items, MissingChecks(c, b), k);
    KeptNext(items, FixedChecks(c, b), k);
    KeptNext(items, ShippingFailures(b), k);
    ShippingErrorsNext(errors, Kept(items[..k], ShippingFailures(b)), id, Baseline);
  }

  lemma LoopStart(items: seq<Identity>, chosen: set<Identity>, errors: seq<GateError>, side: Side)
    ensures Kept(items[..0], chosen) == []
    ensures errors + ShippingErrors(Kept(items[..0], chosen), side) == errors
  {
  }

  lemma LoopEnd(ids: Identities, chosen: set<Identity>)
    requires chosen <= ids.Keys
    ensures Kept(SortIds(ids.Keys)[..|SortIds(ids.Keys)|], chosen) == SortIds(chosen)
  {
    assert SortIds(ids.Keys)[..|SortIds(ids.Keys)|] == SortIds(ids.Keys);
    KeptIsSorted(ids.Keys, chosen);
  }

  lemma ListedIsKey(ids: Identities, k: nat)
    requires k < |SortIds(ids.Keys)|
    ensures SortIds(ids.Keys)[k] in ids
  {
    SortIdsSorted(ids.Keys);
    assert SortIds(ids.Keys)[k] in SortIds(ids.Keys);
  }

  method ScanCandidate(c: Identities, b: Identities, errors0: seq<GateError>)
    returns (errors: seq<GateError>, newFailures: seq<Identity>, known: seq<Identity>)
    ensures newFailures == SortIds(NewFailures(c, b))
    ensures known == SortIds(KnownFailures(c, b))
    ensures errors == errors0 + ShippingErrors(SortIds(ShippingFailures(c)), Candidate)
  {
    errors, newFailures, known := errors0, [], [];
    var items := SortIds(c.Keys);
    LoopEnd(c, NewFailures(c, b));
    LoopEnd(c, KnownFailures(c, b));
    LoopEnd(c, ShippingFailures(c));
    LoopStart(items, NewFailures(c, b), errors0, Candidate);
    LoopStart(items, KnownFailures(c, b), errors0, Candidate);
    LoopStart(items, ShippingFailures(c), errors0, Candidate);
    hide NewFailures, KnownFailures, ShippingFailures, Kept, SortIds, ShippingErrors, Statuses;
    for k := 0 to |items|
      invariant newFailures == Kept(items[..k], NewFailures(c, b))
      invariant known == Kept(items[..k], KnownFailures(c, b))
      invariant errors == errors0 + ShippingErrors(Kept(items[..k], ShippingFailures(c)), Candidate)
    {
      var identity := items[k];
      ListedIsKey(c, k);
      CandidateNext(c, b, items, k, errors0);
      if FAIL !in c[identity] {
        continue;
      }
      if identity.mode == SHIPPING {
        errors := errors + [ShippingFailed(identity.checkId)];
      }
      if FAIL in Statuses(b, identity) {
        known := known + [identity];
      } else {
        newFailures := newFailures + [identity];
      }
    }
  }

  method ScanBaseline(c: Identities, b: Identities, errors0: seq<GateError>)
    returns (errors: seq<GateError>, missing: seq<Identity>, fixed: seq<Identity>)
    ensures missing == SortIds(MissingChecks(c, b))
    ensures fixed == SortIds(FixedChecks(c, b))
    ensures errors == errors0 + ShippingErrors(SortIds(ShippingFailures(b)), Baseline)
  {
    errors, missing, fixed := errors0, [], [];
    var items := SortIds(b.Keys);
    LoopEnd(b, MissingChecks(c, b));
    LoopEnd(b, FixedChecks(c, b));
    LoopEnd(b, ShippingFailures(b));
    LoopStart(items, MissingChecks(c, b), errors0, Baseline);
    LoopStart(items, FixedChecks(c, b), errors0, Baseline);
    LoopStart(items, ShippingFailures(b), errors0, Baseline);
    hide MissingChecks, FixedChecks, ShippingFailures, Kept, SortIds, ShippingErrors, Statuses;
    for k := 0 to |items|
      invariant missing == Kept(items[..k], MissingChecks(c, b))
      invariant fixed == Kept(items[..k], FixedChecks(c, b))
      invariant errors == errors0 + ShippingErrors(Kept(items[..k], ShippingFailures(b)), Baseline)
    {
      var identity := items[k];
      ListedIsKey(b, k);
      BaselineNext(c, b, items, k, errors0);
      var before, now := b[identity], Statuses(c, identity);
      if identity.mode == SHIPPING && FAIL in before {
        errors := errors + [BaselineShippingFailed(identity.checkId)];
      }
      if PASS in before && PASS !in now {
        missing := missing + [identity];
      } else if FAIL in before && FAIL !in now && PASS !in now {
        missing := missing + [identity];
      } else if FAIL in before && FAIL !in now {
        fixed := fixed + [identity];
      }
    }
  }

  method EvaluateRegressionGate(candidate: Object, baseline: Object, catalog: Catalog) returns (v: Verdict)
    requires CatalogOk(catalog)
    ensures v == Gate(Examine(candidate, catalog), Examine(baseline, catalog))
  {
    var problems, b := RequiredRegressionChecks(baseline, catalog);
    var errors := Tag(Baseline, problems);
    var c;
    problems, c := RequiredRegressionChecks(candidate, catalog);
    errors := errors + Tag(Candidate, problems);
    var baselineAuth, candidateAuth := Get(baseline, AutomaticAuthRequired), Get(candidate, AutomaticAuthRequired);
    if !baselineAuth.Bool? || !candidateAuth.Bool? {
      errors := errors + [PolicyMissing];
    } else if baselineAuth != candidateAuth {
      errors := errors + [PolicyDiffers];
    }
    assert errors == Tag(Baseline, Read(baseline, catalog).problems) + Tag(Candidate, Read(candidate, catalog).problems)
                     + PolicyErrors(Get(candidate, AutomaticAuthRequired), Get(baseline, AutomaticAuthRequired));
    var newFailures, known, missing, fixed;
    errors, newFailures, known := ScanCandidate(c, b, errors);
    errors, missing, fixed := ScanBaseline(c, b, errors);
    v := Verdict(errors == [] && newFailures == [] && missing == [], errors, newFailures, missing, known, fixed);
  }

  // ---------------------------------------------------------------- the gate as an order on reports

  predicate Accepts(candidate: Evidence, baseline: Evidence) {
    Gate(candidate, baseline).success
  }

  // A report that reads without problems, records its OAuth policy and has no shipping failure.
  predicate Acceptable(e: Evidence) {
    e.problems == [] && e.policy.Bool? && ShippingFailures(e.identities) == {}
  }

  // What the check results of an accepted candidate may look like beside the baseline's.
  ghost predicate NoRegression(c: Identities, b: Identities) {
    && (forall id | FAIL in Statuses(c, id) :: FAIL in Statuses(b, id))
    && (forall id | PASS in Statuses(b, id) :: PASS in Statuses(c, id))
    && (forall id | FAIL in Statuses(b, id) :: FAIL in Statuses(c, id) || PASS in Statuses(c, id))
  }

  lemma EmptySort(ids: set<Identity>)
    ensures SortIds(ids) == [] <==> ids == {}
  {
    SortIdsSorted(ids);
    if ids != {} {
      var i :| i in ids;
      assert i in SortIds(ids);
    }
    if SortIds(ids) != [] { assert SortIds(ids)[0] in SortIds(ids); }
  }

  lemma NoRegressionMeaning(c: Identities, b: Identities)
    ensures NoRegression(c, b) <==> NewFailures(c, b) == {} && MissingChecks(c, b) == {}
  {
    if NewFailures(c, b) == {} && MissingChecks(c, b) == {} {
      forall id | FAIL in Statuses(c, id) ensures FAIL in Statuses(b, id) {
        assert id !in NewFailures(c, b);
      }
      forall id | PASS in Statuses(b, id) ensures PASS in Statuses(c, id) {
        assert id !in MissingChecks(c, b);
      }
      forall id | FAIL in Statuses(b, id) ensures FAIL in Statuses(c, id) || PASS in Statuses(c, id) {
        assert id !in MissingChecks(c, b);
      }
    }
  }

  lemma NoErrorsMeaning(c: Evidence, b: Evidence)
    ensures GateErrors(c, b) == [] <==>
      && c.problems == [] && b.problems == [] && c.policy.Bool? && b.policy == c.policy
      && ShippingFailures(c.identities) == {} && ShippingFailures(b.identities) == {}
  {
    EmptySort(ShippingFailures(c.identities));
    EmptySort(ShippingFailures(b.identities));
  }

  lemma {:induction false} ShippingErrorsMeaning(ids: seq<Identity>, side: Side, e: GateError)
    ensures e in ShippingErrors(ids, side) <==>
      exists k | 0 <= k < |ids| ::
        e == if side.Candidate? then ShippingFailed(ids[k].checkId) else BaselineShippingFailed(ids[k].checkId)
  {
    if ids != [] { ShippingErrorsMeaning(ids[..|ids| - 1], side, e); }
  }

  lemma {:induction false} TagMeaning(side: Side, problems: seq<Problem>, e: GateError)
    ensures e in Tag(side, problems) <==> e.Unreadable? && e.side == side && e.problem in problems
  {
    if problems != [] { TagMeaning(side, problems[..|problems| - 1], e); }
  }

  // a failing check of the shipping version
  ghost predicate FailsInShipping(ids: Identities, id: Identity) {
    FAIL in Statuses(ids, id) && id.mode == "2025-06-18"
  }

  lemma ShippingListed(ids: Identities, side: Side, e: GateError)
    ensures e in ShippingErrors(SortIds(ShippingFailures(ids)), side) <==>
      exists id :: FailsInShipping(ids, id)
        && e == if side.Candidate? then ShippingFailed(id.checkId) else BaselineShippingFailed(id.checkId)
  {
    var failing := SortIds(ShippingFailures(ids));
    SortIdsSorted(ShippingFailures(ids));
    ShippingErrorsMeaning(failing, side, e);
    hide SortIds, ShippingErrors;
    if k :| 0 <= k < |failing|
            && e == (if side.Candidate? then ShippingFailed(failing[k].checkId)
                     else BaselineShippingFailed(failing[k].checkId))
    {
      assert failing[k] in failing;
      assert FailsInShipping(ids, failing[k]);
    }
    if id :| FailsInShipping(ids, id)
             && e == if side.Candidate? then ShippingFailed(id.checkId) else BaselineShippingFailed(id.checkId)
    {
      assert id in failing;
      var k :| 0 <= k < |failing| && failing[k] == id;
    }
  }

  // Which errors the gate reports.
  lemma ErrorsMeaning(c: Evidence, b: Evidence, e: GateError)
    ensures e in GateErrors(c, b) <==>
      match e
      case Unreadable(side, problem) => problem in (if side == Baseline then b.problems else c.problems)
      case PolicyMissing => !c.policy.Bool? || !b.policy.Bool?
      case PolicyDiffers => c.policy.Bool? && b.policy.Bool? && c.policy != b.policy
      case ShippingFailed(checkId) => exists id :: FailsInShipping(c.identities, id) && id.checkId == checkId
      case BaselineShippingFailed(checkId) => exists id :: FailsInShipping(b.identities, id) && id.checkId == checkId
  {
    TagMeaning(Baseline, b.problems, e);
    TagMeaning(Candidate, c.problems, e);
    ShippingListed(c.identities, Candidate, e);
    ShippingListed(b.identities, Baseline, e);
    hide Tag, ShippingErrors, SortIds, FailsInShipping;
  }

  // Which checks the gate lists, from the statuses on both sides.
  lemma ListsMeaning(c: Evidence, b: Evidence, id: Identity)
    ensures var v, now, before := Gate(c, b), Statuses(c.identities, id), Statuses(b.identities, id);
      && (id in v.newFailures <==> FAIL in now && FAIL !in before)
      && (id in v.known <==> FAIL in now && FAIL in before)
      && (id in v.missing <==> (PASS in before && PASS !in now) || (FAIL in before && PASS !in now && FAIL !in now))
      && (id in v.fixed <==> FAIL in before && PASS in now && FAIL !in now)
  {
    SortIdsSorted(NewFailures(c.identities, b.identities));
    SortIdsSorted(KnownFailures(c.identities, b.identities));
    SortIdsSorted(MissingChecks(c.identities, b.identities));
    SortIdsSorted(FixedChecks(c.identities, b.identities));
    hide SortIds, GateErrors;
  }

  // The gate passes exactly when both reports are acceptable under one policy and nothing regressed.
  lemma AcceptsMeaning(c: Evidence, b: Evidence)
    ensures Accepts(c, b) <==>
      Acceptable(c) && Acceptable(b) && c.policy == b.policy && NoRegression(c.identities, b.identities)
  {
    NoErrorsMeaning(c, b);
    NoRegressionMeaning(c.identities, b.identities);
    EmptySort(NewFailures(c.identities, b.identities));
    EmptySort(MissingChecks(c.identities, b.identities));
  }

  // Reflexive on the reports it accepts at all.
  lemma AcceptsReflexive(e: Evidence)
    ensures Accepts(e, e) <==> Acceptable(e)
  {
    AcceptsMeaning(e, e);
  }

  lemma AcceptsTransitive(a: Evidence, b: Evidence, c: Evidence)
    requires Accepts(b, a) && Accepts(c, b)
    ensures Accepts(c, a)
  {
    AcceptsMeaning(b, a);
    AcceptsMeaning(c, b);
    AcceptsMeaning(c, a);
  }
}
