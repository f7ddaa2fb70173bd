/** What compaction and repeated use of accepted candidates as baselines preserve. */
module RegressionRatchet {
  import opened Prelude
  import opened Json
  import opened RegressionReport
  import opened RegressionGate
  import opened RegressionCompaction

  // Leaving out SKIPs changes none of the sets that the gate compares.
  lemma SkipsDoNotMatter(c: Identities, b: Identities)
    ensures NewFailures(c, WithoutSkips(b)) == NewFailures(c, b)
    ensures KnownFailures(c, WithoutSkips(b)) == KnownFailures(c, b)
    ensures MissingChecks(c, WithoutSkips(b)) == MissingChecks(c, b)
    ensures FixedChecks(c, WithoutSkips(b)) == FixedChecks(c, b)
    ensures ShippingFailures(WithoutSkips(b)) == ShippingFailures(b)
    ensures WithStatus(WithoutSkips(b), PASS) == WithStatus(b, PASS)
    ensures WithStatus(WithoutSkips(b), FAIL) == WithStatus(b, FAIL)
    ensures WithoutSkips(WithoutSkips(b)) == WithoutSkips(b)
  {
    forall id
      ensures PASS in Statuses(WithoutSkips(b), id) <==> PASS in Statuses(b, id)
      ensures FAIL in Statuses(WithoutSkips(b), id) <==> FAIL in Statuses(b, id)
    {
    }
    assert forall id :: IsMissing(c, WithoutSkips(b), id) <==> IsMissing(c, b, id);
    forall id | id in WithoutSkips(b) ensures WithoutSkips(WithoutSkips(b))[id] == WithoutSkips(b)[id] {
      assert b[id] - {SKIP} - {SKIP} == b[id] - {SKIP};
    }
  }

  // The gate gives the same verdict, errors and lists alike, whether or not the baseline keeps its SKIPs.
  lemma GateIgnoresSkips(c: Evidence, b: Evidence)
    ensures Gate(c, Unskipped(b)) == Gate(c, b)
  {
    SkipsDoNotMatter(c.identities, b.identities);
  }

  // Compaction leaves the whole verdict alone when every required case and scenario has a check that was not
  // skipped, and the four lists alone in any case.
  lemma CompactionKeepsVerdict(candidate: Evidence, report: Object, catalog: Catalog)
    requires CatalogOk(catalog) && CompactBaseline(report, catalog).Ok?
    ensures var full := Gate(candidate, Examine(report, catalog));
      var compact := Gate(candidate, Examine(CompactBaseline(report, catalog).value, catalog));
      && compact.newFailures == full.newFailures && compact.missing == full.missing
      && compact.known == full.known && compact.fixed == full.fixed
      && (Covered(WithoutSkips(Examine(report, catalog).identities), catalog) ==> compact == full)
  {
    hide Examine, CompactBaseline, GateErrors, SortIds, Covered;
    CompactReread(report, catalog);
    GateIgnoresSkips(candidate, Examine(report, catalog));
    SkipsDoNotMatter(candidate.identities, Examine(report, catalog).identities);
  }

  // Acceptance against a compacted baseline is acceptance against the report behind it, given that coverage;
  // without the coverage the compacted baseline accepts nothing.
  lemma CompactionAndAcceptance(candidate: Evidence, report: Object, catalog: Catalog)
    requires CatalogOk(catalog) && CompactBaseline(report, catalog).Ok?
    ensures Accepts(candidate, Examine(CompactBaseline(report, catalog).value, catalog)) <==>
      Covered(WithoutSkips(Examine(report, catalog).identities), catalog)
        && Accepts(candidate, Examine(report, catalog))
  {
    hide Examine, CompactBaseline, Gate, Covered, WithoutSkips;
    CompactReread(report, catalog);
    CompactionKeepsVerdict(candidate, report, catalog);
    AcceptsMeaning(candidate, Examine(CompactBaseline(report, catalog).value, catalog));
  }

  // Compacting a compact baseline changes nothing when the coverage survived the first compaction, and fails otherwise.
  lemma CompactionIdempotent(report: Object, catalog: Catalog)
    requires CatalogOk(catalog) && CompactBaseline(report, catalog).Ok?
    ensures CompactBaseline(CompactBaseline(report, catalog).value, catalog) == CompactBaseline(report, catalog) <==>
      Covered(WithoutSkips(Examine(report, catalog).identities), catalog)
    ensures CompactBaseline(CompactBaseline(report, catalog).value, catalog).Ok? <==>
      Covered(WithoutSkips(Examine(report, catalog).identities), catalog)
  {
    var compact, e := CompactBaseline(report, catalog).value, Examine(report, catalog);
    CompactReread(report, catalog);
    CompactableMeaning(e);
    CompactableMeaning(Examine(compact, catalog));
    SkipsDoNotMatter(map[], e.identities);
    CompactFormHeader(SelectedScenarios(report), e.policy, e.identities);
    CompactFormStable(SelectedScenarios(report), SelectedScenarios(compact), e.policy, e.identities);
    hide Examine, CompactForm, CompactErrors, Covered, WithoutSkips;
  }

  lemma CompactFormStable(scenarios: Object, again: Object, policy: Json, ids: Identities)
    requires forall k | 0 <= k < |REQUIRED_MODES| ::
      Get(again, Named(REQUIRED_MODES[k])) == Get(scenarios, Named(REQUIRED_MODES[k]))
    ensures CompactForm(again, policy, WithoutSkips(ids)) == CompactForm(scenarios, policy, ids)
  {
    SkipsDoNotMatter(map[], ids);
    SameSelection(scenarios, again);
    hide SortIds, WithoutSkips, WithStatus, AsDicts, Strings, Selection;
  }

  lemma SameSelection(scenarios: Object, again: Object)
    requires forall k | 0 <= k < |REQUIRED_MODES| ::
      Get(again, Named(REQUIRED_MODES[k])) == Get(scenarios, Named(REQUIRED_MODES[k]))
    ensures Selection(again) == Selection(scenarios)
  {
  }

  // ---------------------------------------------------------------- chains

  // Each report was accepted against its predecessor, kept in full or compacted.
  ghost predicate Ratchet(reports: seq<Object>, catalog: Catalog)
    requires CatalogOk(catalog)
  {
    forall k | 0 <= k < |reports| - 1 :: AcceptedAfter(reports[k + 1], reports[k], catalog)
  }

  ghost predicate AcceptedAfter(candidate: Object, baseline: Object, catalog: Catalog)
    requires CatalogOk(catalog)
  {
    var c := Examine(candidate, catalog);
    || Accepts(c, Examine(baseline, catalog))
    || (CompactBaseline(baseline, catalog).Ok?
        && Accepts(c, Examine(CompactBaseline(baseline, catalog).value, catalog)))
  }

  lemma AcceptedEitherWay(candidate: Object, baseline: Object, catalog: Catalog)
    requires CatalogOk(catalog) && AcceptedAfter(candidate, baseline, catalog)
    ensures Accepts(Examine(candidate, catalog), Examine(baseline, catalog))
  {
    hide Examine, Accepts, CompactBaseline, Covered;
    if CompactBaseline(baseline, catalog).Ok? {
      CompactionAndAcceptance(Examine(candidate, catalog), baseline, catalog);
    }
  }

  // However long the chain, a later report is acceptable against every earlier one.
  lemma {:induction false} RatchetAccepts(reports: seq<Object>, i: nat, j: nat, catalog: Catalog)
    requires CatalogOk(catalog) && Ratchet(reports, catalog) && i < j < |reports|
    ensures Accepts(Examine(reports[j], catalog), Examine(reports[i], catalog))
    decreases j
  {
    hide Examine, Accepts, AcceptedAfter;
    assert AcceptedAfter(reports[(j - 1) + 1], reports[j - 1], catalog);
    AcceptedEitherWay(reports[j], reports[j - 1], catalog);
    if i < j - 1 {
      RatchetAccepts(reports, i, j - 1, catalog);
      AcceptsTransitive(Examine(reports[i], catalog), Examine(reports[j - 1], catalog), Examine(reports[j], catalog));
    }
  }

  // Ratcheting is safe: a check that passed in the first report still passes in the last, and a failure of the
  // last was a failure of the first.
  lemma RatchetIsSafe(reports: seq<Object>, catalog: Catalog)
    requires CatalogOk(catalog) && Ratchet(reports, catalog) && |reports| > 0
    ensures var first, last := Examine(reports[0], catalog).identities,
      Examine(reports[|reports| - 1], catalog).identities;
      && (forall id | PASS in Statuses(first, id) :: PASS in Statuses(last, id))
      && (forall id | FAIL in Statuses(last, id) :: FAIL in Statuses(first, id))
  {
    hide Examine, Accepts;
    if |reports| > 1 {
      RatchetAccepts(reports, 0, |reports| - 1, catalog);
      AcceptsMeaning(Examine(reports[|reports| - 1], catalog), Examine(reports[0], catalog));
    }
  }
}
