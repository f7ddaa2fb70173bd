/** `verify`: feasibility and objective checks against an optimum that is recomputed by enumerating
    demand-to-site assignments instead of site subsets. */
module FacilityVerify {
  import opened Prelude
  import opened FacilityCost
  import opened FacilitySolve
  import opened FacilityGreedyBound

  const TOLERANCE: real := 0.000000001

  datatype Entrant = Baseline | Candidate
  datatype CheckName = Feasibility(who: Entrant) | Recompute(who: Entrant) | IndependentOptimum | BaselineComparison
  datatype Check = Check(name: CheckName, pass: bool)
  datatype VerifyError = NoAssignment

  function Abs(x: real): real {
    if x < 0.0 then -x else x
  }

  // ---------------------------------------------------------------- product(range(n), repeat=m)

  function AppendEach(prefixes: seq<seq<int>>, n: nat): seq<seq<int>> {
    if prefixes == [] then []
    else seq(n, j requires 0 <= j < n => prefixes[0] + [j]) + AppendEach(prefixes[1..], n)
  }

  function Assignments(n: nat, m: nat): seq<seq<int>> {
    if m == 0 then [[]] else AppendEach(Assignments(n, m - 1), n)
  }

  predicate IsAssignment(a: seq<int>, n: nat, m: nat) {
    |a| == m && InRange(a, n)
  }

  lemma {:induction false} AppendEachMember(prefixes: seq<seq<int>>, n: nat, a: seq<int>)
    ensures a in AppendEach(prefixes, n) <==>
      a != [] && 0 <= a[|a| - 1] < n && a[..|a| - 1] in prefixes
  {
    if prefixes != [] {
      var first := seq(n, j requires 0 <= j < n => prefixes[0] + [j]);
      AppendEachMember(prefixes[1..], n, a);
      assert a in prefixes <==> a == prefixes[0] || a in prefixes[1..];
      if a in first {
        var j :| 0 <= j < n && a == prefixes[0] + [j];
        assert a[..|a| - 1] == prefixes[0];
      }
      if a != [] && 0 <= a[|a| - 1] < n && a[..|a| - 1] == prefixes[0] {
        assert a == prefixes[0] + [a[|a| - 1]];
        assert first[a[|a| - 1]] == a;
      }
    }
  }

  // The enumeration holds exactly the m-tuples over [0, n).
  lemma {:induction false} AssignmentsExact(n: nat, m: nat, a: seq<int>)
    ensures a in Assignments(n, m) <==> IsAssignment(a, n, m)
  {
    if m > 0 {
      AppendEachMember(Assignments(n, m - 1), n, a);
      if a != [] {
        var init := a[..|a| - 1];
        AssignmentsExact(n, m - 1, init);
        assert a == init + [a[|a| - 1]];
        assert InRange(a, n) <==> InRange(init, n) && 0 <= a[|a| - 1] < n;
      }
    }
  }

  // ---------------------------------------------------------------- assignment totals

  function Share(d: Instance, a: seq<int>, i: nat): real
    requires d.Readable() && IsAssignment(a, |d.sites|, |d.weights|) && i < |a|
  {
    Times(d.weights[i], d.distances[i][a[i]])
  }

  function TotalUpTo(d: Instance, a: seq<int>, m: nat): real
    requires d.Readable() && IsAssignment(a, |d.sites|, |d.weights|) && m <= |a|
  {
    if m == 0 then 0.0 else TotalUpTo(d, a, m - 1) + Share(d, a, m - 1)
  }

  // sum(weights[i] * distances[i][j] for i, j in enumerate(a))
  function Total(d: Instance, a: seq<int>): real
    requires d.Readable() && IsAssignment(a, |d.sites|, |d.weights|)
  {
    TotalUpTo(d, a, |a|)
  }

  predicate Affordable(d: Instance, a: seq<int>) {
    IsAssignment(a, |d.sites|, |d.weights|) && |Elements(a)| <= d.p
  }

  // min over the affordable entries of the list, if there is one
  function LeastTotal(d: Instance, list: seq<seq<int>>): Option<real>
    requires d.Readable()
  {
    if list == [] then None
    else
      var best, a := LeastTotal(d, list[..|list| - 1]), list[|list| - 1];
      if !Affordable(d, a) then best
      else if best.None? || Total(d, a) < best.value then Some(Total(d, a))
      else best
  }

  lemma {:induction false} LeastTotalIsLeast(d: Instance, list: seq<seq<int>>, i: nat)
    requires d.Readable() && i < |list| && Affordable(d, list[i])
    ensures LeastTotal(d, list).Some? && LeastTotal(d, list).value <= Total(d, list[i])
  {
    if i < |list| - 1 {
      LeastTotalIsLeast(d, list[..|list| - 1], i);
    }
  }

  lemma {:induction false} LeastTotalIsReached(d: Instance, list: seq<seq<int>>) returns (i: nat)
    requires d.Readable() && LeastTotal(d, list).Some?
    ensures i < |list| && Affordable(d, list[i]) && Total(d, list[i]) == LeastTotal(d, list).value
  {
    var init, a := list[..|list| - 1], list[|list| - 1];
    if Affordable(d, a) && (LeastTotal(d, init).None? || Total(d, a) < LeastTotal(d, init).value) {
      i := |list| - 1;
    } else {
      i := LeastTotalIsReached(d, init);
    }
  }

  function AssignmentOptimum(d: Instance): Option<real>
    requires d.Readable()
  {
    LeastTotal(d, Assignments(|d.sites|, |d.weights|))
  }

  lemma {:induction false} TotalAtLeastCostUpTo(d: Instance, a: seq<int>, sel: seq<int>, m: nat)
    requires d.Guard() && IsAssignment(a, |d.sites|, |d.weights|) && Selection(d, sel) && m <= |a|
    requires forall x :: x in a ==> x in sel
    ensures CostUpTo(d, sel, m) <= TotalUpTo(d, a, m)
  {
    if m > 0 {
      TotalAtLeastCostUpTo(d, a, sel, m - 1);
      NearestIsMinimum(d.distances[m - 1], sel);
      assert a[m - 1] in a;
      var k :| 0 <= k < |sel| && sel[k] == a[m - 1];
      TimesMonotone(d.weights[m - 1], Nearest(d.distances[m - 1], sel), d.distances[m - 1][a[m - 1]]);
    }
  }

  // the `assignments` list that `solve` reports
  function NearestAssignment(d: Instance, sel: seq<int>): (a: seq<int>)
    requires d.Guard() && Selection(d, sel)
    ensures |a| == |d.weights| && forall i :: 0 <= i < |a| ==> a[i] in sel && 0 <= a[i] < |d.sites|
  {
    Report(d, sel).assignments
  }

  lemma NearestShare(d: Instance, sel: seq<int>, i: nat)
    requires d.Guard() && Selection(d, sel) && i < |d.weights|
    ensures Share(d, NearestAssignment(d, sel), i) == Term(d, sel, i)
  {
    NearestSiteDistance(d.distances[i], sel);
    assert NearestAssignment(d, sel)[i] == NearestSite(d.distances[i], sel);
  }

  lemma {:induction false} NearestAssignmentCostUpTo(d: Instance, sel: seq<int>, m: nat)
    requires d.Guard() && Selection(d, sel) && m <= |d.weights|
    ensures TotalUpTo(d, NearestAssignment(d, sel), m) == CostUpTo(d, sel, m)
  {
    hide NearestAssignment, Share, Term;
    if m > 0 {
      NearestAssignmentCostUpTo(d, sel, m - 1);
      NearestShare(d, sel, m - 1);
    }
  }

  // Serving every demand point from its nearest selected site attains the cost.
  lemma NearestAssignmentCost(d: Instance, sel: seq<int>)
    requires d.Guard() && Selection(d, sel)
    ensures Total(d, NearestAssignment(d, sel)) == Cost(d, sel)
    ensures |Elements(NearestAssignment(d, sel))| <= |Elements(sel)|
  {
    NearestAssignmentCostUpTo(d, sel, |d.weights|);
    SubsetCount(Elements(NearestAssignment(d, sel)), Elements(sel));
  }

  // The optimal p-subset is met by an assignment that the enumeration contains.
  lemma OptimumIsAssigned(d: Instance)
    requires d.Guard()
    ensures AssignmentOptimum(d).Some? && AssignmentOptimum(d).value <= Optimum(d)
  {
    hide Cost, Total;
    var list := Assignments(|d.sites|, |d.weights|);
    var s := ExactSelection(d);
    var best := NearestAssignment(d, s);
    NearestAssignmentCost(d, s);
    ExactIsCombination(d);
    ElementsCount(s);
    AssignmentsExact(|d.sites|, |d.weights|, best);
    var i :| 0 <= i < |list| && list[i] == best;
    LeastTotalIsLeast(d, list, i);
  }

  // The two enumerations, over site subsets and over assignments, find the same optimum.
  lemma TwoOptimaAgree(d: Instance)
    requires d.Guard()
    ensures AssignmentOptimum(d) == Some(Optimum(d))
  {
    hide Optimum, Total;
    OptimumIsAssigned(d);
    var list := Assignments(|d.sites|, |d.weights|);
    var k := LeastTotalIsReached(d, list);
    AffordableAtLeastOptimum(d, list[k]);
  }

  lemma AffordableAtLeastOptimum(d: Instance, a: seq<int>)
    requires d.Guard() && Affordable(d, a)
    ensures Optimum(d) <= Total(d, a)
  {
    var t := ExtendToCombination(0, |d.sites|, d.p, Elements(a));
    TotalAtLeastCostUpTo(d, a, t, |a|);
    ExactIsOptimal(d, t);
  }

  // ---------------------------------------------------------------- the checks

  predicate ValidSites(d: Instance, selected: seq<int>) {
    |Elements(selected)| == d.p && InRange(selected, |d.sites|)
  }

  lemma ValidSitesSelect(d: Instance, selected: seq<int>)
    requires d.Guard() && ValidSites(d, selected)
    ensures Selection(d, selected)
  {
    assert Elements([]) == {};
  }

  predicate Feasible(d: Instance, r: Solution) {
    |r.assignments| == |d.weights| && forall i | 0 <= i < |r.assignments| :: r.assignments[i] in r.selected
  }

  // the recomputed cost; with no site selected there is none to compute unless there is no demand
  function Objective(d: Instance, selected: seq<int>): real
    requires d.Readable() && InRange(selected, |d.sites|)
  {
    if selected == [] then 0.0 else Cost(d, selected)
  }

  predicate Recomputed(d: Instance, r: Solution)
    requires d.Readable() && ValidSites(d, r.selected)
  {
    var objective := Objective(d, r.selected);
    && Feasible(d, r)
    && Abs(objective - r.objective) <= TOLERANCE
    && (FeasibleIsAssignment(d, r); Abs(Total(d, r.assignments) - objective) <= TOLERANCE)
  }

  lemma FeasibleIsAssignment(d: Instance, r: Solution)
    requires ValidSites(d, r.selected) && Feasible(d, r)
    ensures IsAssignment(r.assignments, |d.sites|, |d.weights|)
  {
  }

  function EntrantCheck(d: Instance, who: Entrant, r: Solution): Check
    requires d.Readable()
  {
    if !ValidSites(d, r.selected) then Check(Feasibility(who), false)
    else Check(Recompute(who), Recomputed(d, r))
  }

  function OptimumCheck(optimum: real, candidate: Solution): Check {
    Check(IndependentOptimum, Abs(candidate.objective - optimum) <= TOLERANCE)
  }

  function ComparisonCheck(baseline: Solution, candidate: Solution): Check {
    Check(BaselineComparison, candidate.objective <= baseline.objective + TOLERANCE)
  }

  function Checks(d: Instance, baseline: Solution, candidate: Solution): Result<seq<Check>, VerifyError>
    requires d.Readable()
  {
    var optimum := AssignmentOptimum(d);
    if optimum.None? then Err(NoAssignment)
    else
      Ok([EntrantCheck(d, Baseline, baseline), EntrantCheck(d, Candidate, candidate),
          OptimumCheck(optimum.value, candidate), ComparisonCheck(baseline, candidate)])
  }

  // `verify` trusts no guard: weights and distances may be negative, and any p may be asked for.
  method Verify(d: Instance, baseline: Solution, candidate: Solution) returns (r: Result<seq<Check>, VerifyError>)
    requires d.Readable()
    ensures r == Checks(d, baseline, candidate)
  {
    var optimum := AssignmentOptimum(d);
    if optimum.None? {
      return Err(NoAssignment);
    }
    var checks := [];
    var entrants := [(Baseline, baseline), (Candidate, candidate)];
    for k := 0 to |entrants|
      invariant checks == seq(k, i requires 0 <= i < k => EntrantCheck(d, entrants[i].0, entrants[i].1))
    {
      var (who, result) := entrants[k];
      var selected := result.selected;
      if !(|Elements(selected)| == d.p && forall j | j in selected :: 0 <= j < |d.sites|) {
        checks := checks + [Check(Feasibility(who), false)];
        continue;
      }
      assert forall k | 0 <= k < |selected| :: selected[k] in selected;
      var passed := CheckSelection(d, result);
      checks := checks + [Check(Recompute(who), passed)];
    }
    var gap := candidate.objective - optimum.value;
    checks := checks + [Check(IndependentOptimum, -0.000000001 <= gap <= 0.000000001)];
    checks := checks + [Check(BaselineComparison, candidate.objective <= baseline.objective + 0.000000001)];
    assert checks == Checks(d, baseline, candidate).value;
    return Ok(checks);
  }

  // the recomputation for one entrant whose sites are valid
  method CheckSelection(d: Instance, r: Solution) returns (passed: bool)
    requires d.Readable() && ValidSites(d, r.selected)
    ensures passed == Recomputed(d, r)
  {
    var objective := Objective(d, r.selected);
    if !(|r.assignments| == |d.weights| && forall j | j in r.assignments :: j in r.selected) {
      assert !Feasible(d, r);
      return false;
    }
    assert Feasible(d, r);
    FeasibleIsAssignment(d, r);
    var gap, slack := objective - r.objective, Total(d, r.assignments) - objective;
    passed := -0.000000001 <= gap <= 0.000000001 && -0.000000001 <= slack <= 0.000000001;
  }

  // An enumeration is empty, and the minimum over it fails, exactly when there is demand but no site may serve it.
  lemma NoAssignmentMeaning(d: Instance)
    requires d.Readable()
    ensures AssignmentOptimum(d).None? <==> d.p < 0 || (d.weights != [] && (d.sites == [] || d.p == 0))
  {
    var list := Assignments(|d.sites|, |d.weights|);
    if AssignmentOptimum(d).Some? {
      var i := LeastTotalIsReached(d, list);
      if d.weights != [] { assert list[i][0] in Elements(list[i]); }
    } else if d.p >= 0 && (d.weights == [] || (d.sites != [] && d.p > 0)) {
      var first := seq(|d.weights|, i requires 0 <= i < |d.weights| => 0);
      SubsetCount(Elements(first), {0});
      AssignmentsExact(|d.sites|, |d.weights|, first);
      var i :| 0 <= i < |list| && list[i] == first;
      LeastTotalIsLeast(d, list, i);
    }
  }

  predicate AllPass(r: Result<seq<Check>, VerifyError>) {
    r.Ok? && forall i | 0 <= i < |r.value| :: r.value[i].pass
  }

  ghost predicate Within(x: real, y: real) {
    y - 0.000000001 <= x <= y + 0.000000001
  }

  // The entrant opens p distinct sites, assigns every demand point to one of them, and reports an objective that is
  // their cost and that its assignments attain, each within 1e-9.
  ghost predicate Consistent(d: Instance, r: Solution)
    requires d.Guard()
  {
    && |Elements(r.selected)| == d.p && Selection(d, r.selected)
    && IsAssignment(r.assignments, |d.sites|, |d.weights|) && (forall j :: j in r.assignments ==> j in r.selected)
    && Within(r.objective, Cost(d, r.selected)) && Within(Total(d, r.assignments), Cost(d, r.selected))
  }

  lemma FeasibleMeaning(d: Instance, r: Solution)
    ensures Feasible(d, r) <==> |r.assignments| == |d.weights| && forall j :: j in r.assignments ==> j in r.selected
  {
    if Feasible(d, r) {
      forall j | j in r.assignments ensures j in r.selected {
        var k :| 0 <= k < |r.assignments| && r.assignments[k] == j;
      }
    }
    if |r.assignments| == |d.weights| && forall j :: j in r.assignments ==> j in r.selected {
      forall k | 0 <= k < |r.assignments| ensures r.assignments[k] in r.selected {
        assert r.assignments[k] in r.assignments;
      }
    }
  }

  lemma ConsistentMeaning(d: Instance, r: Solution)
    requires d.Guard()
    ensures Consistent(d, r) <==> ValidSites(d, r.selected) && Recomputed(d, r)
  {
    hide Total, Cost;
    if ValidSites(d, r.selected) {
      ValidSitesSelect(d, r.selected);
      FeasibleMeaning(d, r);
    }
  }

  // The verdict is "pass" exactly when both entrants are consistent and the candidate is the optimum and no worse
  // than the baseline, each within the tolerance.
  lemma VerdictMeaning(d: Instance, baseline: Solution, candidate: Solution)
    requires d.Guard()
    ensures AllPass(Checks(d, baseline, candidate)) <==>
      && Consistent(d, baseline) && Consistent(d, candidate)
      && Within(candidate.objective, Optimum(d))
      && candidate.objective <= baseline.objective + 0.000000001
  {
    TwoOptimaAgree(d);
    ConsistentMeaning(d, baseline);
    ConsistentMeaning(d, candidate);
    hide Consistent, Recomputed, Optimum, AssignmentOptimum;
    var checks := Checks(d, baseline, candidate);
    assert AllPass(checks) <==>
      checks.value[0].pass && checks.value[1].pass && checks.value[2].pass && checks.value[3].pass;
  }

  // Soundness: whatever the candidate claims, a passing verdict bounds its true cost.
  lemma VerifierSound(d: Instance, baseline: Solution, candidate: Solution)
    requires d.Guard() && AllPass(Checks(d, baseline, candidate))
    ensures ValidSites(d, candidate.selected) && Selection(d, candidate.selected)
    ensures Optimum(d) <= Cost(d, candidate.selected) <= Optimum(d) + 0.000000002
    ensures ValidSites(d, baseline.selected) && Selection(d, baseline.selected)
    ensures Optimum(d) <= Cost(d, baseline.selected)
  {
    VerdictMeaning(d, baseline, candidate);
    ConsistentMeaning(d, baseline);
    ConsistentMeaning(d, candidate);
    OptimumIsLowerBound(d, candidate.selected);
    OptimumIsLowerBound(d, baseline.selected);
  }

  lemma ReportRecomputes(d: Instance, sel: seq<int>)
    requires d.Guard() && Selection(d, sel) && Distinct(sel) && |sel| == d.p
    ensures ValidSites(d, Report(d, sel).selected) && Recomputed(d, Report(d, sel))
  {
    var r := Report(d, sel);
    SortedElements(sel);
    ElementsCount(sel);
    assert Elements(r.selected) == Elements(sel);
    assert forall k :: 0 <= k < |r.selected| ==> r.selected[k] in sel;
    SortedSelection(d, sel);
    NearestAssignmentCost(d, sel);
    assert r.assignments == NearestAssignment(d, sel);
  }

  // Completeness: the solver's own outputs pass every check.
  lemma VerifierComplete(d: Instance)
    requires d.Guard()
    ensures Solved(d, Greedy).Ok? && Solved(d, Exact).Ok?
    ensures AllPass(Checks(d, Solved(d, Greedy).value, Solved(d, Exact).value))
  {
    GreedyPicksDistinct(d, d.p);
    ExactIsCombination(d);
    ReportRecomputes(d, GreedyPicks(d, d.p));
    ReportRecomputes(d, ExactSelection(d));
    GreedyNeverBeatsOptimum(d, d.p);
    ConsistentMeaning(d, Solved(d, Greedy).value);
    ConsistentMeaning(d, Solved(d, Exact).value);
    VerdictMeaning(d, Solved(d, Greedy).value, Solved(d, Exact).value);
  }
}
