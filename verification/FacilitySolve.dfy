/** `solve`: the greedy baseline and the exhaustive search over p-subsets. */
module FacilitySolve {
  import opened Prelude
  import opened FacilityCost

  datatype Method = Greedy | Exact
  datatype SolveError = InvalidFixture
  datatype Solution = Solution(selected: seq<int>, objective: real, assignments: seq<int>)

  predicate Increasing(s: seq<int>) {
    forall i, j | 0 <= i < j < |s| :: s[i] < s[j]
  }

  predicate Distinct(s: seq<int>) {
    forall i, j | 0 <= i < j < |s| :: s[i] != s[j]
  }

  function Elements(s: seq<int>): (r: set<int>)
    ensures forall x :: x in r <==> x in s
  {
    set k | 0 <= k < |s| :: s[k]
  }

  // ---------------------------------------------------------------- combinations(range(n), p)

  function PrependAll(x: int, ss: seq<seq<int>>): seq<seq<int>> {
    seq(|ss|, i requires 0 <= i < |ss| => [x] + ss[i])
  }

  // the k-subsets of [lo, n) as increasing tuples, in the order itertools.combinations yields them
  function Combinations(lo: nat, n: nat, k: nat): seq<seq<int>>
    decreases if lo < n then n - lo else 0
  {
    if k == 0 then [[]]
    else if lo >= n then []
    else PrependAll(lo, Combinations(lo + 1, n, k - 1)) + Combinations(lo + 1, n, k)
  }

  predicate IsCombination(s: seq<int>, lo: nat, n: nat, k: nat) {
    |s| == k && Increasing(s) && forall i | 0 <= i < |s| :: lo <= s[i] < n
  }

  lemma PrependAllMember(x: int, ss: seq<seq<int>>, s: seq<int>)
    ensures s in PrependAll(x, ss) <==> s != [] && s[0] == x && s[1..] in ss
  {
    if s in PrependAll(x, ss) {
      var i :| 0 <= i < |ss| && s == [x] + ss[i];
      assert s[1..] == ss[i];
    }
    if s != [] && s[0] == x && s[1..] in ss {
      var i :| 0 <= i < |ss| && ss[i] == s[1..];
      assert PrependAll(x, ss)[i] == s;
    }
  }

  // A combination either starts with the smallest site or does not use it.
  lemma IsCombinationSplit(s: seq<int>, lo: nat, n: nat, k: nat)
    requires k > 0 && lo < n
    ensures IsCombination(s, lo, n, k) <==>
      (s != [] && s[0] == lo && IsCombination(s[1..], lo + 1, n, k - 1)) || IsCombination(s, lo + 1, n, k)
  {
    if s != [] {
      assert s == [s[0]] + s[1..];
    }
  }

  lemma CombinationsSplit(s: seq<int>, lo: nat, n: nat, k: nat)
    requires k > 0 && lo < n
    ensures s in Combinations(lo, n, k) <==>
      (s != [] && s[0] == lo && s[1..] in Combinations(lo + 1, n, k - 1)) || s in Combinations(lo + 1, n, k)
  {
    PrependAllMember(lo, Combinations(lo + 1, n, k - 1), s);
    hide PrependAll;
  }

  lemma CombinationsEnd(s: seq<int>, lo: nat, n: nat, k: nat)
    requires k == 0 || lo >= n
    ensures s in Combinations(lo, n, k) <==> IsCombination(s, lo, n, k)
  {
    if k == 0 {
      assert Combinations(lo, n, k) == [[]];
    } else {
      assert Combinations(lo, n, k) == [];
      assert s != [] ==> !(lo <= s[0] < n);
    }
  }

  // The enumeration holds exactly the increasing k-tuples over [lo, n).
  lemma {:induction false} CombinationsExact(lo: nat, n: nat, k: nat, s: seq<int>)
    ensures s in Combinations(lo, n, k) <==> IsCombination(s, lo, n, k)
    decreases if lo < n then n - lo else 0
  {
    hide *;
    if k == 0 || lo >= n {
      CombinationsEnd(s, lo, n, k);
    } else {
      CombinationsSplit(s, lo, n, k);
      IsCombinationSplit(s, lo, n, k);
      CombinationsExact(lo + 1, n, k, s);
      if s != [] {
        CombinationsExact(lo + 1, n, k - 1, s[1..]);
      }
    }
  }

  // Python's `<` on tuples of integers.
  predicate TupleLess(a: seq<int>, b: seq<int>) {
    if b == [] then false
    else if a == [] then true
    else a[0] < b[0] || (a[0] == b[0] && TupleLess(a[1..], b[1..]))
  }

  lemma TupleLessTransitive(a: seq<int>, b: seq<int>, c: seq<int>)
    requires TupleLess(a, b) && TupleLess(b, c)
    ensures TupleLess(a, c)
  {
  }

  lemma TupleLessTotal(a: seq<int>, b: seq<int>)
    ensures a == b || TupleLess(a, b) || TupleLess(b, a)
  {
    if a != [] && b != [] {
      TupleLessTotal(a[1..], b[1..]);
      assert a == [a[0]] + a[1..] && b == [b[0]] + b[1..];
    }
  }

  // ---------------------------------------------------------------- exact: min(combinations, key=(cost, s))

  predicate Selections(d: Instance, ss: seq<seq<int>>) {
    forall i | 0 <= i < |ss| :: Selection(d, ss[i])
  }

  // (cost(a), a) < (cost(b), b)
  predicate Cheaper(d: Instance, a: seq<int>, b: seq<int>)
    requires d.Guard() && Selection(d, a) && Selection(d, b)
  {
    Cost(d, a) < Cost(d, b) || (Cost(d, a) == Cost(d, b) && TupleLess(a, b))
  }

  function Cheapest(d: Instance, ss: seq<seq<int>>): (best: seq<int>)
    requires d.Guard() && ss != [] && Selections(d, ss)
    ensures best in ss && Selection(d, best)
  {
    if |ss| == 1 then ss[0]
    else
      var last := ss[|ss| - 1];
      var best := Cheapest(d, ss[..|ss| - 1]);
      if Cheaper(d, last, best) then last else best
  }

  lemma {:induction false} CheapestIsLeast(d: Instance, ss: seq<seq<int>>, i: nat)
    requires d.Guard() && ss != [] && Selections(d, ss) && i < |ss|
    ensures Cheapest(d, ss) == ss[i] || Cheaper(d, Cheapest(d, ss), ss[i])
  {
    if |ss| > 1 {
      var init, last := ss[..|ss| - 1], ss[|ss| - 1];
      var best := Cheapest(d, init);
      TupleLessTotal(best, last);
      if i < |init| {
        CheapestIsLeast(d, init, i);
        if Cheaper(d, last, best) && best != ss[i] && TupleLess(last, best) && TupleLess(best, ss[i]) {
          TupleLessTransitive(last, best, ss[i]);
        }
      }
    }
  }

  lemma CombinationsAreSelections(d: Instance)
    requires d.Guard()
    ensures Selections(d, Combinations(0, |d.sites|, d.p)) && Combinations(0, |d.sites|, d.p) != []
  {
    var n, all := |d.sites|, Combinations(0, |d.sites|, d.p);
    forall i | 0 <= i < |all| ensures Selection(d, all[i]) {
      CombinationsExact(0, n, d.p, all[i]);
    }
    var first: seq<int> := seq(d.p, i => i);
    CombinationsExact(0, n, d.p, first);
  }

  function ExactSelection(d: Instance): (s: seq<int>)
    requires d.Guard()
    ensures Selection(d, s)
  {
    CombinationsAreSelections(d);
    Cheapest(d, Combinations(0, |d.sites|, d.p))
  }

  lemma ExactIsCombination(d: Instance)
    requires d.Guard()
    ensures IsCombination(ExactSelection(d), 0, |d.sites|, d.p)
  {
    CombinationsAreSelections(d);
    CombinationsExact(0, |d.sites|, d.p, ExactSelection(d));
  }

  // The exact branch returns the least increasing p-tuple by (cost, tuple).
  lemma ExactIsOptimal(d: Instance, s: seq<int>)
    requires d.Guard() && IsCombination(s, 0, |d.sites|, d.p)
    ensures Selection(d, s) && (s == ExactSelection(d) || Cheaper(d, ExactSelection(d), s))
  {
    CombinationsAreSelections(d);
    CombinationsExact(0, |d.sites|, d.p, s);
    var all := Combinations(0, |d.sites|, d.p);
    var i :| 0 <= i < |all| && all[i] == s;
    CheapestIsLeast(d, all, i);
  }

  // ---------------------------------------------------------------- greedy

  // min((j for j in range(m) if j not in sel), key=(cost(sel + [j]), j)), if there is any such j
  function BestBelow(d: Instance, sel: seq<int>, m: nat): (best: Option<int>)
    requires d.Guard() && InRange(sel, |d.sites|) && m <= |d.sites|
    ensures best.Some? ==> 0 <= best.value < m
  {
    if m == 0 then None
    else
      var best, j := BestBelow(d, sel, m - 1), m - 1;
      if j in sel then best
      else if best.None? || Cost(d, sel + [j]) < Cost(d, sel + [best.value]) then Some(j)
      else best
  }

  lemma {:induction false} BestBelowIsNew(d: Instance, sel: seq<int>, m: nat)
    requires d.Guard() && InRange(sel, |d.sites|) && m <= |d.sites|
    ensures BestBelow(d, sel, m).Some? ==> BestBelow(d, sel, m).value !in sel
  {
    if m > 0 {
      BestBelowIsNew(d, sel, m - 1);
    }
  }

  lemma {:induction false} BestBelowIsBest(d: Instance, sel: seq<int>, m: nat, j: int)
    requires d.Guard() && InRange(sel, |d.sites|) && m <= |d.sites| && 0 <= j < m && j !in sel
    ensures BestBelow(d, sel, m).Some?
    ensures var best := BestBelow(d, sel, m).value;
      Cost(d, sel + [best]) < Cost(d, sel + [j]) || (Cost(d, sel + [best]) == Cost(d, sel + [j]) && best <= j)
  {
    if j < m - 1 {
      BestBelowIsBest(d, sel, m - 1, j);
    }
  }

  lemma {:induction false} ElementsCount(s: seq<int>)
    ensures |Elements(s)| <= |s|
    ensures Distinct(s) <==> |Elements(s)| == |s|
  {
    if s != [] {
      var init, last := s[..|s| - 1], s[|s| - 1];
      ElementsCount(init);
      assert Elements(s) == Elements(init) + {last};
      DistinctNext(s);
    }
  }

  lemma DistinctNext(s: seq<int>)
    requires s != []
    ensures Distinct(s) <==> Distinct(s[..|s| - 1]) && s[|s| - 1] !in s[..|s| - 1]
  {
    var init, last := s[..|s| - 1], s[|s| - 1];
    assert forall k | 0 <= k < |init| :: init[k] == s[k];
  }

  function Range(n: nat): (r: set<int>)
    ensures |r| == n && forall j :: j in r <==> 0 <= j < n
  {
    if n == 0 then {} else Range(n - 1) + {n - 1}
  }

  lemma SubsetCount(a: set<int>, b: set<int>)
    requires a <= b
    ensures |a| <= |b|
  {
    assert b == a + (b - a);
  }

  lemma Pigeonhole(sel: seq<int>, n: nat)
    requires |sel| < n
    ensures exists j :: 0 <= j < n && j !in sel
  {
    if forall j :: 0 <= j < n ==> j in sel {
      ElementsCount(sel);
      assert Range(n) <= Elements(sel);
      SubsetCount(Range(n), Elements(sel));
    }
  }

  // Fewer than n picks leave a site to choose from.
  lemma SomeSiteLeft(d: Instance, sel: seq<int>)
    requires d.Guard() && InRange(sel, |d.sites|) && |sel| < |d.sites|
    ensures BestBelow(d, sel, |d.sites|).Some?
  {
    Pigeonhole(sel, |d.sites|);
    var j :| 0 <= j < |d.sites| && j !in sel;
    BestBelowIsBest(d, sel, |d.sites|, j);
  }

  // The list `selected` after k rounds of the greedy loop.
  function GreedyPicks(d: Instance, k: nat): (sel: seq<int>)
    requires d.Guard() && k <= d.p
    ensures |sel| == k && InRange(sel, |d.sites|)
  {
    if k == 0 then []
    else
      var sel := GreedyPicks(d, k - 1);
      SomeSiteLeft(d, sel);
      sel + [BestBelow(d, sel, |d.sites|).value]
  }

  lemma GreedyPicksNext(d: Instance, k: nat) returns (site: int)
    requires d.Guard() && k < d.p
    ensures 0 <= site < |d.sites| && site !in GreedyPicks(d, k)
    ensures BestBelow(d, GreedyPicks(d, k), |d.sites|) == Some(site)
    ensures GreedyPicks(d, k + 1) == GreedyPicks(d, k) + [site]
  {
    SomeSiteLeft(d, GreedyPicks(d, k));
    BestBelowIsNew(d, GreedyPicks(d, k), |d.sites|);
    site := BestBelow(d, GreedyPicks(d, k), |d.sites|).value;
  }

  lemma {:induction false} GreedyPicksDistinct(d: Instance, k: nat)
    requires d.Guard() && k <= d.p
    ensures Distinct(GreedyPicks(d, k))
  {
    if k > 0 {
      GreedyPicksDistinct(d, k - 1);
      var site := GreedyPicksNext(d, k - 1);
    }
  }

  // ---------------------------------------------------------------- the returned record

  function Insert(x: int, s: seq<int>): (r: seq<int>) {
    if s == [] || x <= s[0] then [x] + s else [s[0]] + Insert(x, s[1..])
  }

  // sorted(selected)
  function Sorted(s: seq<int>): (r: seq<int>) {
    if s == [] then [] else Insert(s[0], Sorted(s[1..]))
  }

  lemma {:induction false} InsertElements(x: int, s: seq<int>)
    ensures |Insert(x, s)| == |s| + 1
    ensures forall y :: y in Insert(x, s) <==> y == x || y in s
    ensures Increasing(s) && x !in s ==> Increasing(Insert(x, s))
  {
    if s != [] && s[0] < x {
      InsertElements(x, s[1..]);
      var rest := Insert(x, s[1..]);
      assert forall y :: y in s <==> y == s[0] || y in s[1..];
      if Increasing(s) && x !in s {
        assert forall k :: 0 <= k < |rest| ==> rest[k] in rest;
        assert forall k :: 0 <= k < |s[1..]| ==> s[0] < s[1..][k];
      }
    }
  }

  lemma {:induction false} SortedElements(s: seq<int>)
    ensures |Sorted(s)| == |s|
    ensures forall y :: y in Sorted(s) <==> y in s
    ensures Distinct(s) ==> Increasing(Sorted(s))
  {
    if s != [] {
      SortedElements(s[1..]);
      InsertElements(s[0], Sorted(s[1..]));
      assert forall y :: y in s <==> y == s[0] || y in s[1..];
    }
  }

  // min(sel, key=(row[j], j))
  function NearestSite(row: seq<real>, sel: seq<int>): (j: int)
    requires sel != [] && InRange(sel, |row|)
    ensures j in sel && 0 <= j < |row|
    ensures forall k :: 0 <= k < |sel| ==> row[j] < row[sel[k]] || (row[j] == row[sel[k]] && j <= sel[k])
  {
    var last := sel[|sel| - 1];
    if |sel| == 1 then last
    else
      var j := NearestSite(row, sel[..|sel| - 1]);
      if row[last] < row[j] || (row[last] == row[j] && last < j) then last else j
  }

  lemma NearestSiteDistance(row: seq<real>, sel: seq<int>)
    requires sel != [] && InRange(sel, |row|)
    ensures row[NearestSite(row, sel)] == Nearest(row, sel)
  {
    NearestIsMinimum(row, sel);
  }

  function Report(d: Instance, sel: seq<int>): (r: Solution)
    requires d.Guard() && Selection(d, sel)
  {
    Solution(Sorted(sel), Cost(d, sel),
             seq(|d.distances|, i requires 0 <= i < |d.distances| => NearestSite(d.distances[i], sel)))
  }

  function Solved(d: Instance, m: Method): Result<Solution, SolveError> {
    if !d.Guard() then Err(InvalidFixture)
    else if m.Greedy? then Ok(Report(d, GreedyPicks(d, d.p)))
    else Ok(Report(d, ExactSelection(d)))
  }

  // j is the selected site that serves a row: nearest, and of the nearest ones the first.
  ghost predicate Serves(row: seq<real>, selected: seq<int>, j: int)
    requires InRange(selected, |row|)
  {
    j in selected && 0 <= j < |row|
      && forall k | k in selected && 0 <= k < |row| :: row[j] < row[k] || (row[j] == row[k] && j <= k)
  }

  // The record lists the picked sites in increasing order, with their exact cost and the site that serves each row.
  ghost predicate Describes(d: Instance, picks: seq<int>, r: Solution)
    requires d.Guard()
  {
    && (forall i, j | 0 <= i < j < |r.selected| :: r.selected[i] < r.selected[j])
    && (forall site :: site in r.selected <==> site in picks)
    && Selection(d, r.selected) && r.objective == Cost(d, r.selected)
    && |r.assignments| == |d.distances|
    && forall i | 0 <= i < |d.distances| :: Serves(d.distances[i], r.selected, r.assignments[i])
  }

  lemma SortedSelection(d: Instance, sel: seq<int>)
    requires d.Guard() && Selection(d, sel)
    ensures Selection(d, Sorted(sel)) && Cost(d, Sorted(sel)) == Cost(d, sel)
  {
    SortedElements(sel);
    var sorted := Sorted(sel);
    hide Sorted, Cost;
    assert forall k | 0 <= k < |sorted| :: sorted[k] in sorted;
    CostMonotone(d, sel, sorted);
    CostMonotone(d, sorted, sel);
  }

  lemma ReportDescribes(d: Instance, sel: seq<int>)
    requires d.Guard() && Selection(d, sel) && Distinct(sel)
    ensures Describes(d, sel, Report(d, sel))
  {
    var r := Report(d, sel);
    SortedElements(sel);
    SortedSelection(d, sel);
    hide Sorted, Cost, NearestSite;
    forall i | 0 <= i < |d.distances| ensures Serves(d.distances[i], r.selected, r.assignments[i]) {
      assert r.assignments[i] == NearestSite(d.distances[i], sel);
    }
  }

  // What is returned, without the helpers that build it.
  lemma SolvedMeaning(d: Instance, m: Method)
    requires d.Guard()
    ensures Solved(d, m).Ok?
    ensures Describes(d, if m.Greedy? then GreedyPicks(d, d.p) else ExactSelection(d), Solved(d, m).value)
  {
    if m.Greedy? {
      GreedyPicksDistinct(d, d.p);
      ReportDescribes(d, GreedyPicks(d, d.p));
    } else {
      ExactIsCombination(d);
      ReportDescribes(d, ExactSelection(d));
    }
  }

  lemma GuardMeaning(d: Instance)
    ensures d.Guard() <==>
      && 1 <= d.p <= |d.sites| && |d.weights| == |d.distances|
      && (forall row | row in d.distances :: |row| == |d.sites| && forall x | x in row :: x >= 0.0)
      && forall w | w in d.weights :: w > 0.0
  {
    if d.Guard() {
      forall row | row in d.distances ensures |row| == |d.sites| && forall x | x in row :: x >= 0.0 {
        var i :| 0 <= i < |d.distances| && d.distances[i] == row;
      }
    }
    assert forall i | 0 <= i < |d.distances| :: d.distances[i] in d.distances;
    assert forall i, j | 0 <= i < |d.distances| && 0 <= j < |d.distances[i]| :: d.distances[i][j] in d.distances[i];
    assert forall i | 0 <= i < |d.weights| :: d.weights[i] in d.weights;
  }

  method Solve(d: Instance, m: Method) returns (r: Result<Solution, SolveError>)
    ensures r == Solved(d, m)
    ensures r.Ok? <==> d.Guard()
    ensures r.Ok? ==> Describes(d, if m.Greedy? then GreedyPicks(d, d.p) else ExactSelection(d), r.value)
  {
    GuardMeaning(d);
    var n := |d.sites|;
    if !(1 <= d.p <= n && |d.weights| == |d.distances|
         && (forall row | row in d.distances :: |row| == n && forall x | x in row :: x >= 0.0)
         && forall w | w in d.weights :: w > 0.0)
    {
      return Err(InvalidFixture);
    }
    var selected: seq<int>;
    if m.Greedy? {
      selected := [];
      for k := 0 to d.p
        invariant selected == GreedyPicks(d, k)
      {
        SomeSiteLeft(d, selected);
        selected := selected + [BestBelow(d, selected, |d.sites|).value];
      }
    } else {
      selected := ExactSelection(d);
    }
    SolvedMeaning(d, m);
    r := Ok(Report(d, selected));
  }
}
