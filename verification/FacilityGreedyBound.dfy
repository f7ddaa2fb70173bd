/** How far the greedy baseline can be from the exact optimum. */
module FacilityGreedyBound {
  import opened FacilityCost
  import opened FacilitySolve

  function Optimum(d: Instance): real
    requires d.Guard()
  {
    Cost(d, ExactSelection(d))
  }

  function GreedyCost(d: Instance, k: nat): real
    requires d.Guard() && 1 <= k <= d.p
  {
    Cost(d, GreedyPicks(d, k))
  }

  // the distance of the greedy cost after k rounds from the optimum
  function Gap(d: Instance, k: nat): real
    requires d.Guard() && 1 <= k <= d.p
  {
    GreedyCost(d, k) - Optimum(d)
  }

  // what the sites of t would each save on their own, added to g
  function SingleGains(d: Instance, g: seq<int>, t: seq<int>): real
    requires d.Guard() && Selection(d, g) && InRange(t, |d.sites|)
  {
    if t == [] then 0.0
    else SingleGains(d, g, t[..|t| - 1]) + (Cost(d, g) - Cost(d, g + [t[|t| - 1]]))
  }

  // Adding all of t saves at most the sum of the separate savings.
  lemma {:induction false} JointGain(d: Instance, g: seq<int>, t: seq<int>)
    requires d.Guard() && Selection(d, g) && InRange(t, |d.sites|)
    ensures Cost(d, g) - Cost(d, g + t) <= SingleGains(d, g, t)
  {
    if t == [] {
      assert g + t == g;
    } else {
      var init, last := t[..|t| - 1], t[|t| - 1];
      JointGain(d, g, init);
      Supermodular(d, g, g + init, last);
      assert g + init + [last] == g + t;
    }
  }

  // The greedy pick is at least as good as adding any site, selected already or not.
  lemma GreedyPickIsBest(d: Instance, k: nat, j: int)
    requires d.Guard() && 1 <= k < d.p && 0 <= j < |d.sites|
    ensures GreedyCost(d, k + 1) <= Cost(d, GreedyPicks(d, k) + [j])
  {
    var g := GreedyPicks(d, k);
    var site := GreedyPicksNext(d, k);
    if j in g {
      CostMonotone(d, g + [j], g + [site]);
    } else {
      BestBelowIsBest(d, g, |d.sites|, j);
    }
  }

  // n * x, by repeated addition: it keeps the bounds free of nonlinear arithmetic until the end
  function Scale(n: nat, x: real): real {
    if n == 0 then 0.0 else Scale(n - 1, x) + x
  }

  lemma {:induction false} ScaleIsProduct(n: nat, x: real)
    ensures Scale(n, x) == Times(n as real, x)
  {
    if n > 0 {
      ScaleIsProduct(n - 1, x);
      assert n as real * x == (n - 1) as real * x + x;
    }
  }

  lemma {:induction false} ScaleMonotone(n: nat, x: real, y: real)
    requires x <= y
    ensures Scale(n, x) <= Scale(n, y)
  {
    if n > 0 { ScaleMonotone(n - 1, x, y); }
  }

  lemma {:induction false} ScaleSum(n: nat, x: real, y: real)
    ensures Scale(n, x + y) == Scale(n, x) + Scale(n, y)
  {
    if n > 0 { ScaleSum(n - 1, x, y); }
  }

  lemma {:induction false} ScaleZero(n: nat)
    ensures Scale(n, 0.0) == 0.0
  {
    if n > 0 { ScaleZero(n - 1); }
  }

  lemma {:induction false} ScaleCommutes(m: nat, n: nat, x: real)
    ensures Scale(m, Scale(n, x)) == Scale(n, Scale(m, x))
  {
    if n == 0 {
      ScaleZero(m);
    } else {
      ScaleCommutes(m, n - 1, x);
      ScaleSum(m, Scale(n - 1, x), x);
    }
  }

  // If no single site saves more than x, the sites of t together save at most |t| times x.
  lemma {:induction false} JointGainBounded(d: Instance, g: seq<int>, t: seq<int>, x: real)
    requires d.Guard() && Selection(d, g) && InRange(t, |d.sites|)
    requires forall j | 0 <= j < |d.sites| :: Cost(d, g) - Cost(d, g + [j]) <= x
    ensures SingleGains(d, g, t) <= Scale(|t|, x)
  {
    if t != [] {
      var last := t[|t| - 1];
      JointGainBounded(d, g, t[..|t| - 1], x);
      assert Cost(d, g) - Cost(d, g + [last]) <= x;
    }
  }

  lemma RearrangeStep(p: nat, now: real, next: real)
    requires p > 0 && now <= Scale(p, now - next)
    ensures Scale(p, next) <= Scale(p - 1, now)
  {
    ScaleSum(p, now - next, next);
  }

  lemma GreedyStepScaled(d: Instance, k: nat)
    requires d.Guard() && 1 <= k < d.p
    ensures Scale(d.p, Gap(d, k + 1)) <= Scale(d.p - 1, Gap(d, k))
  {
    hide *;
    GapBelowJointGain(d, k);
    RearrangeStep(d.p, Gap(d, k), Gap(d, k + 1));
  }

  // Each greedy round after the first closes at least 1/p of the gap to the optimum:
  // p * gap after the round <= (p - 1) * gap before it.
  lemma GreedyStepBound(d: Instance, k: nat)
    requires d.Guard() && 1 <= k < d.p
    ensures d.p as real * Gap(d, k + 1) <= (d.p - 1) as real * Gap(d, k)
  {
    hide Gap, Scale;
    GreedyStepScaled(d, k);
    ScaleIsProduct(d.p, Gap(d, k + 1));
    ScaleIsProduct(d.p - 1, Gap(d, k));
  }

  lemma RoundGainIsBest(d: Instance, k: nat)
    requires d.Guard() && 1 <= k < d.p
    ensures forall j | 0 <= j < |d.sites| ::
      Cost(d, GreedyPicks(d, k)) - Cost(d, GreedyPicks(d, k) + [j]) <= Gap(d, k) - Gap(d, k + 1)
  {
    forall j | 0 <= j < |d.sites|
      ensures Cost(d, GreedyPicks(d, k)) - Cost(d, GreedyPicks(d, k) + [j]) <= Gap(d, k) - Gap(d, k + 1)
    {
      GreedyPickIsBest(d, k, j);
    }
  }

  lemma GapBelowJointGain(d: Instance, k: nat)
    requires d.Guard() && 1 <= k < d.p
    ensures Gap(d, k) <= Scale(d.p, Gap(d, k) - Gap(d, k + 1))
  {
    hide GreedyPicks, ExactSelection, Cost;
    var g, t := GreedyPicks(d, k), ExactSelection(d);
    ExactIsCombination(d);
    JointGain(d, g, t);
    CostMonotone(d, t, g + t);
    RoundGainIsBest(d, k);
    JointGainBounded(d, g, t, Gap(d, k) - Gap(d, k + 1));
  }

  // Every set of at most p sites lies inside a p-subset.
  lemma {:induction false} ExtendToCombination(lo: nat, n: nat, k: nat, u: set<int>) returns (s: seq<int>)
    requires lo <= n && |u| <= k <= n - lo
    requires forall x :: x in u ==> lo <= x < n
    ensures IsCombination(s, lo, n, k) && forall x :: x in u ==> x in s
    decreases n - lo
  {
    if k == 0 {
      s := [];
    } else if lo in u {
      assert u == (u - {lo}) + {lo};
      var rest := ExtendToCombination(lo + 1, n, k - 1, u - {lo});
      s := [lo] + rest;
    } else if k == n - lo {
      CountBetween(u, lo + 1, n);
      var rest := ExtendToCombination(lo + 1, n, k - 1, u);
      s := [lo] + rest;
    } else {
      s := ExtendToCombination(lo + 1, n, k, u);
    }
  }

  lemma CountBetween(u: set<int>, lo: nat, n: nat)
    requires lo <= n && forall x :: x in u ==> lo <= x < n
    ensures |u| <= n - lo
  {
    var between := Range(n) - Range(lo);
    assert Range(n) == Range(lo) + between;
    assert u <= between;
    SubsetCount(u, between);
  }

  // No selection of at most p sites beats the exact optimum.
  lemma OptimumIsLowerBound(d: Instance, sel: seq<int>)
    requires d.Guard() && Selection(d, sel) && |Elements(sel)| <= d.p
    ensures Optimum(d) <= Cost(d, sel)
  {
    var s := ExtendToCombination(0, |d.sites|, d.p, Elements(sel));
    ExactIsOptimal(d, s);
    CostMonotone(d, sel, s);
  }

  // b^k * x
  function ScaleRepeatedly(b: nat, k: nat, x: real): real {
    if k == 0 then x else Scale(b, ScaleRepeatedly(b, k - 1, x))
  }

  lemma {:induction false} ScaleRepeatedlyMonotone(b: nat, k: nat, x: real, y: real)
    requires x <= y
    ensures ScaleRepeatedly(b, k, x) <= ScaleRepeatedly(b, k, y)
  {
    if k > 0 {
      ScaleRepeatedlyMonotone(b, k - 1, x, y);
      ScaleMonotone(b, ScaleRepeatedly(b, k - 1, x), ScaleRepeatedly(b, k - 1, y));
    }
  }

  lemma {:induction false} ScaleRepeatedlyCommutes(b: nat, k: nat, n: nat, x: real)
    ensures ScaleRepeatedly(b, k, Scale(n, x)) == Scale(n, ScaleRepeatedly(b, k, x))
  {
    if k > 0 {
      ScaleRepeatedlyCommutes(b, k - 1, n, x);
      ScaleCommutes(b, n, ScaleRepeatedly(b, k - 1, x));
    }
  }

  lemma {:induction false} GreedyGapScaled(d: Instance, k: nat)
    requires d.Guard() && 1 <= k <= d.p
    ensures ScaleRepeatedly(d.p, k - 1, Gap(d, k)) <= ScaleRepeatedly(d.p - 1, k - 1, Gap(d, 1))
  {
    hide Gap, Scale;
    if k > 1 {
      var p := d.p;
      GreedyStepScaled(d, k - 1);
      ScaleRepeatedlyMonotone(p, k - 2, Scale(p, Gap(d, k)), Scale(p - 1, Gap(d, k - 1)));
      ScaleRepeatedlyCommutes(p, k - 2, p, Gap(d, k));
      ScaleRepeatedlyCommutes(p, k - 2, p - 1, Gap(d, k - 1));
      GreedyGapScaled(d, k - 1);
      ScaleMonotone(p - 1, ScaleRepeatedly(p, k - 2, Gap(d, k - 1)), ScaleRepeatedly(p - 1, k - 2, Gap(d, 1)));
    }
  }

  // ---------------------------------------------------------------- the bound in products

  function Power(b: real, n: nat): real {
    if n == 0 then 1.0 else Times(b, Power(b, n - 1))
  }

  lemma TimesAssociates(x: real, y: real, z: real)
    ensures Times(x, Times(y, z)) == Times(Times(x, y), z)
  {
  }

  lemma TimesFour(a: real, x: real, b: real, y: real)
    ensures Times(Times(a, x), Times(b, y)) == Times(Times(a, b), Times(x, y))
  {
    calc {
      (a * x) * (b * y);
      a * (x * (b * y));
      a * ((x * b) * y);
      a * (b * (x * y));
      (a * b) * (x * y);
    }
  }

  lemma {:induction false} RepeatedIsPower(b: nat, k: nat, x: real)
    ensures ScaleRepeatedly(b, k, x) == Times(Power(b as real, k), x)
  {
    if k > 0 {
      RepeatedIsPower(b, k - 1, x);
      ScaleIsProduct(b, ScaleRepeatedly(b, k - 1, x));
      hide Times;
      TimesAssociates(b as real, Power(b as real, k - 1), x);
    } else {
      assert Times(1.0, x) == x;
    }
  }

  // 1 - 1/p
  function Ratio(p: nat): real
    requires p > 0
  {
    1.0 - 1.0 / p as real
  }

  lemma RatioIs(p: nat)
    requires p > 0
    ensures Times(p as real, Ratio(p)) == (p - 1) as real
  {
    assert p as real * (1.0 / p as real) == 1.0;
    assert p as real * (1.0 - 1.0 / p as real) == p as real * 1.0 - p as real * (1.0 / p as real);
  }

  lemma {:induction false} PowerRatio(p: nat, k: nat)
    requires p > 0
    ensures Times(Power(p as real, k), Power(Ratio(p), k)) == Power((p - 1) as real, k)
  {
    if k > 0 {
      PowerRatio(p, k - 1);
      RatioIs(p);
      hide Times, Ratio;
      TimesFour(p as real, Power(p as real, k - 1), Ratio(p), Power(Ratio(p), k - 1));
    } else {
      assert Times(1.0, 1.0) == 1.0;
    }
  }

  lemma {:induction false} PowerPositive(b: real, k: nat)
    requires b > 0.0
    ensures Power(b, k) > 0.0
  {
    if k > 0 {
      PowerPositive(b, k - 1);
      TimesPositive(b, Power(b, k - 1));
    }
  }

  lemma TimesPositive(x: real, y: real)
    requires x > 0.0 && y > 0.0
    ensures Times(x, y) > 0.0
  {
  }

  lemma TimesCancels(w: real, x: real, y: real)
    requires w > 0.0 && Times(w, x) <= Times(w, y)
    ensures x <= y
  {
    if y < x { TimesPositive(w, x - y); }
  }

  // After k rounds the gap is at most (1 - 1/p)^(k-1) times the gap after the first pick.
  lemma GreedyGapBound(d: Instance, k: nat)
    requires d.Guard() && 1 <= k <= d.p
    ensures Gap(d, k) <= Times(Power(Ratio(d.p), k - 1), Gap(d, 1))
  {
    hide *;
    var p, n := d.p, k - 1;
    GreedyGapScaled(d, k);
    RepeatedIsPower(p, n, Gap(d, k));
    RepeatedIsPower(p - 1, n, Gap(d, 1));
    PowerRatio(p, n);
    TimesAssociates(Power(p as real, n), Power(Ratio(p), n), Gap(d, 1));
    PowerPositive(p as real, n);
    TimesCancels(Power(p as real, n), Gap(d, k), Times(Power(Ratio(p), n), Gap(d, 1)));
  }

  lemma GreedyNeverBeatsOptimum(d: Instance, k: nat)
    requires d.Guard() && 1 <= k <= d.p
    ensures 0.0 <= Gap(d, k)
  {
    ElementsCount(GreedyPicks(d, k));
    OptimumIsLowerBound(d, GreedyPicks(d, k));
  }

  // With a single site to open, greedy is exact.
  lemma GreedyExactForOneSite(d: Instance)
    requires d.Guard() && d.p == 1
    ensures GreedyCost(d, 1) == Optimum(d)
  {
    GreedyNeverBeatsOptimum(d, 1);
    ExactIsCombination(d);
    var j := ExactSelection(d)[0];
    assert ExactSelection(d) == [j];
    var site := GreedyPicksNext(d, 0);
    assert [] + [site] == [site] && [] + [j] == [j];
    BestBelowIsBest(d, [], |d.sites|, j);
  }
}
