/** The facility location instance and its cost function, in exact arithmetic.
    The cost of a non-empty selection is the weighted sum, over demand points, of the
    distance to the nearest selected site. */
module FacilityCost {

  datatype Instance = Instance(sites: seq<string>, weights: seq<real>, distances: seq<seq<real>>, p: int) {

    // Each demand point has a row that reaches every site, so no lookup of a distance fails.
    predicate Readable() {
      |weights| <= |distances| && forall i | 0 <= i < |weights| :: |sites| <= |distances[i]|
    }

    // What `solve` checks before it does anything else.
    predicate Guard() {
      && 1 <= p <= |sites|
      && |weights| == |distances|
      && (forall i | 0 <= i < |distances| :: |distances[i]| == |sites|)
      && (forall i, j | 0 <= i < |distances| && 0 <= j < |distances[i]| :: distances[i][j] >= 0.0)
      && (forall i | 0 <= i < |weights| :: weights[i] > 0.0)
    }
  }

  // Site indices that Python's `row[j]` reads without wrapping round or failing.
  predicate InRange(sel: seq<int>, n: nat) {
    forall k | 0 <= k < |sel| :: 0 <= sel[k] < n
  }

  predicate Selection(d: Instance, sel: seq<int>) {
    sel != [] && InRange(sel, |d.sites|)
  }

  function Min(a: real, b: real): real {
    if a <= b then a else b
  }

  // min(row[j] for j in sel)
  function Nearest(row: seq<real>, sel: seq<int>): real
    requires sel != [] && InRange(sel, |row|)
  {
    var last := row[sel[|sel| - 1]];
    if |sel| == 1 then last else Min(Nearest(row, sel[..|sel| - 1]), last)
  }

  // the weighted distance of demand point i
  function Term(d: Instance, sel: seq<int>, i: nat): real
    requires d.Readable() && Selection(d, sel) && i < |d.weights|
  {
    Times(d.weights[i], Nearest(d.distances[i], sel))
  }

  // A named product: it keeps nonlinear terms out of proofs that do not need them.
  function Times(w: real, x: real): real {
    w * x
  }

  // sum of the first m weighted nearest distances
  function CostUpTo(d: Instance, sel: seq<int>, m: nat): real
    requires d.Readable() && Selection(d, sel) && m <= |d.weights|
  {
    if m == 0 then 0.0 else CostUpTo(d, sel, m - 1) + Term(d, sel, m - 1)
  }

  function Cost(d: Instance, sel: seq<int>): real
    requires d.Readable() && Selection(d, sel)
  {
    CostUpTo(d, sel, |d.weights|)
  }

  lemma {:induction false} NearestIsMinimum(row: seq<real>, sel: seq<int>)
    requires sel != [] && InRange(sel, |row|)
    ensures exists k :: 0 <= k < |sel| && row[sel[k]] == Nearest(row, sel)
    ensures forall k :: 0 <= k < |sel| ==> Nearest(row, sel) <= row[sel[k]]
  {
    var last := |sel| - 1;
    if last > 0 {
      var init := sel[..last];
      NearestIsMinimum(row, init);
      var k :| 0 <= k < |init| && row[init[k]] == Nearest(row, init);
      assert row[sel[if row[sel[k]] <= row[sel[last]] then k else last]] == Nearest(row, sel);
      forall i | 0 <= i < |sel| ensures Nearest(row, sel) <= row[sel[i]] {
        if i < last { assert row[init[i]] == row[sel[i]]; }
      }
    } else {
      assert row[sel[0]] == Nearest(row, sel);
    }
  }

  // More sites never move a demand point further away.
  lemma NearestMonotone(row: seq<real>, a: seq<int>, b: seq<int>)
    requires a != [] && b != [] && InRange(a, |row|) && InRange(b, |row|)
    requires forall k :: 0 <= k < |a| ==> a[k] in b
    ensures Nearest(row, b) <= Nearest(row, a)
  {
    NearestIsMinimum(row, a);
    NearestIsMinimum(row, b);
    var k :| 0 <= k < |a| && row[a[k]] == Nearest(row, a);
    var l :| 0 <= l < |b| && b[l] == a[k];
  }

  lemma NearestAppend(row: seq<real>, sel: seq<int>, j: int)
    requires sel != [] && InRange(sel, |row|) && 0 <= j < |row|
    ensures InRange(sel + [j], |row|)
    ensures Nearest(row, sel + [j]) == Min(Nearest(row, sel), row[j])
  {
    assert (sel + [j])[..|sel|] == sel;
  }

  lemma TimesMonotone(w: real, x: real, y: real)
    requires w >= 0.0 && x <= y
    ensures Times(w, x) <= Times(w, y)
  {
  }

  lemma TimesGain(w: real, x: real, x': real, y: real, y': real)
    requires w >= 0.0 && y - y' <= x - x'
    ensures Times(w, y) - Times(w, y') <= Times(w, x) - Times(w, x')
  {
    TimesMonotone(w, y - y', x - x');
    assert w * (y - y') == w * y - w * y' && w * (x - x') == w * x - w * x';
  }

  lemma {:induction false} CostMonotoneUpTo(d: Instance, a: seq<int>, b: seq<int>, m: nat)
    requires d.Guard() && Selection(d, a) && Selection(d, b) && m <= |d.weights|
    requires forall k :: 0 <= k < |a| ==> a[k] in b
    ensures CostUpTo(d, b, m) <= CostUpTo(d, a, m)
  {
    if m > 0 {
      CostMonotoneUpTo(d, a, b, m - 1);
      NearestMonotone(d.distances[m - 1], a, b);
      TimesMonotone(d.weights[m - 1], Nearest(d.distances[m - 1], b), Nearest(d.distances[m - 1], a));
    }
  }

  // Adding sites never raises the cost; in particular the cost depends on the set of sites only.
  lemma CostMonotone(d: Instance, a: seq<int>, b: seq<int>)
    requires d.Guard() && Selection(d, a) && Selection(d, b)
    requires forall k :: 0 <= k < |a| ==> a[k] in b
    ensures Cost(d, b) <= Cost(d, a)
  {
    CostMonotoneUpTo(d, a, b, |d.weights|);
  }

  lemma SupermodularRow(row: seq<real>, a: seq<int>, b: seq<int>, j: int)
    requires a != [] && b != [] && InRange(a, |row|) && InRange(b, |row|) && 0 <= j < |row|
    requires forall k :: 0 <= k < |a| ==> a[k] in b
    ensures InRange(a + [j], |row|) && InRange(b + [j], |row|)
    ensures Nearest(row, b) - Nearest(row, b + [j]) <= Nearest(row, a) - Nearest(row, a + [j])
  {
    NearestMonotone(row, a, b);
    NearestAppend(row, a, j);
    NearestAppend(row, b, j);
  }

  lemma SupermodularTerm(d: Instance, a: seq<int>, b: seq<int>, j: int, i: nat)
    requires d.Guard() && Selection(d, a) && Selection(d, b) && 0 <= j < |d.sites| && i < |d.weights|
    requires forall k :: 0 <= k < |a| ==> a[k] in b
    ensures Selection(d, a + [j]) && Selection(d, b + [j])
    ensures Term(d, b, i) - Term(d, b + [j], i) <= Term(d, a, i) - Term(d, a + [j], i)
  {
    var row := d.distances[i];
    SupermodularRow(row, a, b, j);
    TimesGain(d.weights[i], Nearest(row, a), Nearest(row, a + [j]), Nearest(row, b), Nearest(row, b + [j]));
  }

  lemma {:induction false} SupermodularUpTo(d: Instance, a: seq<int>, b: seq<int>, j: int, m: nat)
    requires d.Guard() && Selection(d, a) && Selection(d, b) && 0 <= j < |d.sites| && m <= |d.weights|
    requires forall k :: 0 <= k < |a| ==> a[k] in b
    ensures CostUpTo(d, b, m) - CostUpTo(d, b + [j], m) <= CostUpTo(d, a, m) - CostUpTo(d, a + [j], m)
  {
    if m > 0 {
      SupermodularUpTo(d, a, b, j, m - 1);
      SupermodularTerm(d, a, b, j, m - 1);
    }
  }

  // Diminishing returns: opening one more site saves at most as much on a larger selection.
  lemma Supermodular(d: Instance, a: seq<int>, b: seq<int>, j: int)
    requires d.Guard() && Selection(d, a) && Selection(d, b) && 0 <= j < |d.sites|
    requires forall k :: 0 <= k < |a| ==> a[k] in b
    ensures Cost(d, b) - Cost(d, b + [j]) <= Cost(d, a) - Cost(d, a + [j])
  {
    SupermodularUpTo(d, a, b, j, |d.weights|);
  }
}
