/** Python's ordering of strings and tuples of strings, and `sorted` on sets of them. */
module Ordering {

  // `a < b` for strings: code point by code point
  predicate StringLess(a: string, b: string) {
    if b == [] then false
    else if a == [] then true
    else a[0] < b[0] || (a[0] == b[0] && StringLess(a[1..], b[1..]))
  }

  lemma {:induction false} StringLessTotal(a: string, b: string)
    ensures a == b || StringLess(a, b) || StringLess(b, a)
  {
    if a != [] && b != [] && a[0] == b[0] {
      StringLessTotal(a[1..], b[1..]);
      assert a == [a[0]] + a[1..] && b == [b[0]] + b[1..];
    }
  }

  lemma {:induction false} StringLessTransitive(a: string, b: string, c: string)
    requires StringLess(a, b) && StringLess(b, c)
    ensures StringLess(a, c)
  {
    if a != [] && a[0] == b[0] && b[0] == c[0] {
      StringLessTransitive(a[1..], b[1..], c[1..]);
    }
  }

  lemma {:induction false} StringLessIrreflexive(a: string)
    ensures !StringLess(a, a)
  {
    if a != [] { StringLessIrreflexive(a[1..]); }
  }

  // `a < b` for tuples of strings
  predicate TupleLess(a: seq<string>, b: seq<string>) {
    if b == [] then false
    else if a == [] then true
    else StringLess(a[0], b[0]) || (a[0] == b[0] && TupleLess(a[1..], b[1..]))
  }

  lemma {:induction false} TupleLessTotal(a: seq<string>, b: seq<string>)
    ensures a == b || TupleLess(a, b) || TupleLess(b, a)
  {
    if a != [] && b != [] {
      StringLessTotal(a[0], b[0]);
      if a[0] == b[0] {
        TupleLessTotal(a[1..], b[1..]);
        assert a == [a[0]] + a[1..] && b == [b[0]] + b[1..];
      }
    }
  }

  lemma {:induction false} TupleLessTransitive(a: seq<string>, b: seq<string>, c: seq<string>)
    requires TupleLess(a, b) && TupleLess(b, c)
    ensures TupleLess(a, c)
  {
    if a != [] {
      StringLessIrreflexive(a[0]);
      if a[0] == b[0] == c[0] {
        TupleLessTransitive(a[1..], b[1..], c[1..]);
      } else if StringLess(a[0], b[0]) && StringLess(b[0], c[0]) {
        StringLessTransitive(a[0], b[0], c[0]);
      }
    }
  }

  lemma {:induction false} TupleLessIrreflexive(a: seq<string>)
    ensures !TupleLess(a, a)
  {
    if a != [] {
      StringLessIrreflexive(a[0]);
      TupleLessIrreflexive(a[1..]);
    }
  }

  predicate StrictlySorted(s: seq<seq<string>>) {
    forall i, j | 0 <= i < j < |s| :: TupleLess(s[i], s[j])
  }

  predicate IsLeast(s: set<seq<string>>, x: seq<string>) {
    x in s && forall y | y in s :: y != x ==> TupleLess(x, y)
  }

  lemma {:induction false} HasLeast(s: set<seq<string>>)
    requires s != {}
    ensures exists x :: IsLeast(s, x)
  {
    var z :| z in s;
    var rest := s - {z};
    if rest == {} {
      assert s == {z};
      assert IsLeast(s, z);
    } else {
      HasLeast(rest);
      var x :| IsLeast(rest, x);
      TupleLessTotal(z, x);
      var least := if TupleLess(z, x) then z else x;
      forall y | y in s && y != least ensures TupleLess(least, y) {
        if least == z && y != x { TupleLessTransitive(z, x, y); }
      }
      assert IsLeast(s, least);
    }
  }

  lemma LeastUnique(s: set<seq<string>>, a: seq<string>, b: seq<string>)
    requires IsLeast(s, a) && IsLeast(s, b)
    ensures a == b
  {
    if a != b {
      TupleLessTransitive(a, b, a);
      TupleLessIrreflexive(a);
    }
  }

  function Least(s: set<seq<string>>): (x: seq<string>)
    requires s != {}
    ensures x in s
  {
    HasLeast(s);
    assert forall a, b :: IsLeast(s, a) && IsLeast(s, b) ==> a == b by {
      forall a, b | IsLeast(s, a) && IsLeast(s, b) ensures a == b { LeastUnique(s, a, b); }
    }
    var x :| x in s && IsLeast(s, x);
    x
  }

  lemma LeastIsLeast(s: set<seq<string>>)
    requires s != {}
    ensures IsLeast(s, Least(s))
  {
    HasLeast(s);
    forall a, b | IsLeast(s, a) && IsLeast(s, b) ensures a == b { LeastUnique(s, a, b); }
  }

  // sorted(s) for a set of tuples of strings
  function Sorted(s: set<seq<string>>): seq<seq<string>> {
    if s == {} then [] else [Least(s)] + Sorted(s - {Least(s)})
  }

  // Every element once, in increasing order.
  lemma {:induction false} SortedIsSorted(s: set<seq<string>>)
    ensures forall x :: x in Sorted(s) <==> x in s
    ensures StrictlySorted(Sorted(s))
    ensures |Sorted(s)| == |s|
  {
    if s != {} {
      var x := Least(s);
      LeastIsLeast(s);
      SortedIsSorted(s - {x});
      LeastFirst(s, x, Sorted(s - {x}));
    }
  }

  lemma LeastFirst(s: set<seq<string>>, x: seq<string>, rest: seq<seq<string>>)
    requires IsLeast(s, x) && StrictlySorted(rest) && forall y :: y in rest <==> y in s - {x}
    ensures StrictlySorted([x] + rest)
  {
    var all := [x] + rest;
    hide TupleLess;
    forall i, j | 0 <= i < j < |all| ensures TupleLess(all[i], all[j]) {
      assert all[j] == rest[j - 1] && rest[j - 1] in rest;
      if i > 0 { assert all[i] == rest[i - 1]; }
    }
  }

  lemma StrictlySortedDistinct(s: seq<seq<string>>, i: nat, j: nat)
    requires StrictlySorted(s) && i < |s| && j < |s| && i != j
    ensures s[i] != s[j]
  {
    TupleLessIrreflexive(s[i]);
  }

  // A strictly sorted list is determined by its elements.
  lemma {:induction false} SortedListUnique(a: seq<seq<string>>, b: seq<seq<string>>)
    requires StrictlySorted(a) && StrictlySorted(b) && forall x :: x in a <==> x in b
    ensures a == b
  {
    assert b != [] ==> b[0] in b;
    if a != [] {
      assert a[0] in b;
      var q :| 0 <= q < |b| && b[q] == a[0];
      assert b[0] in a;
      var p :| 0 <= p < |a| && a[p] == b[0];
      if q > 0 {
        assert TupleLess(b[0], b[q]);
        if p > 0 {
          TupleLessTransitive(a[0], b[0], a[0]);
        }
        TupleLessIrreflexive(a[0]);
      }
      assert a[0] == b[0];
      HeadNotInTail(a);
      HeadNotInTail(b);
      forall x ensures x in a[1..] <==> x in b[1..] {
        assert x in a <==> x == a[0] || x in a[1..];
        assert x in b <==> x == b[0] || x in b[1..];
      }
      SortedListUnique(a[1..], b[1..]);
      assert a == [a[0]] + a[1..] && b == [b[0]] + b[1..];
    }
  }

  lemma HeadNotInTail(a: seq<seq<string>>)
    requires a != [] && StrictlySorted(a)
    ensures a[0] !in a[1..]
  {
    forall k | 1 <= k < |a| ensures a[k] != a[0] {
      StrictlySortedDistinct(a, k, 0);
    }
  }

  // The elements of a list that belong to a set, in order.
  function Kept<T(==,!new)>(list: seq<T>, chosen: set<T>): (r: seq<T>)
    ensures forall x :: x in r <==> x in list && x in chosen
  {
    if list == [] then []
    else
      var last := list[|list| - 1];
      Kept(list[..|list| - 1], chosen) + (if last in chosen then [last] else [])
  }

  lemma KeptNext<T(!new)>(list: seq<T>, chosen: set<T>, k: nat)
    requires k < |list|
    ensures Kept(list[..k + 1], chosen) == Kept(list[..k], chosen) + (if list[k] in chosen then [list[k]] else [])
  {
    assert list[..k + 1][..k] == list[..k];
  }

  lemma {:induction false} KeptSorted(list: seq<seq<string>>, chosen: set<seq<string>>)
    requires StrictlySorted(list)
    ensures StrictlySorted(Kept(list, chosen))
  {
    if list != [] {
      var init := list[..|list| - 1];
      KeptSorted(init, chosen);
      forall k | 0 <= k < |Kept(init, chosen)| ensures TupleLess(Kept(init, chosen)[k], list[|list| - 1]) {
        assert Kept(init, chosen)[k] in init;
        var j :| 0 <= j < |init| && init[j] == Kept(init, chosen)[k];
        assert TupleLess(list[j], list[|list| - 1]);
      }
    }
  }

  // Filtering a sorted set gives the sorted subset.
  lemma KeptIsSorted(all: set<seq<string>>, chosen: set<seq<string>>)
    requires chosen <= all
    ensures Kept(Sorted(all), chosen) == Sorted(chosen)
  {
    SortedIsSorted(all);
    SortedIsSorted(chosen);
    KeptSorted(Sorted(all), chosen);
    SortedListUnique(Kept(Sorted(all), chosen), Sorted(chosen));
  }

  predicate StrictlySortedStrings(s: seq<string>) {
    forall i, j | 0 <= i < j < |s| :: StringLess(s[i], s[j])
  }

  predicate Singletons(tuples: seq<seq<string>>) {
    forall i | 0 <= i < |tuples| :: |tuples[i]| == 1
  }

  function Unpack(tuples: seq<seq<string>>): (r: seq<string>)
    requires Singletons(tuples)
    ensures |r| == |tuples| && forall i | 0 <= i < |r| :: [r[i]] == tuples[i]
  {
    seq(|tuples|, i requires 0 <= i < |tuples| => tuples[i][0])
  }

  lemma SingletonLess(x: string, y: string)
    ensures TupleLess([x], [y]) <==> StringLess(x, y)
  {
    assert TupleLess([x], [y]) <==> StringLess(x, y) || (x == y && TupleLess([x][1..], [y][1..]));
  }

  lemma UnpackSorted(tuples: seq<seq<string>>)
    requires Singletons(tuples) && StrictlySorted(tuples)
    ensures StrictlySortedStrings(Unpack(tuples))
  {
    var r := Unpack(tuples);
    forall i, j | 0 <= i < j < |r| ensures StringLess(r[i], r[j]) {
      assert TupleLess(tuples[i], tuples[j]);
      SingletonLess(r[i], r[j]);
    }
  }

  lemma UnpackMember(tuples: seq<seq<string>>, x: string)
    requires Singletons(tuples)
    ensures x in Unpack(tuples) <==> [x] in tuples
  {
    var r := Unpack(tuples);
    if x in r { var i :| 0 <= i < |r| && r[i] == x; assert tuples[i] == [x]; }
    if [x] in tuples { var i :| 0 <= i < |tuples| && tuples[i] == [x]; assert [r[i]] == [x]; assert r[i] == x; }
  }

  lemma SingletonsSorted(s: set<string>)
    ensures Singletons(Sorted(set x | x in s :: [x]))
  {
    var tuples := Sorted(set x | x in s :: [x]);
    SortedIsSorted(set x | x in s :: [x]);
    assert forall i :: 0 <= i < |tuples| ==> tuples[i] in tuples;
  }

  // sorted(s) for a set of strings
  function SortedStrings(s: set<string>): seq<string> {
    SingletonsSorted(s);
    Unpack(Sorted(set x | x in s :: [x]))
  }

  lemma SortedStringsSorted(s: set<string>)
    ensures forall x :: x in SortedStrings(s) <==> x in s
    ensures StrictlySortedStrings(SortedStrings(s))
  {
    var tuples := Sorted(set x | x in s :: [x]);
    SingletonsSorted(s);
    SortedIsSorted(set x | x in s :: [x]);
    UnpackSorted(tuples);
    forall x ensures x in SortedStrings(s) <==> x in s {
      UnpackMember(tuples, x);
      SingletonMember(s, x);
    }
  }

  lemma SingletonMember(s: set<string>, x: string)
    ensures [x] in (set y | y in s :: [y]) <==> x in s
  {
    if [x] in (set y | y in s :: [y]) {
      var y :| y in s && [y] == [x];
      assert [y][0] == [x][0];
    }
  }
}
