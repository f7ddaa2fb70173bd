/** The three field recognisers of rusty_v8_module_bazel.py, on the characters of a block.
    In each pattern a run of whitespace is followed by a character that is not whitespace, so there is one way to
    match from a given field name, and a search finds the least field name that matches. */
module BazelFields {
  import opened Prelude
  import opened PythonText

  predicate IsHex(c: char) {
    '0' <= c <= '9' || 'a' <= c <= 'f'
  }

  predicate AllHex(s: string) {
    forall k | 0 <= k < |s| :: IsHex(s[k])
  }

  predicate AllSpaces(t: string, i: nat, j: nat)
    requires i <= j <= |t|
  {
    forall k | i <= k < j :: IsSpace(t[k])
  }

  // where `^` and `$` match with re.MULTILINE
  predicate LineStart(t: string, i: nat)
    requires i <= |t|
  {
    i == 0 || t[i - 1] == '\n'
  }

  predicate LineEnd(t: string, i: nat)
    requires i <= |t|
  {
    i == |t| || t[i] == '\n'
  }

  // `^\s*` reaches j
  predicate FirstOnLine(t: string, j: nat)
    requires j <= |t|
  {
    exists i | 0 <= i <= j :: LineStart(t, i) && AllSpaces(t, i, j)
  }

  // `\s*$` matches from a
  predicate TrailOk(t: string, a: nat)
    requires a <= |t|
  {
    exists k | a <= k <= |t| :: LineEnd(t, k) && AllSpaces(t, a, k)
  }

  // the end of the whitespace run at i
  function SkipSpaces(t: string, i: nat): (e: nat)
    requires i <= |t|
    ensures i <= e <= |t| && AllSpaces(t, i, e) && (e < |t| ==> !IsSpace(t[e]))
    decreases |t| - i
  {
    if i < |t| && IsSpace(t[i]) then SkipSpaces(t, i + 1) else i
  }

  // the next '"' at or after i, or |t|
  function FindQuote(t: string, i: nat): (q: nat)
    requires i <= |t|
    ensures i <= q <= |t| && (forall k | i <= k < q :: t[k] != '"') && (q < |t| ==> t[q] == '"')
    decreases |t| - i
  {
    if i < |t| && t[i] != '"' then FindQuote(t, i + 1) else i
  }

  predicate StartsWith(t: string, j: nat, word: string) {
    j + |word| <= |t| && t[j..j + |word|] == word
  }

  // `<field>\s*=\s*"([^"]+)",` at j: where the value starts and ends
  function FieldAt(t: string, j: nat, field: string): (r: Option<(nat, nat)>)
    ensures r.Some? ==> j + |field| < r.value.0 < r.value.1 && r.value.1 + 1 < |t|
  {
    if !StartsWith(t, j, field) then None
    else
      var a := SkipSpaces(t, j + |field|);
      if a == |t| || t[a] != '=' then None
      else
        var b := SkipSpaces(t, a + 1);
        if b == |t| || t[b] != '"' then None
        else
          var q := FindQuote(t, b + 1);
          if q == b + 1 || q + 1 >= |t| || t[q + 1] != ',' then None
          else Some((b + 1, q))
  }

  // `^\s*<field>\s*=\s*"([^"]+)",\s*$` with the field name at j
  function MatchAt(t: string, j: nat, field: string): (r: Option<(nat, nat)>)
    requires j <= |t|
    ensures r.Some? ==> j + |field| < r.value.0 < r.value.1 && r.value.1 + 1 < |t|
  {
    var f := FieldAt(t, j, field);
    if FirstOnLine(t, j) && f.Some? && TrailOk(t, f.value.1 + 2) then f else None
  }

  // the least matching field name at or after j
  function FindField(t: string, field: string, j: nat): (r: Option<nat>)
    requires j <= |t|
    ensures r.Some? ==> j <= r.value <= |t| && MatchAt(t, r.value, field).Some?
    ensures r.Some? ==> forall k | j <= k < r.value :: MatchAt(t, k, field).None?
    ensures r.None? ==> forall k | j <= k <= |t| :: MatchAt(t, k, field).None?
  {
    FirstMatch(t, field, j);
    hide *;
    SearchField(t, field, j)
  }

  function SearchField(t: string, field: string, j: nat): (r: Option<nat>)
    requires j <= |t|
    ensures r.Some? ==> j <= r.value <= |t|
    decreases |t| - j
  {
    if MatchAt(t, j, field).Some? then Some(j) else if j == |t| then None else SearchField(t, field, j + 1)
  }

  lemma {:induction false} FirstMatch(t: string, field: string, j: nat)
    requires j <= |t|
    ensures var r := SearchField(t, field, j);
      && (r.Some? ==> MatchAt(t, r.value, field).Some? && forall k | j <= k < r.value :: MatchAt(t, k, field).None?)
      && (r.None? ==> forall k | j <= k <= |t| :: MatchAt(t, k, field).None?)
    decreases |t| - j
  {
    hide MatchAt;
    if MatchAt(t, j, field).None? && j < |t| { FirstMatch(t, field, j + 1); }
  }

  // `string_field`
  function StringField(t: string, field: string): Option<string> {
    var j := FindField(t, field, 0);
    if j.None? then None
    else
      var v := MatchAt(t, j.value, field).value;
      Some(t[v.0..v.1])
  }

  // Field names hold no whitespace, quotes or line breaks.
  predicate IsWord(field: string) {
    field != "" && forall k | 0 <= k < |field| :: 'a' <= field[k] <= 'z' || '0' <= field[k] <= '9' || field[k] == '_'
  }

  // ---------------------------------------------------------------- uniqueness of the pieces

  lemma SkipSpacesUnique(t: string, i: nat, e: nat)
    requires i <= e <= |t| && AllSpaces(t, i, e) && (e < |t| ==> !IsSpace(t[e]))
    ensures SkipSpaces(t, i) == e
  {
  }

  lemma FindQuoteUnique(t: string, i: nat, q: nat)
    requires i <= q <= |t| && (forall k | i <= k < q :: t[k] != '"') && (q < |t| ==> t[q] == '"')
    ensures FindQuote(t, i) == q
  {
  }

  // What FieldAt finds, without the search functions.
  ghost predicate Shape(t: string, j: nat, field: string, a: nat, b: nat, q: nat) {
    && StartsWith(t, j, field)
    && j + |field| <= a < b < q < |t| - 1 && b + 1 < q
    && AllSpaces(t, j + |field|, a) && t[a] == '='
    && AllSpaces(t, a + 1, b) && t[b] == '"'
    && (forall k | b < k < q :: t[k] != '"') && t[q] == '"' && t[q + 1] == ','
  }

  lemma ShapeGives(t: string, j: nat, field: string, a: nat, b: nat, q: nat)
    requires Shape(t, j, field, a, b, q)
    ensures FieldAt(t, j, field) == Some((b + 1, q))
  {
    SkipSpacesUnique(t, j + |field|, a);
    SkipSpacesUnique(t, a + 1, b);
    FindQuoteUnique(t, b + 1, q);
  }

  lemma GivesShape(t: string, j: nat, field: string) returns (a: nat, b: nat, q: nat)
    requires FieldAt(t, j, field).Some?
    ensures Shape(t, j, field, a, b, q) && FieldAt(t, j, field) == Some((b + 1, q))
  {
    a := SkipSpaces(t, j + |field|);
    b := SkipSpaces(t, a + 1);
    q := FindQuote(t, b + 1);
  }

  // ---------------------------------------------------------------- matches inside a prefix or suffix

  // A match that ends inside a prefix does not depend on what follows.
  lemma ShapePrefix(p: string, x: string, j: nat, field: string, a: nat, b: nat, q: nat)
    requires q + 1 < |p|
    ensures Shape(p, j, field, a, b, q) <==> Shape(p + x, j, field, a, b, q)
  {
    var t := p + x;
    assert forall k | 0 <= k < |p| :: t[k] == p[k];
    if j + |field| <= |p| { assert t[j..j + |field|] == p[j..j + |field|]; }
  }

  lemma FirstOnLinePrefix(p: string, x: string, j: nat)
    requires j <= |p|
    ensures FirstOnLine(p, j) <==> FirstOnLine(p + x, j)
  {
    var t := p + x;
    assert forall k | 0 <= k < |p| :: t[k] == p[k];
    if FirstOnLine(p, j) {
      var i :| 0 <= i <= j && LineStart(p, i) && AllSpaces(p, i, j);
      assert LineStart(t, i) && AllSpaces(t, i, j);
    }
    if FirstOnLine(t, j) {
      var i :| 0 <= i <= j && LineStart(t, i) && AllSpaces(t, i, j);
      assert LineStart(p, i) && AllSpaces(p, i, j);
    }
  }

  // The last line of p is blank: p is empty or only spaces follow its last line break.
  predicate EndsFresh(p: string) {
    FirstOnLine(p, |p|)
  }

  // Right after something visible, the rest of a text that ends fresh holds a line break.
  lemma FreshTrail(p: string, x: string, a: nat)
    requires EndsFresh(p) && 0 < a <= |p| && !IsSpace(p[a - 1])
    ensures TrailOk(p, a) <==> TrailOk(p + x, a)
  {
    var t := p + x;
    assert forall k | 0 <= k < |p| :: t[k] == p[k];
    var i :| 0 <= i <= |p| && LineStart(p, i) && AllSpaces(p, i, |p|);
    assert i >= a;
    assert p[i - 1] == '\n';
    assert i > a;
    if TrailOk(p, a) {
      var k :| a <= k <= |p| && LineEnd(p, k) && AllSpaces(p, a, k);
      var m := if k < i then k else i - 1;
      assert LineEnd(t, m) && AllSpaces(t, a, m);
    }
    if TrailOk(t, a) {
      var k :| a <= k <= |t| && LineEnd(t, k) && AllSpaces(t, a, k);
      var m := if k < i then k else i - 1;
      assert LineEnd(p, m) && AllSpaces(p, a, m);
    }
  }

  // A match whose value is closed inside a prefix that ends fresh.
  lemma MatchPrefix(p: string, x: string, j: nat, field: string)
    requires EndsFresh(p) && j <= |p|
    ensures MatchAt(p, j, field).Some? ==> MatchAt(p + x, j, field) == MatchAt(p, j, field)
    ensures MatchAt(p + x, j, field).Some? && MatchAt(p + x, j, field).value.1 + 1 < |p| ==>
      MatchAt(p, j, field) == MatchAt(p + x, j, field)
  {
    FirstOnLinePrefix(p, x, j);
    FieldAtPrefix(p, x, j, field);
    var f := FieldAt(p, j, field);
    hide FieldAt, FirstOnLine, TrailOk, EndsFresh;
    if f.Some? { FreshTrail(p, x, f.value.1 + 2); }
  }

  lemma FieldAtPrefix(p: string, x: string, j: nat, field: string)
    ensures FieldAt(p, j, field).Some? ==>
      FieldAt(p + x, j, field) == FieldAt(p, j, field) && p[FieldAt(p, j, field).value.1 + 1] == ','
    ensures FieldAt(p + x, j, field).Some? && FieldAt(p + x, j, field).value.1 + 1 < |p| ==>
      FieldAt(p, j, field) == FieldAt(p + x, j, field)
  {
    hide FieldAt;
    if FieldAt(p, j, field).Some? {
      var a, b, q := GivesShape(p, j, field);
      ShapePrefix(p, x, j, field, a, b, q);
      ShapeGives(p + x, j, field, a, b, q);
    }
    if FieldAt(p + x, j, field).Some? && FieldAt(p + x, j, field).value.1 + 1 < |p| {
      var a, b, q := GivesShape(p + x, j, field);
      ShapePrefix(p, x, j, field, a, b, q);
      ShapeGives(p, j, field, a, b, q);
    }
  }

  // The start of a suffix at a line start is as good as the start of a text.
  lemma MatchSuffix(p: string, s: string, j: nat, field: string)
    requires LineStart(p, |p|) && j <= |s|
    ensures MatchAt(p + s, |p| + j, field).Some? <==> MatchAt(s, j, field).Some?
    ensures MatchAt(s, j, field).Some? ==>
      MatchAt(p + s, |p| + j, field) == Some((|p| + MatchAt(s, j, field).value.0, |p| + MatchAt(s, j, field).value.1))
  {
    FirstOnLineSuffix(p, s, j);
    FieldAtSuffix(p, s, j, field);
    hide FirstOnLine, TrailOk, FieldAt;
    if FieldAt(s, j, field).Some? {
      TrailSuffix(p, s, FieldAt(s, j, field).value.1 + 2);
    }
  }

  lemma FieldAtSuffix(p: string, s: string, j: nat, field: string)
    ensures FieldAt(p + s, |p| + j, field).Some? <==> FieldAt(s, j, field).Some?
    ensures FieldAt(s, j, field).Some? ==>
      FieldAt(p + s, |p| + j, field) == Some((|p| + FieldAt(s, j, field).value.0, |p| + FieldAt(s, j, field).value.1))
  {
    hide FieldAt, Shape;
    if FieldAt(s, j, field).Some? {
      var a, b, q := GivesShape(s, j, field);
      ShapeSuffix(p, s, j, field, a, b, q);
      ShapeGives(p + s, |p| + j, field, |p| + a, |p| + b, |p| + q);
    }
    if FieldAt(p + s, |p| + j, field).Some? {
      var a, b, q := GivesShape(p + s, |p| + j, field);
      ShapeBounds(p + s, |p| + j, field, a, b, q);
      ShapeSuffix(p, s, j, field, a - |p|, b - |p|, q - |p|);
      ShapeGives(s, j, field, a - |p|, b - |p|, q - |p|);
    }
  }

  lemma ShapeBounds(t: string, j: nat, field: string, a: nat, b: nat, q: nat)
    requires Shape(t, j, field, a, b, q)
    ensures j <= a && j <= b && j <= q
  {
  }

  lemma ShapeSuffix(p: string, s: string, j: nat, field: string, a: nat, b: nat, q: nat)
    ensures Shape(s, j, field, a, b, q) <==> Shape(p + s, |p| + j, field, |p| + a, |p| + b, |p| + q)
  {
    var t := p + s;
    assert forall k | 0 <= k < |s| :: t[|p| + k] == s[k];
    if j + |field| <= |s| { assert t[|p| + j..|p| + j + |field|] == s[j..j + |field|]; }
    assert forall k | |p| <= k < |t| :: t[k] == s[k - |p|];
  }

  lemma FirstOnLineSuffix(p: string, s: string, j: nat)
    requires LineStart(p, |p|) && j <= |s|
    ensures FirstOnLine(p + s, |p| + j) <==> FirstOnLine(s, j)
  {
    var t := p + s;
    hide IsSpace, AllSpaces;
    if FirstOnLine(s, j) {
      var i :| 0 <= i <= j && LineStart(s, i) && AllSpaces(s, i, j);
      LineStartSuffix(p, s, i);
      SpacesSuffix(p, s, i, j);
      assert LineStart(t, |p| + i) && AllSpaces(t, |p| + i, |p| + j);
    }
    if FirstOnLine(t, |p| + j) {
      var i :| 0 <= i <= |p| + j && LineStart(t, i) && AllSpaces(t, i, |p| + j);
      if i < |p| { SpacesShorter(t, i, |p|, |p| + j); }
      var m := if i < |p| then 0 else i - |p|;
      LineStartSuffix(p, s, m);
      SpacesSuffix(p, s, m, j);
      assert LineStart(s, m) && AllSpaces(s, m, j);
    }
  }

  lemma LineStartSuffix(p: string, s: string, i: nat)
    requires LineStart(p, |p|) && i <= |s|
    ensures LineStart(p + s, |p| + i) <==> LineStart(s, i)
  {
  }

  lemma SpacesSuffix(p: string, s: string, i: nat, j: nat)
    requires i <= j <= |s|
    ensures AllSpaces(p + s, |p| + i, |p| + j) <==> AllSpaces(s, i, j)
  {
    var t := p + s;
    hide IsSpace;
    assert forall k | |p| + i <= k < |p| + j :: t[k] == s[k - |p|];
    if AllSpaces(t, |p| + i, |p| + j) {
      forall k | i <= k < j ensures IsSpace(s[k]) { assert IsSpace(t[|p| + k]); }
    }
  }

  lemma SpacesShorter(t: string, i: nat, k: nat, j: nat)
    requires i <= k <= j <= |t| && AllSpaces(t, i, j)
    ensures AllSpaces(t, k, j)
  {
  }

  lemma TrailSuffix(p: string, s: string, a: nat)
    requires a <= |s|
    ensures TrailOk(p + s, |p| + a) <==> TrailOk(s, a)
  {
    var t := p + s;
    assert forall k | |p| <= k < |t| :: t[k] == s[k - |p|];
    if TrailOk(s, a) {
      var k :| a <= k <= |s| && LineEnd(s, k) && AllSpaces(s, a, k);
      assert LineEnd(t, |p| + k) && AllSpaces(t, |p| + a, |p| + k);
    }
    if TrailOk(t, |p| + a) {
      var k :| |p| + a <= k <= |t| && LineEnd(t, k) && AllSpaces(t, |p| + a, k);
      assert LineEnd(s, k - |p|);
      assert AllSpaces(s, a, k - |p|) by { assert forall m | a <= m < k - |p| :: s[m] == t[|p| + m]; }
    }
  }

  // ---------------------------------------------------------------- searching

  lemma FindFieldIs(t: string, field: string, j: nat)
    requires j <= |t| && MatchAt(t, j, field).Some? && forall k | 0 <= k < j :: MatchAt(t, k, field).None?
    ensures FindField(t, field, 0) == Some(j)
  {
  }

  lemma FindFieldNone(t: string, field: string)
    requires forall k | 0 <= k <= |t| :: MatchAt(t, k, field).None?
    ensures FindField(t, field, 0) == None
  {
  }

  // Between visible text and a position that is first on its line there is a line break.
  lemma BreakBetween(t: string, j: nat, p: nat) returns (n: nat)
    requires j < p <= |t| && !IsSpace(t[j]) && FirstOnLine(t, p)
    ensures j < n < p && t[n] == '\n' && AllSpaces(t, n, p)
  {
    var i :| 0 <= i <= p && LineStart(t, i) && AllSpaces(t, i, p);
    assert i > j;
    n := i - 1;
    assert t[n] == '\n';
  }
}
