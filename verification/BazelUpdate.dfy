/** What writing a checksum into a block does to its fields, and writing it twice. */
module BazelUpdate {
  import opened Prelude
  import opened PythonText
  import opened BazelFields
  import opened BazelBlock

  // ---------------------------------------------------------------- replacing a checksum

  lemma ReplaceShape(b: string, c: string, at: nat)
    requires Closed(b) && FindHex(b, 0) == Some(at)
    ensures WithSha(b, c) == Ok(ShaText(b[..at], c, Back(b))) && EndsFresh(b[..at]) && Front(b) == b[..at]
    ensures HexEnd(b, at) < |b| && Back(b) == b[HexEnd(b, at) + 1..]
  {
    hide *;
    UpdatedBlock(b, c);
    ReplaceParts(b, at);
  }

  lemma ReplaceKeepsField(b: string, c: string, field: string)
    requires Closed(b) && IsDigest(c) && FindHex(b, 0).Some? && (field == NAME || field == PATH)
    ensures WithSha(b, c).Ok? && StringField(WithSha(b, c).value, field) == StringField(b, field)
  {
    hide *;
    FieldWords();
    var at := FindHex(b, 0).value;
    ReplaceShape(b, c, at);
    HexRegion(b, at);
    FieldOfHexBlock(b, at, HexEnd(b, at), field);
    FieldOfShaText(b[..at], c, Back(b), field);
  }

  // No lower-case checksum precedes the replaced one, so whatever sha256 field is read there is another value.
  lemma FrontShaIsNotHex(b: string, p: nat, c: string)
    requires p <= |b| && EndsFresh(b[..p]) && IsDigest(c) && NoHex(b, 0, p)
    ensures StringField(b[..p], SHA) != Some(c)
  {
    hide *;
    var head := b[..p];
    assert b == head + b[p..];
    if StringField(head, SHA).Some? {
      var j := FirstField(head, SHA);
      MatchPrefix(head, b[p..], j, SHA);
      var v := MatchAt(head, j, SHA).value;
      assert b[v.0..v.1] == head[v.0..v.1];
      NoHexHere(b, p, j);
      MatchIsHex(b, j, c);
    }
  }

  lemma NoHexHere(b: string, p: nat, k: nat)
    requires k < p <= |b| + 1 && NoHex(b, 0, p)
    ensures !HexAt(b, k)
  {
    hide HexAt;
  }

  lemma NoHexBelow(b: string, p: nat, q: nat)
    requires p <= q <= |b| + 1 && NoHex(b, 0, q)
    ensures NoHex(b, 0, p)
  {
    hide HexAt;
  }

  lemma MatchIsHex(b: string, j: nat, c: string)
    requires j <= |b| && MatchAt(b, j, SHA).Some? && !HexAt(b, j) && IsDigest(c)
    ensures b[MatchAt(b, j, SHA).value.0..MatchAt(b, j, SHA).value.1] != c
  {
    hide MatchAt;
  }

  lemma ReplaceReadsBack(b: string, c: string)
    requires Closed(b) && IsDigest(c) && FindHex(b, 0).Some?
    ensures WithSha(b, c).Ok?
    ensures StringField(WithSha(b, c).value, SHA) == Some(c) <==> ShaReadable(b)
  {
    var at := FindHex(b, 0).value;
    UpdatedBlock(b, c);
    FieldOfShaText(Front(b), c, Back(b), SHA);
    FrontShaIsNotHex(b, at, c);
    FirstShaInFront(b, at);
    hide WithSha, StringField, ShaText, FindField, FindHex, EndsFresh, Back, IsDigest;
  }

  // The first sha256 field is the lower-case one exactly when the text in front of it has none.
  lemma FirstShaInFront(b: string, at: nat)
    requires FindHex(b, 0) == Some(at)
    ensures FindField(b, SHA, 0) == Some(at) <==> StringField(b[..at], SHA).None?
  {
    hide *;
    FieldWords();
    HexIsMatched(b, at);
    var q := HexBarrier(b, at);
    forall j | 0 <= j < at ensures MatchAt(b, j, SHA) == MatchAt(b[..at], j, SHA) {
      MatchBeforeBarrier(b, at, q, j, SHA);
    }
    if StringField(b[..at], SHA).None? {
      forall j | 0 <= j < at ensures MatchAt(b, j, SHA).None? { NoFieldNoMatch(b[..at], SHA, j); }
      FindFieldIs(b, SHA, at);
    } else {
      var j := FirstField(b[..at], SHA);
      assert MatchAt(b, j, SHA).Some?;
    }
  }

  lemma HexIsMatched(b: string, at: nat)
    requires at <= |b| && HexAt(b, at)
    ensures MatchAt(b, at, SHA).Some?
  {
  }

  lemma MatchAtNotEnd(t: string, j: nat, field: string)
    requires j <= |t| && MatchAt(t, j, field).Some?
    ensures j < |t|
  {
  }

  // ---------------------------------------------------------------- inserting a checksum

  // The text up to the place of insertion.
  function Upper(b: string): string
    requires FindInsert(b, 0).Some?
  {
    b[..InsertionPoint(b, FindInsert(b, 0).value)]
  }

  // The indentation of the inserted line.
  function Indent(b: string): string
    requires FindInsert(b, 0).Some?
  {
    b[LeadStart(b, 0, FindInsert(b, 0).value)..FindInsert(b, 0).value]
  }

  lemma UpperIs(b: string)
    requires FindInsert(b, 0).Some?
    ensures InsertAfter(b, FindInsert(b, 0).value)
    ensures var at := InsertionPoint(b, FindInsert(b, 0).value); at <= |b| && Upper(b) == b[..at]
    ensures Indent(b) == b[LeadStart(b, 0, FindInsert(b, 0).value)..FindInsert(b, 0).value]
  {
    hide FieldAt, FirstOnLine, FindInsert;
  }

  lemma UpperFacts(b: string)
    requires FindInsert(b, 0).Some?
    ensures InsertAfter(b, FindInsert(b, 0).value)
    ensures var at := InsertionPoint(b, FindInsert(b, 0).value);
      at <= |b| && Upper(b) == b[..at]
      && b == Upper(b) + b[at..]
    ensures LineStart(Upper(b), |Upper(b)|) && EndsFresh(Upper(b)) && AllSpaces(Indent(b), 0, |Indent(b)|)
    ensures FindInsert(b, 0).value <= |Upper(b)| && MatchAt(Upper(b), FindInsert(b, 0).value, PATH).Some?
  {
    hide *;
    var path := FindInsert(b, 0).value;
    UpperIs(b);
    InsertFront(b, path);
    var at := InsertionPoint(b, path);
    assert b == b[..at] + b[at..];
    LineStartTake(b, at);
  }

  lemma LineStartTake(b: string, at: nat)
    requires at <= |b| && LineStart(b, at)
    ensures LineStart(b[..at], at)
  {
  }

  lemma InsertShape(b: string, c: string)
    requires Closed(b) && FindHex(b, 0).None? && FindInsert(b, 0).Some?
    ensures WithSha(b, c) == Ok(ShaText(Front(b), c, Back(b))) && Front(b) == Upper(b) + Indent(b)
    ensures b == Upper(b) + Back(b) && EndsFresh(Front(b))
  {
    UpdatedBlock(b, c);
    UpperFacts(b);
    hide MatchAt, FindHex, FindInsert, EndsFresh, AllSpaces, LeadStart, InsertAfter, WithSha, ShaText;
  }

  // The inserted line's indentation adds nothing, so the new block reads as the upper part, the line, the rest.
  lemma InsertFields(b: string, c: string, field: string)
    requires Closed(b) && IsDigest(c) && FindHex(b, 0).None? && FindInsert(b, 0).Some?
    requires field == SHA || field == NAME || field == PATH
    ensures WithSha(b, c).Ok? && EndsFresh(Upper(b))
    ensures StringField(WithSha(b, c).value, field) ==
      if StringField(Upper(b), field).Some? then StringField(Upper(b), field)
      else if field == SHA then Some(c)
      else StringField(Back(b), field)
  {
    hide *;
    FieldWords();
    InsertShape(b, c);
    UpperFacts(b);
    FieldOfShaText(Front(b), c, Back(b), field);
    BlankTail(Upper(b), Indent(b), field);
  }

  lemma UpperAndBack(b: string)
    requires Closed(b) && FindHex(b, 0).None? && FindInsert(b, 0).Some?
    ensures b == Upper(b) + Back(b) && LineStart(Upper(b), |Upper(b)|) && EndsFresh(Upper(b))
    ensures StringField(Upper(b), PATH).Some?
  {
    hide *;
    InsertShape(b, "");
    UpperFacts(b);
    if StringField(Upper(b), PATH).None? { NoFieldNoMatch(Upper(b), PATH, FindInsert(b, 0).value); }
  }

  lemma InsertKeepsPath(b: string, c: string)
    requires Closed(b) && IsDigest(c) && FindHex(b, 0).None? && FindInsert(b, 0).Some?
    ensures WithSha(b, c).Ok? && StringField(WithSha(b, c).value, PATH) == StringField(b, PATH)
  {
    hide *;
    InsertFields(b, c, PATH);
    UpperAndBack(b);
    FieldWords();
    PrefixField(Upper(b), Back(b), PATH);
  }

  lemma InsertKeepsName(b: string, c: string)
    requires Closed(b) && IsDigest(c) && FindHex(b, 0).None? && FindInsert(b, 0).Some? && PlainName(b)
    ensures WithSha(b, c).Ok? && StringField(WithSha(b, c).value, NAME) == StringField(b, NAME)
  {
    InsertFields(b, c, NAME);
    UpperAndBack(b);
    FieldWords();
    if StringField(Upper(b), NAME).Some? {
      PrefixField(Upper(b), Back(b), NAME);
    } else {
      NoNameAbove(b);
      hide StringField, MatchAt, FindHex, FindInsert, WithSha;
      FieldInBack(Upper(b), Back(b), NAME);
    }
  }

  lemma NoNameAbove(b: string)
    requires Closed(b) && FindHex(b, 0).None? && FindInsert(b, 0).Some? && PlainName(b)
    requires StringField(Upper(b), NAME).None?
    ensures forall j | 0 <= j < |Upper(b)| :: MatchAt(Upper(b) + Back(b), j, NAME).None?
  {
    hide *;
    UpperAndBack(b);
    NoNameAcross(b);
    NoneBefore(b, NAME, |Upper(b)|);
  }

  lemma NoneBefore(t: string, field: string, p: nat)
    requires p <= |t| && (FindField(t, field, 0).None? || FindField(t, field, 0).value >= p)
    ensures forall j | 0 <= j < p :: MatchAt(t, j, field).None?
  {
    hide MatchAt, FindField;
  }

  // A name read across the place of insertion opens at the closing quote of the path, so it starts with a comma.
  lemma NoNameAcross(b: string)
    requires FindHex(b, 0).None? && FindInsert(b, 0).Some? && PlainName(b) && StringField(Upper(b), NAME).None?
    ensures FindField(b, NAME, 0).None? || FindField(b, NAME, 0).value >= |Upper(b)|
  {
    hide *;
    UpperFacts(b);
    var path := FindInsert(b, 0).value;
    if FindField(b, NAME, 0).Some? && FindField(b, NAME, 0).value < |Upper(b)| {
      NameAcross(b, path, FindField(b, NAME, 0).value);
      NameIsPlain(b);
    }
  }

  lemma NameIsPlain(b: string)
    requires PlainName(b) && StringField(b, NAME).Some?
    ensures StringField(b, NAME).value == "" || StringField(b, NAME).value[0] != ','
  {
    hide StringField;
  }

  lemma NameAcross(b: string, path: nat, j: nat)
    requires path <= |b| && InsertAfter(b, path) && InsertionPoint(b, path) <= |b|
      && EndsFresh(b[..InsertionPoint(b, path)])
    requires j < InsertionPoint(b, path) && FindField(b, NAME, 0) == Some(j)
    requires StringField(b[..InsertionPoint(b, path)], NAME).None?
    ensures StringField(b, NAME).Some? && StringField(b, NAME).value != "" && StringField(b, NAME).value[0] == ','
  {
    hide *;
    var at := InsertionPoint(b, path);
    assert b == b[..at] + b[at..];
    NoFieldNoMatch(b[..at], NAME, j);
    MatchPrefix(b[..at], b[at..], j, NAME);
    FieldValue(b, NAME, j);
    ValueAcross(b, path, j);
  }

  lemma ValueAcross(b: string, path: nat, j: nat)
    requires path <= |b| && InsertAfter(b, path) && j < InsertionPoint(b, path)
    requires MatchAt(b, j, NAME).Some? && InsertionPoint(b, path) <= MatchAt(b, j, NAME).value.1 + 1
    ensures var v := MatchAt(b, j, NAME).value; v.0 < v.1 && b[v.0] == ','
  {
    var q0 := InsertQuote(b, path);
    var a, open, q := MatchShape(b, j, NAME);
    hide *;
    OpensAtQuote(b, q0, j, a, open, q);
  }

  // the closing quote of the path
  lemma InsertQuote(b: string, path: nat) returns (q0: nat)
    requires path <= |b| && InsertAfter(b, path)
    ensures q0 + 2 < |b| && b[q0] == '"' && b[q0 + 1] == ',' && b[q0 + 2] == '\n' && InsertionPoint(b, path) == q0 + 3
  {
    var a, b0, q := GivesShape(b, path, PATH);
    q0 := q;
    hide FieldAt, FirstOnLine;
  }

  lemma MatchShape(b: string, j: nat, field: string) returns (a: nat, open: nat, q: nat)
    requires j <= |b| && MatchAt(b, j, field).Some?
    ensures Shape(b, j, field, a, open, q) && MatchAt(b, j, field) == Some((open + 1, q))
  {
    a, open, q := GivesShape(b, j, field);
    hide FieldAt, FirstOnLine, TrailOk, Shape;
  }

  lemma OpensAtQuote(b: string, q0: nat, j: nat, a: nat, open: nat, q: nat)
    requires q0 + 2 < |b| && b[q0] == '"' && b[q0 + 1] == ',' && b[q0 + 2] == '\n'
    requires Shape(b, j, NAME, a, open, q) && j < q0 + 3 && q0 + 2 <= q
    ensures open == q0
  {
    NameChars(b, j);
    hide StartsWith;
    assert j < q0 + 1;
    assert a < q0 + 1;
    assert open < q0 + 1;
  }

  lemma NameChars(b: string, j: nat)
    requires StartsWith(b, j, NAME)
    ensures forall k | j <= k < j + |NAME| :: b[k] != ',' && b[k] != '\n'
  {
    assert forall k | j <= k < j + |NAME| :: b[k] == b[j..j + |NAME|][k - j] == NAME[k - j];
  }

  // ---------------------------------------------------------------- the two together

  // Writing a checksum keeps the path, keeps every name that does not start with a comma, and is what the checker
  // reads exactly when the block is readable in the sense of ShaReadable.
  lemma BlockUpdate(b: string, c: string)
    requires Closed(b) && IsDigest(c) && WithSha(b, c).Ok?
    ensures StringField(WithSha(b, c).value, PATH) == StringField(b, PATH)
    ensures PlainName(b) ==> StringField(WithSha(b, c).value, NAME) == StringField(b, NAME)
    ensures StringField(WithSha(b, c).value, SHA) == Some(c) <==> ShaReadable(b)
  {
    UpdatedBlock(b, c);
    if FindHex(b, 0).Some? {
      hide *;
      ReplaceKeepsField(b, c, PATH);
      ReplaceKeepsField(b, c, NAME);
      ReplaceReadsBack(b, c);
    } else {
      InsertReadsBack(b, c);
      if PlainName(b) { InsertKeepsName(b, c); }
      hide *;
      InsertKeepsPath(b, c);
    }
  }

  lemma InsertReadsBack(b: string, c: string)
    requires Closed(b) && IsDigest(c) && FindHex(b, 0).None? && FindInsert(b, 0).Some?
    ensures WithSha(b, c).Ok?
    ensures StringField(WithSha(b, c).value, SHA) == Some(c) <==> ShaReadable(b)
  {
    InsertFields(b, c, SHA);
    UpperFacts(b);
    NoHexBelow(b, InsertionPoint(b, FindInsert(b, 0).value), |b| + 1);
    FrontShaIsNotHex(b, InsertionPoint(b, FindInsert(b, 0).value), c);
    hide StringField, MatchAt, WithSha;
  }

  // ---------------------------------------------------------------- a second update

  lemma FindHexIs(t: string, at: nat)
    requires at <= |t| && HexAt(t, at) && forall k | 0 <= k < at :: !HexAt(t, k)
    ensures FindHex(t, 0) == Some(at)
  {
    hide HexAt, FindHex;
  }

  lemma NoHexInPrefix(b: string, head: string, x: string, k: nat)
    requires b == head + x && EndsFresh(head) && k <= |head| && !HexAt(b, k)
    ensures !HexAt(head, k)
  {
    MatchPrefix(head, x, k, SHA);
    var m := MatchAt(head, k, SHA);
    if m.Some? {
      assert b[m.value.0..m.value.1] == head[m.value.0..m.value.1];
    }
  }

  lemma NoHexInBlankTail(p: string, w: string, k: nat)
    requires EndsFresh(p) && AllSpaces(w, 0, |w|) && k <= |p + w| && (k <= |p| ==> !HexAt(p, k))
    ensures !HexAt(p + w, k)
  {
    FieldWords();
    BlankTailMatch(p, w, k, SHA);
    var m := MatchAt(p + w, k, SHA);
    if m.Some? {
      assert (p + w)[m.value.0..m.value.1] == p[m.value.0..m.value.1];
    }
  }

  lemma FrontHasNoHex(b: string, c: string, k: nat)
    requires Closed(b) && IsDigest(c) && WithSha(b, c).Ok? && k < |Front(b)|
    ensures EndsFresh(Front(b)) && !HexAt(Front(b), k)
  {
    hide *;
    UpdatedBlock(b, c);
    if FindHex(b, 0).Some? {
      var at := FindHex(b, 0).value;
      ReplaceShape(b, c, at);
      assert b == b[..at] + b[at..];
      NoHexHere(b, at, k);
      NoHexInPrefix(b, b[..at], b[at..], k);
    } else {
      InsertShape(b, c);
      UpperFacts(b);
      if k <= |Upper(b)| { NoHexHere(b, |b| + 1, k); NoHexInPrefix(b, Upper(b), Back(b), k); }
      NoHexInBlankTail(Upper(b), Indent(b), k);
    }
  }

  lemma NoEarlierHex(q: string, c: string, s: string, k: nat)
    requires EndsFresh(q) && IsDigest(c) && k < |q| && !HexAt(q, k)
    ensures !HexAt(ShaText(q, c, s), k)
  {
    var u := ShaText(q, c, s);
    ShaTextChars(q, c, s);
    ShaTextBarrier(q, c, s);
    FieldWords();
    MatchBeforeBarrier(u, |q|, |q| + 9, k, SHA);
    hide ShaText, MatchAt, EndsFresh, IsDigest, Barrier;
    if MatchAt(u, k, SHA).Some? {
      var v := MatchAt(u, k, SHA).value;
      assert u[v.0..v.1] == q[v.0..v.1];
    }
  }

  lemma ShaTextHex(q: string, c: string, s: string)
    requires EndsFresh(q) && IsDigest(c)
    ensures HexAt(ShaText(q, c, s), |q|)
  {
    ShaTextChars(q, c, s);
    ShaTextMatch(q, c, s);
    assert ShaText(q, c, s)[|q| + 10..|q| + 10 + |c|] == c;
  }

  lemma UpdatedHex(b: string, c: string)
    requires Closed(b) && IsDigest(c) && WithSha(b, c).Ok?
    ensures WithSha(b, c).value == ShaText(Front(b), c, Back(b))
    ensures FindHex(WithSha(b, c).value, 0) == Some(|Front(b)|)
    ensures MatchAt(WithSha(b, c).value, |Front(b)|, SHA) == Some((|Front(b)| + 10, |Front(b)| + 10 + |c|))
  {
    hide *;
    UpdatedBlock(b, c);
    var q, s := Front(b), Back(b);
    var u := ShaText(q, c, s);
    ShaTextMatch(q, c, s);
    ShaTextHex(q, c, s);
    ShaTextChars(q, c, s);
    forall k | 0 <= k < |q| ensures !HexAt(u, k) {
      FrontHasNoHex(b, c, k);
      NoEarlierHex(q, c, s, k);
    }
    FindHexIs(u, |q|);
  }

  // A second update is a no-op unless the first one inserted its line before a blank line, which the second
  // would swallow.
  lemma SecondUpdate(b: string, c: string)
    requires Closed(b) && IsDigest(c) && WithSha(b, c).Ok?
    ensures WithSha(WithSha(b, c).value, c) == WithSha(b, c) <==> FindHex(b, 0).Some? || !BlankStart(Back(b))
  {
    hide *;
    UpdatedBlock(b, c);
    if FindHex(b, 0).Some? { BackNotBlank(b, FindHex(b, 0).value); }
    BackVisible(b);
    var q, s := Front(b), Back(b);
    UpdatedHex(b, c);
    RewriteShaText(q, c, s);
  }

  // Rewriting the first lower-case checksum of a text with the same value.
  lemma RewriteShaText(q: string, c: string, s: string)
    requires var u := ShaText(q, c, s);
      |u| >= |q| && FindHex(u, 0) == Some(|q|)
      && MatchAt(u, |q|, SHA) == Some((|q| + 10, |q| + 10 + |c|))
    requires Visible(s)
    ensures WithSha(ShaText(q, c, s), c) == Ok(ShaText(q, c, s)) <==> !BlankStart(s)
  {
    hide *;
    var u, after := ShaText(q, c, s), |q| + 12 + |c|;
    ShaTextChars(q, c, s);
    TrailAfterSha(u, after, s);
    RewriteIs(u, c, |q|, after);
    ShaTextLine(q, c, s);
    CutOut(u, after, TrailEnd(u, after));
  }

  lemma RewriteIs(u: string, c: string, at: nat, after: nat)
    requires at <= |u| && FindHex(u, 0) == Some(at) && MatchAt(u, at, SHA).Some?
      && MatchAt(u, at, SHA).value.1 + 2 == after
    ensures after <= |u| && WithSha(u, c) == Ok(u[..at] + ShaLine(c) + u[TrailEnd(u, after)..])
  {
    hide MatchAt, FindHex, TrailEnd, ShaLine;
  }

  lemma ShaTextLine(q: string, c: string, s: string)
    ensures var u := ShaText(q, c, s); |u| >= |q| + 12 + |c| && u[..|q|] + ShaLine(c) == u[..|q| + 12 + |c|]
  {
  }

  lemma CutOut(u: string, after: nat, k: nat)
    requires after <= k <= |u|
    ensures u[..after] + u[k..] == u <==> k == after
  {
    assert |u[..after] + u[k..]| == |u| - (k - after);
    if k == after { assert u[..after] + u[k..] == u; }
  }

  lemma BackNotBlank(b: string, at: nat)
    requires Closed(b) && FindHex(b, 0) == Some(at)
    ensures !BlankStart(Back(b))
  {
    hide *;
    HexRegion(b, at);
    ReplaceParts(b, at);
  }

  // The block's parenthesis stays behind the checksum line.
  lemma BackVisible(b: string)
    requires Closed(b) && (FindHex(b, 0).Some? || FindInsert(b, 0).Some?)
    ensures Visible(Back(b))
  {
    hide *;
    if FindHex(b, 0).Some? {
      var at := FindHex(b, 0).value;
      ReplaceShape(b, "", at);
      HexRegion(b, at);
      HexEndVisible(b, at);
      SuffixVisible(b, HexEnd(b, at) + 1);
    } else {
      InsertShape(b, "");
      UpperFacts(b);
      var at := InsertionPoint(b, FindInsert(b, 0).value);
      InsertEndVisible(b, FindInsert(b, 0).value);
      SuffixVisible(b, at);
      assert Back(b) == b[at..];
    }
  }

  lemma HexEndVisible(b: string, at: nat)
    requires Closed(b) && at <= |b| && HexAt(b, at)
    ensures 0 < HexEnd(b, at) < |b| && b[HexEnd(b, at) - 1] != ')'
  {
    var a, b0, q := GivesShape(b, at, SHA);
    HexRegion(b, at);
    hide HexEnd, HexAt, MatchAt, Closed;
  }

  lemma InsertEndVisible(b: string, path: nat)
    requires path <= |b| && InsertAfter(b, path)
    ensures 2 <= InsertionPoint(b, path) <= |b|
    ensures b[InsertionPoint(b, path) - 1] == '\n' && b[InsertionPoint(b, path) - 2] == ','
  {
    var a, b0, q := GivesShape(b, path, PATH);
  }

  lemma SuffixVisible(b: string, k: nat)
    requires Closed(b) && 2 <= k <= |b| && b[k - 1] == '\n' && b[k - 2] != ')'
    ensures Visible(b[k..])
  {
    var n := |b| - k;
    var s := b[k..];
    if b[|b| - 1] == ')' { assert !IsSpace(s[n - 1]); }
    else { assert !IsSpace(s[n - 2]); }
  }

  // The blanks behind the checksum line end right there unless a blank line follows.
  lemma TrailAfterSha(u: string, after: nat, s: string)
    requires after < |u| && u[after] == '\n' && u[after + 1..] == s && Visible(s)
    ensures TrailEnd(u, after) == after <==> !BlankStart(s)
  {
    var e, k := SkipSpaces(u, after), TrailEnd(u, after);
    assert forall m | 0 <= m < |s| :: s[m] == u[after + 1 + m];
    assert LineEnd(u, after);
    var v :| 0 <= v < |s| && !IsSpace(s[v]);
    assert !IsSpace(u[after + 1 + v]);
    assert e < |u|;
    if BlankStart(s) {
      var n :| 0 <= n < |s| && s[n] == '\n' && AllSpaces(s, 0, n);
      assert AllSpaces(u, after, after + 1 + n) by {
        assert forall m | after < m < after + 1 + n :: u[m] == s[m - after - 1];
      }
      assert LineEnd(u, after + 1 + n);
      assert after + 1 + n <= e;
    }
    if k > after {
      assert LineEnd(u, k);
      assert s[k - after - 1] == '\n';
      assert AllSpaces(s, 0, k - after - 1);
    }
  }

  predicate Visible(s: string) {
    exists v | 0 <= v < |s| :: !IsSpace(s[v])
  }
}
