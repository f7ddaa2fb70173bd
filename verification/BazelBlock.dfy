/** `block_with_sha256`: writing a checksum into one http_file block, and what the field recogniser reads afterwards. */
module BazelBlock {
  import opened Prelude
  import opened PythonText
  import opened BazelFields

  const SHA := "sha256"
  const NAME := "name"
  const PATH := "downloaded_file_path"

  datatype BlockError = MissingPath

  // a checksum as the manifest parser accepts it
  predicate IsDigest(c: string) {
    |c| == 64 && AllHex(c)
  }

  function ShaLine(c: string): string {
    "sha256 = \"" + c + "\","
  }

  // `^(\s*)sha256\s*=\s*"[0-9a-f]+",\s*$` with the field name at j
  predicate HexAt(t: string, j: nat)
    requires j <= |t|
  {
    var m := MatchAt(t, j, SHA);
    m.Some? && AllHex(t[m.value.0..m.value.1])
  }

  predicate NoHex(t: string, i: nat, j: nat)
    requires j <= |t| + 1
  {
    forall k | i <= k < j :: !HexAt(t, k)
  }

  function SearchHex(t: string, j: nat): (r: Option<nat>)
    requires j <= |t|
    ensures r.Some? ==> j <= r.value <= |t|
    decreases |t| - j
  {
    if HexAt(t, j) then Some(j) else if j == |t| then None else SearchHex(t, j + 1)
  }

  lemma {:induction false} FirstHex(t: string, j: nat)
    requires j <= |t|
    ensures SearchHex(t, j).Some? ==> HexAt(t, SearchHex(t, j).value)
    ensures NoHex(t, j, if SearchHex(t, j).Some? then SearchHex(t, j).value else |t| + 1)
    decreases |t| - j
  {
    hide HexAt;
    if !HexAt(t, j) && j < |t| { FirstHex(t, j + 1); }
  }

  // the first lower-case checksum at or after j
  function FindHex(t: string, j: nat): (r: Option<nat>)
    requires j <= |t|
    ensures r.Some? ==> j <= r.value <= |t| && HexAt(t, r.value) && NoHex(t, j, r.value)
    ensures r.None? ==> NoHex(t, j, |t| + 1)
  {
    FirstHex(t, j);
    hide *;
    SearchHex(t, j)
  }

  // `^(\s*)downloaded_file_path\s*=\s*"[^"]+",\n` with the field name at j
  predicate InsertAfter(t: string, j: nat)
    requires j <= |t|
  {
    var f := FieldAt(t, j, PATH);
    FirstOnLine(t, j) && f.Some? && f.value.1 + 2 < |t| && t[f.value.1 + 2] == '\n'
  }

  function SearchInsert(t: string, j: nat): (r: Option<nat>)
    requires j <= |t|
    ensures r.Some? ==> j <= r.value <= |t|
    decreases |t| - j
  {
    if InsertAfter(t, j) then Some(j) else if j == |t| then None else SearchInsert(t, j + 1)
  }

  predicate NoInsert(t: string, i: nat, j: nat)
    requires j <= |t| + 1
  {
    forall k | i <= k < j :: !InsertAfter(t, k)
  }

  lemma {:induction false} FirstInsert(t: string, j: nat)
    requires j <= |t|
    ensures SearchInsert(t, j).Some? ==> InsertAfter(t, SearchInsert(t, j).value)
    ensures NoInsert(t, j, if SearchInsert(t, j).Some? then SearchInsert(t, j).value else |t| + 1)
    decreases |t| - j
  {
    hide InsertAfter;
    if !InsertAfter(t, j) && j < |t| { FirstInsert(t, j + 1); }
  }

  // the first path field at or after j that ends its line
  function FindInsert(t: string, j: nat): (r: Option<nat>)
    requires j <= |t|
    ensures r.Some? ==> j <= r.value <= |t| && InsertAfter(t, r.value) && NoInsert(t, j, r.value)
    ensures r.None? ==> NoInsert(t, j, |t| + 1)
  {
    FirstInsert(t, j);
    hide *;
    SearchInsert(t, j)
  }

  // the end of the greedy `\s*$` at a
  function LastLineEnd(t: string, a: nat, e: nat): (k: nat)
    requires a <= e <= |t|
    ensures a <= k <= e && (LineEnd(t, k) || k == a)
    ensures forall m | k < m <= e :: !LineEnd(t, m)
    decreases e
  {
    if LineEnd(t, e) || e == a then e else LastLineEnd(t, a, e - 1)
  }

  function TrailEnd(t: string, a: nat): (k: nat)
    requires a <= |t|
    ensures a <= k <= SkipSpaces(t, a)
  {
    LastLineEnd(t, a, SkipSpaces(t, a))
  }

  // the end of the match of the checksum field at `at`
  function HexEnd(t: string, at: nat): (k: nat)
    requires at <= |t| && HexAt(t, at)
    ensures k <= |t|
  {
    TrailEnd(t, MatchAt(t, at, SHA).value.1 + 2)
  }

  // the start of the leftmost `^(\s*)` that reaches j: blank lines in front belong to the group
  function LeadStart(t: string, i: nat, j: nat): (s: nat)
    requires i <= j <= |t|
    ensures i <= s <= j && AllSpaces(t, s, j)
    decreases j - i
  {
    if i == j || (LineStart(t, i) && AllSpaces(t, i, j)) then i else LeadStart(t, i + 1, j)
  }

  // where the insertion goes: after the line break that ends the path field at j
  function InsertionPoint(t: string, j: nat): nat
    requires j <= |t| && InsertAfter(t, j)
  {
    FieldAt(t, j, PATH).value.1 + 3
  }

  function WithSha(b: string, c: string): Result<string, BlockError> {
    var hex := FindHex(b, 0);
    if hex.Some? then
      Ok(b[..hex.value] + ShaLine(c) + b[HexEnd(b, hex.value)..])
    else
      var path := FindInsert(b, 0);
      if path.None? then Err(MissingPath)
      else
        var at := InsertionPoint(b, path.value);
        var indent := b[LeadStart(b, 0, path.value)..path.value];
        Ok(b[..at] + indent + ShaLine(c) + "\n" + b[at..])
  }

  // ---------------------------------------------------------------- reading around a checksum line

  // A position that stops every match begun before it: visible, first on its line, and the next quote is not
  // followed by a comma.
  ghost predicate Barrier(t: string, p: nat, q: nat) {
    && p < q < |t| - 1
    && FirstOnLine(t, p) && t[p] == 's'
    && (forall k | p <= k < q :: t[k] != '"') && t[q] == '"' && t[q + 1] != ','
  }

  lemma LiteralBeforeBreak(t: string, j: nat, field: string, n: nat)
    requires IsWord(field) && StartsWith(t, j, field) && j < n < |t| && t[n] == '\n'
    ensures j + |field| <= n
  {
    assert forall k | j <= k < j + |field| :: t[k] == t[j..j + |field|][k - j];
  }

  // A match begun before a barrier lies in front of it altogether.
  lemma StopsAtBarrier(t: string, p: nat, q0: nat, j: nat, field: string)
    requires Barrier(t, p, q0) && IsWord(field) && j < p && FieldAt(t, j, field).Some?
    ensures FieldAt(t, j, field).value.1 + 1 < p
  {
    var a, b, q := GivesShape(t, j, field);
    assert t[j] == t[j..j + |field|][0];
    var n := BreakBetween(t, j, p);
    LiteralBeforeBreak(t, j, field, n);
    assert a < n;
    assert b < n;
    assert q < p || q >= q0;
    assert q <= q0;
  }

  lemma MatchBeforeBarrier(t: string, p: nat, q0: nat, j: nat, field: string)
    requires Barrier(t, p, q0) && IsWord(field) && j < p
    ensures MatchAt(t, j, field) == MatchAt(t[..p], j, field)
  {
    var head := t[..p];
    assert t == head + t[p..];
    FirstOnLinePrefix(head, t[p..], p);
    if MatchAt(t, j, field).Some? {
      StopsAtBarrier(t, p, q0, j, field);
    }
    MatchPrefix(head, t[p..], j, field);
  }

  // a text with a checksum line: q in front, s behind
  function ShaText(q: string, c: string, s: string): string {
    q + ShaLine(c) + "\n" + s
  }

  lemma ShaTextChars(q: string, c: string, s: string)
    ensures var u := ShaText(q, c, s);
      && |u| == |q| + 13 + |c| + |s|
      && u[..|q|] == q
      && (forall k | 0 <= k < 10 :: u[|q| + k] == "sha256 = \""[k])
      && (forall k | 0 <= k < |c| :: u[|q| + 10 + k] == c[k])
      && u[|q| + 10 + |c|] == '"' && u[|q| + 11 + |c|] == ',' && u[|q| + 12 + |c|] == '\n'
      && u[|q| + 13 + |c|..] == s
  {
  }

  lemma ShaTextBarrier(q: string, c: string, s: string)
    requires EndsFresh(q) && IsDigest(c)
    ensures Barrier(ShaText(q, c, s), |q|, |q| + 9)
  {
    var u := ShaText(q, c, s);
    ShaTextChars(q, c, s);
    assert u == q + u[|q|..];
    FirstOnLinePrefix(q, u[|q|..], |q|);
    assert u[|q| + 10] == c[0];
  }

  lemma ShaTextMatch(q: string, c: string, s: string)
    requires EndsFresh(q) && IsDigest(c)
    ensures MatchAt(ShaText(q, c, s), |q|, SHA) == Some((|q| + 10, |q| + 10 + |c|))
  {
    var u := ShaText(q, c, s);
    ShaTextChars(q, c, s);
    ShaTextBarrier(q, c, s);
    assert u[|q|..|q| + 6] == SHA;
    assert Shape(u, |q|, SHA, |q| + 7, |q| + 9, |q| + 10 + |c|);
    ShapeGives(u, |q|, SHA, |q| + 7, |q| + 9, |q| + 10 + |c|);
    assert LineEnd(u, |q| + 12 + |c|);
    assert AllSpaces(u, |q| + 12 + |c|, |q| + 12 + |c|);
  }

  // Nothing else starts on the checksum line.
  lemma ShaTextNoOther(q: string, c: string, s: string, j: nat, field: string)
    requires EndsFresh(q) && IsDigest(c) && |q| < j <= |q| + 12 + |c|
    ensures MatchAt(ShaText(q, c, s), j, field).None?
  {
    var u := ShaText(q, c, s);
    ShaTextChars(q, c, s);
    assert forall k | |q| <= k < |q| + 12 + |c| :: u[k] != '\n' by {
      forall k | |q| <= k < |q| + 12 + |c| ensures u[k] != '\n' {
        if k < |q| + 10 { assert u[|q| + (k - |q|)] == "sha256 = \""[k - |q|]; }
        else if k < |q| + 10 + |c| { assert u[|q| + 10 + (k - |q| - 10)] == c[k - |q| - 10]; }
      }
    }
    assert u[|q|] == 's';
    assert !FirstOnLine(u, j);
  }

  lemma StartsWithFirst(t: string, j: nat, field: string)
    requires StartsWith(t, j, field) && field != ""
    ensures t[j] == field[0]
  {
    assert t[j] == t[j..j + |field|][0];
  }

  lemma OtherFieldNotHere(t: string, j: nat, field: string)
    requires j < |t| && (field == NAME || field == PATH) && t[j] != 'n' && t[j] != 'd'
    ensures MatchAt(t, j, field).None?
  {
    if StartsWith(t, j, field) { StartsWithFirst(t, j, field); }
  }

  lemma FieldWords()
    ensures IsWord(PATH) && IsWord(NAME) && IsWord(SHA)
    ensures 'a' <= PATH[0] <= 'z' && 'a' <= NAME[0] <= 'z' && PATH != NAME && PATH != SHA && NAME != SHA
  {
    assert PATH[0] == 'd' && NAME[0] == 'n' && SHA[0] == 's';
  }

  lemma FirstField(t: string, field: string) returns (j: nat)
    requires StringField(t, field).Some?
    ensures j < |t| && FindField(t, field, 0) == Some(j) && MatchAt(t, j, field).Some?
    ensures StringField(t, field) == Some(t[MatchAt(t, j, field).value.0..MatchAt(t, j, field).value.1])
  {
    hide MatchAt;
    j := FindField(t, field, 0).value;
  }

  // The field of a text whose front holds a match for it.
  lemma FieldInFront(t: string, p: nat, field: string)
    requires p <= |t| && StringField(t[..p], field).Some?
    requires forall j | 0 <= j < p :: MatchAt(t, j, field) == MatchAt(t[..p], j, field)
    ensures StringField(t, field) == StringField(t[..p], field)
  {
    hide *;
    var head := t[..p];
    var j := FirstField(head, field);
    var v := MatchAt(head, j, field).value;
    FindFieldIs(t, field, j);
    FieldValue(t, field, j);
    assert t[v.0..v.1] == head[v.0..v.1];
  }

  // The field of a text that can only match in its back.
  lemma FieldInBack(p: string, s: string, field: string)
    requires LineStart(p, |p|) && forall j | 0 <= j < |p| :: MatchAt(p + s, j, field).None?
    ensures StringField(p + s, field) == StringField(s, field)
  {
    hide *;
    FindInBack(p, s, field);
    var found := FindField(s, field, 0);
    if found.Some? {
      MatchSuffix(p, s, found.value, field);
      var v := MatchAt(s, found.value, field).value;
      SliceShift(p, s, v.0, v.1);
      FieldValue(s, field, found.value);
      FieldValue(p + s, field, |p| + found.value);
    } else {
      NoFieldValue(s, field);
      NoFieldValue(p + s, field);
    }
  }

  lemma FieldValue(t: string, field: string, j: nat)
    requires FindField(t, field, 0) == Some(j)
    ensures StringField(t, field) == Some(t[MatchAt(t, j, field).value.0..MatchAt(t, j, field).value.1])
  {
  }

  lemma NoFieldValue(t: string, field: string)
    requires FindField(t, field, 0) == None
    ensures StringField(t, field) == None
  {
  }

  lemma SliceShift(p: string, s: string, i: nat, j: nat)
    requires i <= j <= |s|
    ensures (p + s)[|p| + i..|p| + j] == s[i..j]
  {
  }

  lemma FindInBack(p: string, s: string, field: string)
    requires LineStart(p, |p|) && forall j | 0 <= j < |p| :: MatchAt(p + s, j, field).None?
    ensures FindField(p + s, field, 0).Some? <==> FindField(s, field, 0).Some?
    ensures FindField(s, field, 0).Some? ==> FindField(p + s, field, 0) == Some(|p| + FindField(s, field, 0).value)
  {
    hide *;
    var t, found, there := p + s, FindField(s, field, 0), FindField(p + s, field, 0);
    if found.Some? {
      MatchSuffix(p, s, found.value, field);
    }
    if there.Some? {
      MatchSuffix(p, s, there.value - |p|, field);
    }
  }

  lemma NoFieldNoMatch(t: string, field: string, j: nat)
    requires StringField(t, field).None? && j <= |t|
    ensures MatchAt(t, j, field).None?
  {
  }

  lemma ShaTextFront(q: string, c: string, s: string)
    ensures var front := q + ShaLine(c) + "\n";
      ShaText(q, c, s) == front + s && |front| == |q| + 13 + |c| && LineStart(front, |front|) && front[|q|] == 's'
  {
  }

  // Every field of a text with a checksum line: the front wins, then the line itself, then the back.
  lemma FieldOfShaText(q: string, c: string, s: string, field: string)
    requires EndsFresh(q) && IsDigest(c) && (field == SHA || field == NAME || field == PATH)
    ensures StringField(ShaText(q, c, s), field) ==
      if StringField(q, field).Some? then StringField(q, field)
      else if field == SHA then Some(c)
      else StringField(s, field)
  {
    hide *;
    var u := ShaText(q, c, s);
    FieldWords();
    ShaTextChars(q, c, s);
    ShaTextBarrier(q, c, s);
    forall j | 0 <= j < |q| ensures MatchAt(u, j, field) == MatchAt(q, j, field) {
      MatchBeforeBarrier(u, |q|, |q| + 9, j, field);
    }
    if StringField(q, field).Some? {
      FieldInFront(u, |q|, field);
    } else {
      forall j | 0 <= j < |q| ensures MatchAt(u, j, field).None? {
        NoFieldNoMatch(q, field, j);
      }
      if field == SHA {
        ShaTextMatch(q, c, s);
        FindFieldIs(u, field, |q|);
        FieldValue(u, field, |q|);
        assert u[|q| + 10..|q| + 10 + |c|] == c;
      } else {
        FieldBehindSha(q, c, s, field);
      }
    }
  }

  lemma FieldBehindSha(q: string, c: string, s: string, field: string)
    requires EndsFresh(q) && IsDigest(c) && (field == NAME || field == PATH)
    requires |q| <= |ShaText(q, c, s)| && forall j | 0 <= j < |q| :: MatchAt(ShaText(q, c, s), j, field).None?
    ensures StringField(ShaText(q, c, s), field) == StringField(s, field)
  {
    hide *;
    var u, front := ShaText(q, c, s), q + ShaLine(c) + "\n";
    ShaTextChars(q, c, s);
    ShaTextFront(q, c, s);
    assert u[|q|] == front[|q|];
    forall j | 0 <= j < |front| ensures MatchAt(u, j, field).None? {
      if j == |q| { OtherFieldNotHere(u, j, field); }
      else if j > |q| { ShaTextNoOther(q, c, s, j, field); }
    }
    FieldInBack(front, s, field);
  }

  // ---------------------------------------------------------------- the block before the update

  // Trailing blanks add no field.
  lemma BlankTail(p: string, w: string, field: string)
    requires EndsFresh(p) && AllSpaces(w, 0, |w|) && IsWord(field)
    ensures EndsFresh(p + w) && StringField(p + w, field) == StringField(p, field)
  {
    BlankTailFresh(p, w);
    var t := p + w;
    assert t[..|p|] == p;
    forall j | 0 <= j <= |t| ensures MatchAt(t, j, field) == if j <= |p| then MatchAt(p, j, field) else None {
      BlankTailMatch(p, w, j, field);
    }
    hide MatchAt, AllSpaces;
    if StringField(p, field).Some? {
      FieldInFront(t, |p|, field);
    } else {
      forall j | 0 <= j <= |t| ensures MatchAt(t, j, field).None? {
        if j <= |p| { NoFieldNoMatch(p, field, j); }
      }
      FindFieldNone(t, field);
    }
  }

  lemma BlankTailFresh(p: string, w: string)
    requires EndsFresh(p) && AllSpaces(w, 0, |w|)
    ensures EndsFresh(p + w)
  {
    var t := p + w;
    var i :| 0 <= i <= |p| && LineStart(p, i) && AllSpaces(p, i, |p|);
    assert LineStart(t, i) && AllSpaces(t, i, |t|);
  }

  lemma BlankTailMatch(p: string, w: string, j: nat, field: string)
    requires EndsFresh(p) && AllSpaces(w, 0, |w|) && IsWord(field) && j <= |p + w|
    ensures MatchAt(p + w, j, field) == if j <= |p| then MatchAt(p, j, field) else None
  {
    var t := p + w;
    assert forall k | |p| <= k < |t| :: IsSpace(t[k]) by {
      assert forall k | |p| <= k < |t| :: t[k] == w[k - |p|];
    }
    if FieldAt(t, j, field).Some? {
      var a, b, q := GivesShape(t, j, field);
      assert t[q + 1] == ',';
      assert q + 1 < |p|;
    }
    if j <= |p| { MatchPrefix(p, w, j, field); }
  }

  // A match begun before another match that lies in a fresh front lies in that front too.
  lemma EarlierMatchInFront(p: string, x: string, at: nat, other: string, j: nat, field: string)
    requires EndsFresh(p) && IsWord(field) && IsWord(other) && 'a' <= other[0] <= 'z' && j < at <= |p|
    requires MatchAt(p, at, other).Some?
    ensures MatchAt(p + x, j, field) == MatchAt(p, j, field)
  {
    var t := p + x;
    MatchPrefix(p, x, j, field);
    if FieldAt(t, j, field).Some? {
      var a0, b0, q0 := GivesShape(p, at, other);
      StartsWithFirst(p, at, other);
      FirstOnLinePrefix(p, x, at);
      assert t[at] == p[at] && t[b0] == p[b0];
      hide MatchAt, FirstOnLine, Shape, FieldAt;
      var a, b, q := GivesShape(t, j, field);
      EarlierShape(t, j, field, a, b, q, at, b0);
    }
  }

  lemma EarlierShape(t: string, j: nat, field: string, a: nat, b: nat, q: nat, at: nat, b0: nat)
    requires Shape(t, j, field, a, b, q) && IsWord(field) && j < at < b0 < |t|
    requires FirstOnLine(t, at) && 'a' <= t[at] <= 'z' && t[b0] == '"'
    ensures q <= b0
  {
    StartsWithFirst(t, j, field);
    var n := BreakBetween(t, j, at);
    LiteralBeforeBreak(t, j, field, n);
    assert a < n;
    assert b < n;
  }

  // A field that a fresh front holds is the field of the whole text.
  lemma PrefixField(p: string, x: string, field: string)
    requires EndsFresh(p) && IsWord(field) && 'a' <= field[0] <= 'z' && StringField(p, field).Some?
    ensures StringField(p + x, field) == StringField(p, field)
  {
    hide *;
    var at := FirstField(p, field);
    MatchPrefix(p, x, at, field);
    forall j | 0 <= j < at ensures MatchAt(p + x, j, field).None? {
      EarlierMatchInFront(p, x, at, field, j, field);
    }
    FindFieldIs(p + x, field, at);
    FieldValue(p + x, field, at);
    var v := MatchAt(p, at, field).value;
    assert (p + x)[v.0..v.1] == p[v.0..v.1];
  }

  // A lower-case checksum field stops every match begun before it.
  lemma HexBarrier(b: string, at: nat) returns (q: nat)
    requires at <= |b| && HexAt(b, at)
    ensures Barrier(b, at, q) && q + 1 == MatchAt(b, at, SHA).value.0
  {
    var a, b0, q0 := GivesShape(b, at, SHA);
    StartsWithFirst(b, at, SHA);
    q := b0;
    assert b[b0 + 1] == b[b0 + 1..q0][0];
    assert forall k | at <= k < at + 6 :: b[k] == b[at..at + 6][k - at];
    assert forall k | at <= k < at + 6 :: b[k] != '"';
  }

  // No other field starts between such a field and the end of its trailing blanks.
  lemma HexRegionNoOther(b: string, at: nat, k: nat, j: nat, field: string)
    requires at <= |b| && HexAt(b, at) && (field == NAME || field == PATH)
    requires MatchAt(b, at, SHA).value.1 + 2 <= k <= |b| && AllSpaces(b, MatchAt(b, at, SHA).value.1 + 2, k)
    requires at <= j < k
    ensures MatchAt(b, j, field).None?
  {
    var a, b0, q := GivesShape(b, at, SHA);
    assert forall m | b0 < m < q :: b[m] == b[b0 + 1..q][m - b0 - 1] && IsHex(b[m]);
    assert MatchAt(b, at, SHA).value == (b0 + 1, q);
    hide MatchAt, HexAt, FieldAt, AllHex;
    if b0 < j < q {
      HexInside(b, b0, q, j, field);
    } else {
      HexOutside(b, at, k, j, a, b0, q);
      OtherFieldNotHere(b, j, field);
    }
  }

  lemma HexInside(b: string, b0: nat, q: nat, j: nat, field: string)
    requires b0 < j < q < |b| && b[b0] == '"' && forall m | b0 < m < q :: IsHex(b[m])
    ensures MatchAt(b, j, field).None?
  {
    assert !FirstOnLine(b, j);
  }

  lemma HexOutside(b: string, at: nat, k: nat, j: nat, a: nat, b0: nat, q: nat)
    requires Shape(b, at, SHA, a, b0, q) && q + 2 <= k <= |b| && AllSpaces(b, q + 2, k)
    requires at <= j < k && !(b0 < j < q)
    ensures b[j] != 'n' && b[j] != 'd'
  {
    assert forall m | at <= m < at + 6 :: b[m] == b[at..at + 6][m - at];
  }

  // The fields of a block that holds a lower-case checksum: the front wins over what follows the checksum.
  lemma FieldOfHexBlock(b: string, at: nat, k: nat, field: string)
    requires at <= |b| && HexAt(b, at) && MatchAt(b, at, SHA).Some? && (field == NAME || field == PATH)
    requires MatchAt(b, at, SHA).value.1 + 2 <= k < |b| && AllSpaces(b, MatchAt(b, at, SHA).value.1 + 2, k)
      && b[k] == '\n'
    ensures StringField(b, field) ==
      if StringField(b[..at], field).Some? then StringField(b[..at], field) else StringField(b[k + 1..], field)
  {
    hide *;
    FieldWords();
    var q := HexBarrier(b, at);
    forall j | 0 <= j < at ensures MatchAt(b, j, field) == MatchAt(b[..at], j, field) {
      MatchBeforeBarrier(b, at, q, j, field);
    }
    if StringField(b[..at], field).Some? {
      FieldInFront(b, at, field);
    } else {
      var front, s := b[..k + 1], b[k + 1..];
      assert b == front + s;
      forall j | 0 <= j < |front| ensures MatchAt(b, j, field).None? {
        if j < at { NoFieldNoMatch(b[..at], field, j); }
        else if j == k { OtherFieldNotHere(b, j, field); }
        else { HexRegionNoOther(b, at, k, j, field); }
      }
      LineStartAfter(front);
      FieldInBack(front, s, field);
    }
  }

  lemma LineStartAfter(front: string)
    requires front != "" && front[|front| - 1] == '\n'
    ensures LineStart(front, |front|)
  {
  }

  // ---------------------------------------------------------------- the update of one block

  // A block as HTTP_FILE_BLOCK_RE delivers it ends with a parenthesis and possibly a line break.
  predicate Closed(b: string) {
    b != "" && (b[|b| - 1] == ')' || (b[|b| - 1] == '\n' && |b| > 1 && b[|b| - 2] == ')'))
  }

  // What the match of a checksum field takes in behind the field: blanks up to a line break that no blank line follows.
  lemma HexRegion(b: string, at: nat)
    requires Closed(b) && at <= |b| && HexAt(b, at)
    ensures MatchAt(b, at, SHA).Some?
    ensures MatchAt(b, at, SHA).value.1 + 2 <= HexEnd(b, at) < |b| && b[HexEnd(b, at)] == '\n'
    ensures AllSpaces(b, MatchAt(b, at, SHA).value.1 + 2, HexEnd(b, at)) && !BlankStart(b[HexEnd(b, at) + 1..])
  {
    var a, b0, q := GivesShape(b, at, SHA);
    assert b[q + 1] == ',';
    hide FieldAt, Shape, FirstOnLine, AllHex, BlankStart;
    TrailInside(b, q + 2);
  }

  lemma TrailInside(b: string, after: nat)
    requires Closed(b) && 0 < after <= |b| && b[after - 1] == ',' && TrailOk(b, after)
    ensures after <= TrailEnd(b, after) < |b| && b[TrailEnd(b, after)] == '\n'
    ensures AllSpaces(b, after, TrailEnd(b, after)) && !BlankStart(b[TrailEnd(b, after) + 1..])
  {
    var e, k := SkipSpaces(b, after), TrailEnd(b, after);
    var m :| after <= m <= |b| && LineEnd(b, m) && AllSpaces(b, after, m);
    assert m <= e;
    assert e < |b|;
    assert LineEnd(b, k);
    NotBlank(b, k, e);
  }

  // The text starts with a blank line.
  predicate BlankStart(s: string) {
    exists n | 0 <= n < |s| :: s[n] == '\n' && AllSpaces(s, 0, n)
  }

  lemma NotBlank(b: string, k: nat, e: nat)
    requires k < e < |b| && !IsSpace(b[e]) && forall m | k < m <= e :: !LineEnd(b, m)
    ensures !BlankStart(b[k + 1..])
  {
    var s := b[k + 1..];
    forall n | 0 <= n < |s| && s[n] == '\n' ensures !AllSpaces(s, 0, n) {
      assert b[k + 1 + n] == '\n';
      assert LineEnd(b, k + 1 + n);
      assert k + 1 + n > e;
      assert s[e - k - 1] == b[e];
    }
  }

  // The front of the updated block: what precedes the checksum line, blanks included.
  function Front(b: string): string
    requires FindHex(b, 0).Some? || FindInsert(b, 0).Some?
  {
    var hex := FindHex(b, 0);
    if hex.Some? then b[..hex.value]
    else
      var path := FindInsert(b, 0).value;
      b[..InsertionPoint(b, path)] + b[LeadStart(b, 0, path)..path]
  }

  function Back(b: string): string
    requires Closed(b) && (FindHex(b, 0).Some? || FindInsert(b, 0).Some?)
  {
    var hex := FindHex(b, 0);
    if hex.Some? then
      HexRegion(b, hex.value);
      b[HexEnd(b, hex.value) + 1..]
    else b[InsertionPoint(b, FindInsert(b, 0).value)..]
  }

  lemma UpdatedBlock(b: string, c: string)
    requires Closed(b)
    ensures WithSha(b, c).Ok? <==> FindHex(b, 0).Some? || FindInsert(b, 0).Some?
    ensures WithSha(b, c).Ok? ==> WithSha(b, c).value == ShaText(Front(b), c, Back(b)) && EndsFresh(Front(b))
  {
    if FindHex(b, 0).Some? {
      ReplacedBlock(b, c, FindHex(b, 0).value);
    } else if FindInsert(b, 0).Some? {
      InsertedBlock(b, c, FindInsert(b, 0).value);
    }
  }

  lemma ReplacedBlock(b: string, c: string, at: nat)
    requires Closed(b) && FindHex(b, 0) == Some(at)
    ensures WithSha(b, c) == Ok(ShaText(Front(b), c, Back(b))) && EndsFresh(Front(b))
  {
    hide *;
    HexFrontFresh(b, at);
    HexRegion(b, at);
    ReplacedIs(b, c, at);
    ReplaceParts(b, at);
    ShaTextIs(b[..at], c, b[HexEnd(b, at) + 1..]);
    SplitAtBreak(b, HexEnd(b, at), b[..at] + ShaLine(c));
  }

  lemma ReplacedIs(b: string, c: string, at: nat)
    requires FindHex(b, 0) == Some(at)
    ensures WithSha(b, c) == Ok(b[..at] + ShaLine(c) + b[HexEnd(b, at)..])
  {
    hide HexAt, HexEnd, FindHex, ShaLine;
  }

  lemma ReplaceParts(b: string, at: nat)
    requires Closed(b) && FindHex(b, 0) == Some(at)
    ensures Front(b) == b[..at] && HexEnd(b, at) < |b| && Back(b) == b[HexEnd(b, at) + 1..]
  {
    HexRegion(b, at);
    hide HexAt, HexEnd, FindHex, Closed, BlankStart;
  }

  lemma ShaTextIs(q: string, c: string, s: string)
    ensures ShaText(q, c, s) == q + ShaLine(c) + "\n" + s
  {
  }

  lemma HexFrontFresh(b: string, at: nat)
    requires at <= |b| && HexAt(b, at)
    ensures EndsFresh(b[..at])
  {
    assert b == b[..at] + b[at..];
    FirstOnLinePrefix(b[..at], b[at..], at);
  }

  lemma SplitAtBreak(b: string, k: nat, x: string)
    requires k < |b| && b[k] == '\n'
    ensures x + b[k..] == x + "\n" + b[k + 1..]
  {
    assert b[k..] == "\n" + b[k + 1..];
  }

  lemma InsertedBlock(b: string, c: string, path: nat)
    requires FindHex(b, 0).None? && FindInsert(b, 0) == Some(path)
    requires Closed(b)
    ensures WithSha(b, c) == Ok(ShaText(Front(b), c, Back(b))) && EndsFresh(Front(b))
  {
    InsertFront(b, path);
    BlankTailFresh(b[..InsertionPoint(b, path)], b[LeadStart(b, 0, path)..path]);
  }

  lemma InsertFront(b: string, path: nat)
    requires path <= |b| && InsertAfter(b, path)
    ensures var at := InsertionPoint(b, path);
      && at <= |b| && LineStart(b, at) && EndsFresh(b[..at])
      && MatchAt(b[..at], path, PATH).Some?
      && AllSpaces(b[LeadStart(b, 0, path)..path], 0, path - LeadStart(b, 0, path))
  {
    hide *;
    InsertIs(b, path);
    var a, b0, q := GivesShape(b, path, PATH);
    FrontOfPath(b, path, a, b0, q);
    LineStartFresh(b[..q + 3]);
    LineStartHere(b, q + 3);
    SpacesShift(b, LeadStart(b, 0, path), path);
  }

  lemma InsertIs(b: string, path: nat)
    requires path <= |b| && InsertAfter(b, path)
    ensures FirstOnLine(b, path) && FieldAt(b, path, PATH).Some?
    ensures var q := FieldAt(b, path, PATH).value.1;
      q + 2 < |b| && b[q + 2] == '\n'
      && InsertionPoint(b, path) == q + 3 && path <= q
  {
    hide FirstOnLine, FieldAt;
  }

  lemma LineStartHere(b: string, at: nat)
    requires 0 < at <= |b| && b[at - 1] == '\n'
    ensures LineStart(b, at)
  {
  }

  lemma SpacesShift(b: string, i: nat, j: nat)
    requires i <= j <= |b| && AllSpaces(b, i, j)
    ensures AllSpaces(b[i..j], 0, j - i)
  {
  }

  lemma LineStartFresh(front: string)
    requires front != "" && front[|front| - 1] == '\n'
    ensures EndsFresh(front)
  {
    assert LineStart(front, |front|) && AllSpaces(front, |front|, |front|);
  }

  lemma FrontOfPath(b: string, path: nat, a: nat, b0: nat, q: nat)
    requires Shape(b, path, PATH, a, b0, q) && q + 2 < |b| && b[q + 2] == '\n' && path <= q && FirstOnLine(b, path)
    ensures MatchAt(b[..q + 3], path, PATH) == Some((b0 + 1, q))
  {
    hide FirstOnLine, Shape, FieldAt;
    var front := b[..q + 3];
    assert b == front + b[q + 3..];
    ShapePrefix(front, b[q + 3..], path, PATH, a, b0, q);
    ShapeGives(front, path, PATH, a, b0, q);
    FirstOnLinePrefix(front, b[q + 3..], path);
    assert LineEnd(front, q + 2) && AllSpaces(front, q + 2, q + 2);
  }

  // The first sha256 field that the checker reads after the update is the one that was written: the block's first
  // sha256 field is the lower-case one that gets replaced, or, with none to replace, no other one precedes the
  // place of insertion.
  predicate ShaReadable(b: string) {
    var hex := FindHex(b, 0);
    if hex.Some? then FindField(b, SHA, 0) == hex
    else FindInsert(b, 0).Some? && StringField(b[..InsertionPoint(b, FindInsert(b, 0).value)], SHA).None?
  }

  // The name, if there is one, does not start with a comma.
  predicate PlainName(b: string) {
    var name := StringField(b, NAME);
    name.Some? ==> name.value == "" || name.value[0] != ','
  }
}
