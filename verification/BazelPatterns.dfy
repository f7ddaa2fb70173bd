/** What the patterns of rusty_v8_module_bazel.py match, spelled out position by position: a search finds the
    match with the least start, and with that start the rest of the match is determined. */
module BazelPatterns {
  import opened Prelude
  import opened PythonText
  import opened BazelFields
  import opened BazelBlock
  import opened BazelDocument

  // `^(\s*)<field>\s*=\s*"([^"]+)",` from s, with the field name at j, the sign at x and the quotes at y and q
  ghost predicate LineAt(t: string, field: string, s: nat, j: nat, x: nat, y: nat, q: nat) {
    && s <= j && j + |field| <= x && x < y && y + 1 < q && q + 1 < |t|
    && (s == 0 || t[s - 1] == '\n') && (forall k | s <= k < j :: IsSpace(t[k]))
    && t[j..j + |field|] == field
    && (forall k | j + |field| <= k < x :: IsSpace(t[k])) && t[x] == '='
    && (forall k | x < k < y :: IsSpace(t[k])) && t[y] == '"'
    && (forall k | y < k < q :: t[k] != '"') && t[q] == '"' && t[q + 1] == ','
  }

  // `\s*$` behind the comma reaches e
  ghost predicate TrailAt(t: string, q: nat, e: nat) {
    q + 2 <= e <= |t| && (forall k | q + 2 <= k < e :: IsSpace(t[k])) && (e == |t| || t[e] == '\n')
  }

  // `^\s*<field>\s*=\s*"([^"]+)",\s*$`
  ghost predicate FieldMatch(t: string, field: string, s: nat, j: nat, x: nat, y: nat, q: nat) {
    LineAt(t, field, s, j, x, y, q) && exists e :: TrailAt(t, q, e)
  }

  // `^(\s*)sha256\s*=\s*"[0-9a-f]+",\s*$`
  ghost predicate HexMatch(t: string, s: nat, j: nat, x: nat, y: nat, q: nat) {
    && FieldMatch(t, "sha256", s, j, x, y, q)
    && forall k | y < k < q :: '0' <= t[k] <= '9' || 'a' <= t[k] <= 'f'
  }

  // `^(\s*)downloaded_file_path\s*=\s*"[^"]+",\n`
  ghost predicate PathMatch(t: string, s: nat, j: nat, x: nat, y: nat, q: nat) {
    LineAt(t, "downloaded_file_path", s, j, x, y, q) && q + 2 < |t| && t[q + 2] == '\n'
  }

  // some match starts at s
  ghost predicate StartsField(t: string, field: string, s: nat) {
    exists j, x, y, q :: FieldMatch(t, field, s, j, x, y, q)
  }

  ghost predicate StartsHex(t: string, s: nat) {
    exists j, x, y, q :: HexMatch(t, s, j, x, y, q)
  }

  ghost predicate StartsPath(t: string, s: nat) {
    exists j, x, y, q :: PathMatch(t, s, j, x, y, q)
  }

  // ---------------------------------------------------------------- one field name

  lemma LineAtGives(t: string, field: string, s: nat, j: nat, x: nat, y: nat, q: nat)
    requires LineAt(t, field, s, j, x, y, q)
    ensures FirstOnLine(t, j) && FieldAt(t, j, field) == Some((y + 1, q))
  {
    assert LineStart(t, s) && AllSpaces(t, s, j);
    assert Shape(t, j, field, x, y, q);
    ShapeGives(t, j, field, x, y, q);
  }

  lemma GivesLineAt(t: string, field: string, j: nat) returns (s: nat, x: nat, y: nat, q: nat)
    requires j <= |t| && FirstOnLine(t, j) && FieldAt(t, j, field).Some?
    ensures LineAt(t, field, s, j, x, y, q) && FieldAt(t, j, field) == Some((y + 1, q))
  {
    x, y, q := GivesShape(t, j, field);
    s :| 0 <= s <= j && LineStart(t, s) && AllSpaces(t, s, j);
  }

  lemma FieldMatchGives(t: string, field: string, s: nat, j: nat, x: nat, y: nat, q: nat)
    requires FieldMatch(t, field, s, j, x, y, q)
    ensures MatchAt(t, j, field) == Some((y + 1, q))
  {
    LineAtGives(t, field, s, j, x, y, q);
    var e :| TrailAt(t, q, e);
    assert LineEnd(t, e) && AllSpaces(t, q + 2, e);
  }

  lemma GivesFieldMatch(t: string, field: string, j: nat) returns (s: nat, x: nat, y: nat, q: nat)
    requires j <= |t| && MatchAt(t, j, field).Some?
    ensures FieldMatch(t, field, s, j, x, y, q) && StartsField(t, field, s) && MatchAt(t, j, field) == Some((y + 1, q))
  {
    s, x, y, q := GivesLineAt(t, field, j);
    var e :| q + 2 <= e <= |t| && LineEnd(t, e) && AllSpaces(t, q + 2, e);
    assert TrailAt(t, q, e);
  }

  // Of two matches, the one that starts further in front has its field name further in front.
  lemma StartsOrdered(t: string, field: string, s: nat, j: nat, x: nat, y: nat, q: nat,
                      s1: nat, j1: nat, x1: nat, y1: nat, q1: nat)
    requires IsWord(field) && LineAt(t, field, s, j, x, y, q) && LineAt(t, field, s1, j1, x1, y1, q1)
    ensures j < j1 ==> s < s1
  {
    assert t[j] == t[j..j + |field|][0];
  }

  lemma FieldsOrdered(t: string, field: string, s: nat, j: nat, x: nat, y: nat, q: nat,
                      s1: nat, j1: nat, x1: nat, y1: nat, q1: nat)
    requires IsWord(field) && FieldMatch(t, field, s, j, x, y, q) && FieldMatch(t, field, s1, j1, x1, y1, q1)
    ensures j < j1 ==> s < s1
  {
    hide IsWord, LineAt;
    StartsOrdered(t, field, s, j, x, y, q, s1, j1, x1, y1, q1);
  }

  // ---------------------------------------------------------------- string_field

  lemma FieldFound(t: string, field: string, j: nat)
    requires j <= |t| && MatchAt(t, j, field).Some?
    ensures FindField(t, field, 0).Some? && FindField(t, field, 0).value <= j
  {
    hide MatchAt, FindField;
  }

  // `string_field` returns the value of the match that starts first.
  lemma StringFieldMeaning(t: string, field: string, s: nat, j: nat, x: nat, y: nat, q: nat)
    requires IsWord(field) && FieldMatch(t, field, s, j, x, y, q)
    requires forall s1: nat | StartsField(t, field, s1) :: s <= s1
    ensures StringField(t, field) == Some(t[y + 1..q])
  {
    hide *;
    FieldMatchGives(t, field, s, j, x, y, q);
    FieldFound(t, field, j);
    var found := FindField(t, field, 0).value;
    FieldValue(t, field, found);
    var s1, x1, y1, q1 := GivesFieldMatch(t, field, found);
    if found < j { FieldsOrdered(t, field, s1, found, x1, y1, q1, s, j, x, y, q); }
  }

  lemma NoStringField(t: string, field: string)
    requires forall s: nat :: !StartsField(t, field, s)
    ensures StringField(t, field) == None
  {
    if FindField(t, field, 0).Some? {
      var s, x, y, q := GivesFieldMatch(t, field, FindField(t, field, 0).value);
    }
  }

  // ---------------------------------------------------------------- block_with_sha256

  lemma HexMatchGives(t: string, s: nat, j: nat, x: nat, y: nat, q: nat)
    requires HexMatch(t, s, j, x, y, q)
    ensures HexAt(t, j) && MatchAt(t, j, SHA) == Some((y + 1, q))
  {
    FieldMatchGives(t, "sha256", s, j, x, y, q);
  }

  lemma GivesHexMatch(t: string, j: nat) returns (s: nat, x: nat, y: nat, q: nat)
    requires j <= |t| && HexAt(t, j)
    ensures HexMatch(t, s, j, x, y, q) && StartsHex(t, s)
  {
    hide HexAt, FieldMatch, MatchAt;
    HexValue(t, j);
    s, x, y, q := GivesFieldMatch(t, "sha256", j);
    assert forall k | y < k < q :: t[k] == t[y + 1..q][k - y - 1];
    assert HexMatch(t, s, j, x, y, q);
  }

  lemma HexValue(t: string, j: nat)
    requires j <= |t| && HexAt(t, j)
    ensures MatchAt(t, j, "sha256").Some?
    ensures var (a, q) := MatchAt(t, j, "sha256").value; AllHex(t[a..q])
  {
    hide MatchAt;
  }

  // The greedy run of blanks behind a field ends at its last line end.
  lemma TrailIsGreedy(t: string, q: nat, e: nat)
    requires TrailAt(t, q, e) && forall e1: nat | TrailAt(t, q, e1) :: e1 <= e
    ensures TrailEnd(t, q + 2) == e
  {
    var run, k := SkipSpaces(t, q + 2), TrailEnd(t, q + 2);
    assert e <= run;
    assert LineEnd(t, e);
    if LineEnd(t, k) { assert TrailAt(t, q, k); }
  }

  lemma ShaLineText(front: string, c: string, back: string)
    ensures front + ShaLine(c) + back == front + "sha256 = \"" + c + "\"," + back
    ensures front + ShaLine(c) + "\n" + back == front + "sha256 = \"" + c + "\",\n" + back
  {
    var line := "sha256 = \"" + c + "\",";
    assert "\",\n" == "\"," + "\n";
    assert line + "\n" == "sha256 = \"" + c + "\",\n";
    assert front + line == front + "sha256 = \"" + c + "\",";
    assert front + (line + "\n") == front + "sha256 = \"" + c + "\",\n";
  }

  lemma HexEndIs(t: string, j: nat, y: nat, q: nat, e: nat)
    requires j <= |t| && HexAt(t, j) && MatchAt(t, j, SHA) == Some((y + 1, q)) && TrailEnd(t, q + 2) == e
    ensures HexEnd(t, j) == e
  {
    hide HexAt, MatchAt, TrailEnd;
  }

  lemma HexFound(b: string, j: nat)
    requires j <= |b| && HexAt(b, j)
    ensures FindHex(b, 0).Some? && FindHex(b, 0).value <= j && HexAt(b, FindHex(b, 0).value)
  {
    hide HexAt, FindHex;
  }

  lemma FirstHexIs(b: string, s: nat, j: nat, x: nat, y: nat, q: nat)
    requires HexMatch(b, s, j, x, y, q)
    requires forall s1: nat | StartsHex(b, s1) :: s <= s1
    ensures FindHex(b, 0) == Some(j)
  {
    hide *;
    HexMatchGives(b, s, j, x, y, q);
    HexFound(b, j);
    var found := FindHex(b, 0).value;
    var s1, x1, y1, q1 := GivesHexMatch(b, found);
    if found < j { HexOrdered(b, s1, found, x1, y1, q1, s, j, x, y, q); }
  }

  lemma HexOrdered(t: string, s: nat, j: nat, x: nat, y: nat, q: nat, s1: nat, j1: nat, x1: nat, y1: nat, q1: nat)
    requires HexMatch(t, s, j, x, y, q) && HexMatch(t, s1, j1, x1, y1, q1)
    ensures j < j1 ==> s < s1
  {
    FieldWords();
    hide IsWord, FieldMatch, LineAt;
    assert FieldMatch(t, "sha256", s, j, x, y, q) && FieldMatch(t, "sha256", s1, j1, x1, y1, q1);
    FieldsOrdered(t, "sha256", s, j, x, y, q, s1, j1, x1, y1, q1);
  }

  // The first checksum field in lower case is replaced, from its name to the last line end of the blanks behind it.
  lemma ReplacedMeaning(b: string, c: string, s: nat, j: nat, x: nat, y: nat, q: nat, e: nat)
    requires HexMatch(b, s, j, x, y, q)
    requires forall s1: nat | StartsHex(b, s1) :: s <= s1
    requires TrailAt(b, q, e) && forall e1: nat | TrailAt(b, q, e1) :: e1 <= e
    ensures j <= |b| && WithSha(b, c) == Ok(b[..j] + "sha256 = \"" + c + "\"," + b[e..])
  {
    HexMatchGives(b, s, j, x, y, q);
    FirstHexIs(b, s, j, x, y, q);
    TrailIsGreedy(b, q, e);
    HexEndIs(b, j, y, q, e);
    ReplacedIs(b, c, j);
    ShaLineText(b[..j], c, b[e..]);
  }

  lemma PathMatchGives(t: string, s: nat, j: nat, x: nat, y: nat, q: nat)
    requires PathMatch(t, s, j, x, y, q)
    ensures j <= |t| && InsertAfter(t, j) && InsertionPoint(t, j) == q + 3
  {
    LineAtGives(t, "downloaded_file_path", s, j, x, y, q);
  }

  lemma GivesPathMatch(t: string, j: nat) returns (s: nat, x: nat, y: nat, q: nat)
    requires j <= |t| && InsertAfter(t, j)
    ensures PathMatch(t, s, j, x, y, q) && StartsPath(t, s)
  {
    s, x, y, q := GivesLineAt(t, "downloaded_file_path", j);
    assert PathMatch(t, s, j, x, y, q);
  }

  lemma PathOrdered(t: string, s: nat, j: nat, x: nat, y: nat, q: nat, s1: nat, j1: nat, x1: nat, y1: nat, q1: nat)
    requires PathMatch(t, s, j, x, y, q) && PathMatch(t, s1, j1, x1, y1, q1)
    ensures j < j1 ==> s < s1
  {
    FieldWords();
    hide IsWord, LineAt;
    StartsOrdered(t, "downloaded_file_path", s, j, x, y, q, s1, j1, x1, y1, q1);
  }

  lemma PathFound(b: string, j: nat)
    requires j <= |b| && InsertAfter(b, j)
    ensures FindInsert(b, 0).Some? && FindInsert(b, 0).value <= j && InsertAfter(b, FindInsert(b, 0).value)
  {
    hide InsertAfter, FindInsert;
  }

  lemma FirstPathIs(b: string, s: nat, j: nat, x: nat, y: nat, q: nat)
    requires PathMatch(b, s, j, x, y, q)
    requires forall s1: nat | StartsPath(b, s1) :: s <= s1
    ensures FindInsert(b, 0) == Some(j)
  {
    hide *;
    PathMatchGives(b, s, j, x, y, q);
    PathFound(b, j);
    var found := FindInsert(b, 0).value;
    var s1, x1, y1, q1 := GivesPathMatch(b, found);
    if found < j { PathOrdered(b, s1, found, x1, y1, q1, s, j, x, y, q); }
  }

  lemma {:induction false} LeadIsFirst(t: string, i: nat, j: nat)
    requires i <= j <= |t|
    ensures var s := LeadStart(t, i, j);
      && (s < j ==> LineStart(t, s))
      && forall k | i <= k < s :: !(LineStart(t, k) && AllSpaces(t, k, j))
    decreases j - i
  {
    hide LineStart, AllSpaces;
    if i < j && !(LineStart(t, i) && AllSpaces(t, i, j)) { LeadIsFirst(t, i + 1, j); }
  }

  lemma LeadIsLeast(b: string, s: nat, j: nat, x: nat, y: nat, q: nat)
    requires PathMatch(b, s, j, x, y, q)
    requires forall s1: nat | StartsPath(b, s1) :: s <= s1
    ensures j <= |b| && LeadStart(b, 0, j) == s
  {
    assert LineStart(b, s) && AllSpaces(b, s, j);
    LeadIsFirst(b, 0, j);
    var lead := LeadStart(b, 0, j);
    assert lead <= s;
    if lead < j { assert PathMatch(b, lead, j, x, y, q) && StartsPath(b, lead); }
  }

  // Without one, a line with the checksum follows the first path field, indented like it.
  lemma InsertedMeaning(b: string, c: string, s: nat, j: nat, x: nat, y: nat, q: nat)
    requires forall s1: nat :: !StartsHex(b, s1)
    requires PathMatch(b, s, j, x, y, q)
    requires forall s1: nat | StartsPath(b, s1) :: s <= s1
    ensures s <= j && q + 3 <= |b|
      && WithSha(b, c) == Ok(b[..q + 3] + b[s..j] + "sha256 = \"" + c + "\",\n" + b[q + 3..])
  {
    hide *;
    NoHexFound(b);
    PathMatchGives(b, s, j, x, y, q);
    FirstPathIs(b, s, j, x, y, q);
    LeadIsLeast(b, s, j, x, y, q);
    PathMatchEnds(b, s, j, x, y, q);
    InsertedIs(b, c, j);
    ShaLineText(b[..q + 3] + b[s..j], c, b[q + 3..]);
  }

  lemma PathMatchEnds(t: string, s: nat, j: nat, x: nat, y: nat, q: nat)
    requires PathMatch(t, s, j, x, y, q)
    ensures s <= j <= |t| && q + 3 <= |t|
  {
  }

  lemma InsertedIs(b: string, c: string, j: nat)
    requires j <= |b| && FindHex(b, 0).None? && FindInsert(b, 0) == Some(j) && InsertAfter(b, j)
    requires InsertionPoint(b, j) <= |b|
    ensures var at := InsertionPoint(b, j);
      WithSha(b, c) == Ok(b[..at] + b[LeadStart(b, 0, j)..j] + ShaLine(c) + "\n" + b[at..])
  {
    hide InsertAfter, InsertionPoint, FindHex, FindInsert, LeadStart, ShaLine;
  }

  lemma NoHexFound(b: string)
    requires forall s: nat :: !StartsHex(b, s)
    ensures FindHex(b, 0).None?
  {
    hide StartsHex, HexMatch;
    if FindHex(b, 0).Some? { var s, x, y, q := GivesHexMatch(b, FindHex(b, 0).value); }
  }

  // With neither field the block is refused.
  lemma RefusedMeaning(b: string, c: string)
    requires forall s: nat :: !StartsHex(b, s) && !StartsPath(b, s)
    ensures WithSha(b, c) == Err(MissingPath)
  {
    hide StartsHex, StartsPath, PathMatch;
    NoHexFound(b);
    if FindInsert(b, 0).Some? { var s, x, y, q := GivesPathMatch(b, FindInsert(b, 0).value); }
  }

  // ---------------------------------------------------------------- the blocks of a file

  // `^http_file\(\n.*?^\)\n?` from i, closed at c, up to e; begins says whether the text starts on a new line
  ghost predicate BlockMatch(t: string, begins: bool, i: nat, c: nat, e: nat) {
    && i + 11 <= c && c < |t|
    && (if i == 0 then begins else t[i - 1] == '\n') && t[i..i + 11] == "http_file(\n"
    && t[c - 1] == '\n' && t[c] == ')'
    && (forall k | i + 11 <= k < c :: t[k - 1] != '\n' || t[k] != ')')
    && e == if c + 1 < |t| && t[c + 1] == '\n' then c + 2 else c + 1
  }

  ghost predicate StartsBlock(t: string, begins: bool, i: nat) {
    exists c, e :: BlockMatch(t, begins, i, c, e)
  }

  lemma HeaderMeaning(t: string, i: nat, begins: bool)
    requires i <= |t|
    ensures HeaderAt(t, i, begins) <==>
      i + 11 <= |t| && (if i == 0 then begins else t[i - 1] == '\n') && t[i..i + 11] == "http_file(\n"
  {
  }

  // A header with a closing line behind it starts a match.
  lemma ClosedStarts(t: string, begins: bool, i: nat)
    requires i <= |t| && HeaderAt(t, i, begins) && FindClose(t, i + 11).Some?
    ensures StartsBlock(t, begins, i)
  {
    HeaderMeaning(t, i, begins);
    hide HeaderAt;
    var c := FindClose(t, i + 11).value;
    forall k | i + 11 <= k < c ensures t[k - 1] != '\n' || t[k] != ')' { assert !CloseAt(t, k); }
    assert BlockMatch(t, begins, i, c, if c + 1 < |t| && t[c + 1] == '\n' then c + 2 else c + 1);
  }

  lemma BlockMatchFinds(t: string, begins: bool, i: nat, c: nat, e: nat)
    requires BlockMatch(t, begins, i, c, e)
    ensures i <= |t| && HeaderAt(t, i, begins) && FindClose(t, i + 11) == Some(c)
  {
    HeaderMeaning(t, i, begins);
    hide HeaderAt;
    assert CloseAt(t, c);
  }

  lemma LaterClose(t: string, i: nat, j: nat)
    requires i <= j && FindClose(t, j).Some?
    ensures FindClose(t, i).Some?
  {
  }

  // The division takes the block that starts first.
  lemma BlockMeaning(t: string, begins: bool, i: nat, c: nat, e: nat)
    requires BlockMatch(t, begins, i, c, e) && forall k: nat | StartsBlock(t, begins, k) :: i <= k
    ensures FindBlock(t, begins) == Some((i, e))
  {
    assert |HEADER| == 11;
    BlockMatchFinds(t, begins, i, c, e);
    hide HeaderAt, StartsBlock, CloseAt;
    var h := FindHeader(t, 0, begins).value;
    LaterClose(t, h + 11, i + 11);
    ClosedStarts(t, begins, h);
    assert h == i;
  }

  lemma NoBlock(t: string, begins: bool)
    requires forall k: nat :: !StartsBlock(t, begins, k)
    ensures FindBlock(t, begins) == None
  {
    assert |HEADER| == 11;
    hide HeaderAt, StartsBlock, CloseAt;
    var found := FindHeader(t, 0, begins);
    if found.Some? && FindClose(t, found.value + 11).Some? { ClosedStarts(t, begins, found.value); }
  }

  // Each block found is taken out, and the search goes on behind it.
  lemma DivisionMeaning(t: string, begins: bool)
    ensures FindBlock(t, begins) == None ==> Parse(t, begins) == Rest(t)
    ensures forall i, e | FindBlock(t, begins) == Some((i, e)) ::
      i < e <= |t| && Parse(t, begins) == Next(t[..i], t[i..e], Parse(t[e..], t[e - 1] == '\n'))
  {
    hide FindBlock;
  }
}
