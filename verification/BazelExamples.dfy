/** Two files on which the update falls short: one that it leaves in drift, one that a second update changes again.
    Their blocks are read line by line. */
module BazelExamples {
  import opened Prelude
  import opened PythonText
  import opened BazelFields
  import opened BazelBlock
  import opened BazelUpdate
  import opened BazelDocument
  import opened BazelEntries
  import opened BazelManifest
  import opened BazelModule
  import opened BazelGuarantee

  // ---------------------------------------------------------------- reading line by line

  function Line(field: string, value: string): string {
    field + " = \"" + value + "\",\n"
  }

  predicate IsValue(value: string) {
    value != "" && forall k | 0 <= k < |value| :: value[k] != '"' && value[k] != '\n'
  }

  predicate IsField(field: string) {
    field == NAME || field == PATH || field == SHA
  }

  // No field of this name starts in the front.
  ghost predicate Without(front: string, s: string, field: string) {
    forall j | 0 <= j < |front| :: MatchAt(front + s, j, field).None?
  }

  lemma WithoutBoth(a: string, b: string, s: string, field: string)
    requires LineStart(a, |a|) && Without(a, b + s, field) && Without(b, s, field)
    ensures Without(a + b, s, field)
  {
    var t := a + b + s;
    assert t == a + (b + s);
    hide MatchAt, LineStart;
    forall j | 0 <= j < |a + b| ensures MatchAt(t, j, field).None? {
      if j >= |a| { MatchSuffix(a, b + s, j - |a|, field); }
    }
  }

  lemma EndsAtBreak(a: string, b: string)
    requires b != "" && b[|b| - 1] == '\n'
    ensures LineStart(a + b, |a + b|)
  {
  }

  lemma LineEnds(field: string, value: string)
    ensures Line(field, value) != "" && Line(field, value)[|Line(field, value)| - 1] == '\n'
  {
  }

  // Nothing starts inside a line that begins with something visible.
  lemma InsideLine(front: string, s: string, j: nat, field: string)
    requires front != "" && !IsSpace(front[0]) && 0 < j < |front| && forall k | 0 <= k < |front| - 1 :: front[k] != '\n'
    ensures MatchAt(front + s, j, field).None?
  {
    var t := front + s;
    assert t[0] == front[0];
    assert !FirstOnLine(t, j);
  }

  lemma OtherWord(t: string, j: nat, field: string)
    requires j < |t| && IsField(field) && t[j] != field[0]
    ensures MatchAt(t, j, field).None?
  {
    if StartsWith(t, j, field) { StartsWithFirst(t, j, field); }
  }

  lemma LineChars(field: string, value: string)
    requires IsField(field) && IsValue(value)
    ensures Line(field, value)[0] == field[0] && !IsSpace(field[0])
    ensures forall k | 0 <= k < |Line(field, value)| - 1 :: Line(field, value)[k] != '\n'
  {
    var l := Line(field, value);
    FieldWords();
    forall k | 0 <= k < |l| - 1 ensures l[k] != '\n' {
      if |field| + 4 <= k < |field| + 4 + |value| { assert l[k] == value[k - |field| - 4]; }
      if k < |field| { assert l[k] == field[k]; }
    }
  }

  lemma LineWithout(field: string, value: string, s: string, other: string)
    requires IsField(field) && IsField(other) && other != field && IsValue(value)
    ensures Without(Line(field, value), s, other)
  {
    var l := Line(field, value);
    LineChars(field, value);
    FieldWords();
    hide MatchAt, IsSpace, Line;
    forall j | 0 <= j < |l| ensures MatchAt(l + s, j, other).None? {
      if j == 0 { OtherWord(l + s, 0, other); } else { InsideLine(l, s, j, other); }
    }
  }

  lemma HeaderWithout(s: string, field: string)
    requires IsField(field)
    ensures Without(HEADER, s, field)
  {
    assert forall k | 0 <= k < 10 :: HEADER[k] != '\n';
    hide MatchAt, IsSpace;
    assert !IsSpace('h') by { assert IsSpace('h') == false by { NotSpace(); } }
    forall j | 0 <= j < |HEADER| ensures MatchAt(HEADER + s, j, field).None? {
      if j == 0 { OtherWord(HEADER + s, 0, field); } else { InsideLine(HEADER, s, j, field); }
    }
  }

  lemma NotSpace()
    ensures !IsSpace('h')
  {
  }

  // The line is the field it spells.
  lemma LineMatch(field: string, value: string, s: string)
    requires IsField(field) && IsValue(value)
    ensures MatchAt(Line(field, value) + s, 0, field) == Some((|field| + 4, |field| + 4 + |value|))
  {
    var t, n := Line(field, value) + s, |field|;
    LineShape(field, value, s);
    ShapeGives(t, 0, field, n + 1, n + 3, n + 4 + |value|);
    hide Shape, FieldAt, Line;
    assert LineStart(t, 0) && AllSpaces(t, 0, 0);
    assert LineEnd(t, n + 6 + |value|) && AllSpaces(t, n + 6 + |value|, n + 6 + |value|);
  }

  lemma LineShape(field: string, value: string, s: string)
    requires IsValue(value)
    ensures var t, n := Line(field, value) + s, |field|;
      Shape(t, 0, field, n + 1, n + 3, n + 4 + |value|) && t[n + 6 + |value|] == '\n'
  {
    var t, n := Line(field, value) + s, |field|;
    assert t[..n] == field;
    assert t[n] == ' ' && t[n + 1] == '=' && t[n + 2] == ' ' && t[n + 3] == '"';
    assert t[n + 4 + |value|] == '"' && t[n + 5 + |value|] == ',' && t[n + 6 + |value|] == '\n';
    assert forall k | n + 3 < k < n + 4 + |value| :: t[k] == value[k - n - 4];
  }

  lemma LineIsInsert(value: string, s: string)
    requires IsValue(value)
    ensures InsertAfter(Line(PATH, value) + s, 0) && InsertionPoint(Line(PATH, value) + s, 0) == |Line(PATH, value)|
  {
    LineMatch(PATH, value, s);
    assert (Line(PATH, value) + s)[|PATH| + 6 + |value|] == '\n';
  }

  // The line behind a front without its field.
  lemma FieldOfLine(front: string, field: string, value: string, s: string)
    requires IsField(field) && IsValue(value) && LineStart(front, |front|)
      && Without(front, Line(field, value) + s, field)
    ensures StringField(front + (Line(field, value) + s), field) == Some(value)
  {
    hide *;
    var back := Line(field, value) + s;
    WithoutMeans(front, back, field);
    FieldInBack(front, back, field);
    LineMatch(field, value, s);
    FindFieldIs(back, field, 0);
    FieldValue(back, field, 0);
    LineValue(field, value, s);
  }

  lemma WithoutMeans(front: string, s: string, field: string)
    requires Without(front, s, field)
    ensures forall j | 0 <= j < |front| :: MatchAt(front + s, j, field).None?
  {
    hide MatchAt;
  }

  lemma LineValue(field: string, value: string, s: string)
    ensures |field| + 4 + |value| <= |Line(field, value) + s|
    ensures (Line(field, value) + s)[|field| + 4..|field| + 4 + |value|] == value
  {
  }

  // The insertion goes behind the line of the path.
  lemma InsertBehindLine(front: string, value: string, s: string)
    requires IsValue(value) && LineStart(front, |front|) && Without(front, Line(PATH, value) + s, PATH)
    ensures var b := front + (Line(PATH, value) + s);
      FindInsert(b, 0).Some? && Upper(b) == front + Line(PATH, value)
  {
    hide *;
    var back, n := Line(PATH, value) + s, |front|;
    var b := front + back;
    LineIsInsert(value, s);
    InsertSuffix(front, back);
    WithoutMeans(front, back, PATH);
    forall k | 0 <= k < n ensures !InsertAfter(b, k) {
      if InsertAfter(b, k) { InsertIsMatch(b, k); }
    }
    FirstInsert(b, 0, n);
    UpperIs(b);
    assert front + back == front + Line(PATH, value) + s;
  }

  lemma InsertSuffix(front: string, back: string)
    requires LineStart(front, |front|) && InsertAfter(back, 0)
    ensures InsertAfter(front + back, |front|)
    ensures InsertionPoint(front + back, |front|) == |front| + InsertionPoint(back, 0)
  {
    FirstOnLineSuffix(front, back, 0);
    FieldAtSuffix(front, back, 0, PATH);
    hide FieldAt, FirstOnLine, LineStart;
    var q := FieldAt(back, 0, PATH).value.1;
    assert (front + back)[|front| + q + 2] == back[q + 2];
  }

  lemma InsertIsMatch(b: string, k: nat)
    requires k <= |b| && InsertAfter(b, k)
    ensures MatchAt(b, k, PATH).Some?
  {
    var q := FieldAt(b, k, PATH).value.1;
    hide FieldAt, FirstOnLine;
    assert LineEnd(b, q + 2) && AllSpaces(b, q + 2, q + 2);
  }

  lemma {:induction false} FirstInsert(b: string, i: nat, at: nat)
    requires i <= at <= |b| && InsertAfter(b, at) && forall k | i <= k < at :: !InsertAfter(b, k)
    ensures FindInsert(b, i) == Some(at)
    decreases at - i
  {
    hide InsertAfter;
    if i < at { FirstInsert(b, i + 1, at); }
  }

  // A block whose one checksum line is not in lower-case hexadecimal digits.
  lemma NoHexLine(front: string, value: string, s: string)
    requires IsValue(value) && !AllHex(value) && LineStart(front, |front|)
    requires Without(front, Line(SHA, value) + s, SHA) && Without(s, "", SHA)
    ensures FindHex(front + (Line(SHA, value) + s), 0).None?
  {
    hide *;
    var l := Line(SHA, value);
    var back := l + s;
    var b := front + back;
    forall k | 0 <= k <= |b| ensures !HexAt(b, k) {
      if k < |front| {
        WithoutMeans(front, back, SHA);
        NoMatchNoHex(b, k);
      } else {
        NoHexFromLine(value, s, k - |front|);
        HexSuffix(front, back, k - |front|);
      }
    }
    NoHexAnywhere(b);
  }

  lemma NoHexFromLine(value: string, s: string, k: nat)
    requires IsValue(value) && !AllHex(value) && Without(s, "", SHA) && k <= |Line(SHA, value) + s|
    ensures !HexAt(Line(SHA, value) + s, k)
  {
    hide *;
    NameIsField();
    var l := Line(SHA, value);
    if k == 0 {
      LineMatch(SHA, value, s);
      LineValue(SHA, value, s);
      NotHex(l + s, 0);
    } else if k < |l| {
      LineChars(SHA, value);
      InsideLine(l, s, k, SHA);
      NoMatchNoHex(l + s, k);
    } else {
      LineEnds(SHA, value);
      EndsAtBreak("", l);
      assert "" + l == l;
      NoneWithout(s, k - |l|, SHA);
      NoMatchNoHex(s, k - |l|);
      HexSuffix(l, s, k - |l|);
    }
  }

  lemma NoneWithout(s: string, k: nat, field: string)
    requires k <= |s| && Without(s, "", field)
    ensures MatchAt(s, k, field).None?
  {
    assert s + "" == s;
    if MatchAt(s, k, field).Some? { MatchAtNotEnd(s, k, field); }
  }

  lemma NoMatchNoHex(b: string, k: nat)
    requires k <= |b| && MatchAt(b, k, SHA).None?
    ensures !HexAt(b, k)
  {
    hide MatchAt;
  }

  lemma NotHex(b: string, k: nat)
    requires k <= |b| && MatchAt(b, k, SHA).Some? && !AllHex(b[MatchAt(b, k, SHA).value.0..MatchAt(b, k, SHA).value.1])
    ensures !HexAt(b, k)
  {
    hide MatchAt;
  }

  lemma HexSuffix(p: string, s: string, k: nat)
    requires LineStart(p, |p|) && k <= |s|
    ensures HexAt(p + s, |p| + k) <==> HexAt(s, k)
  {
    MatchSuffix(p, s, k, SHA);
    hide MatchAt, AllHex, LineStart;
    if MatchAt(s, k, SHA).Some? {
      var v := MatchAt(s, k, SHA).value;
      SliceShift(p, s, v.0, v.1);
    }
  }

  lemma NoHexAnywhere(b: string)
    requires forall k | 0 <= k <= |b| :: !HexAt(b, k)
    ensures FindHex(b, 0).None?
  {
    hide HexAt;
  }

  lemma NoShaNoHex(b: string)
    requires Without(b, "", SHA)
    ensures FindHex(b, 0).None?
  {
    forall k | 0 <= k <= |b| ensures !HexAt(b, k) {
      NoneWithout(b, k, SHA);
      hide MatchAt;
    }
    NoHexAnywhere(b);
  }

  // ---------------------------------------------------------------- a file of one block

  lemma OneBlockParse(block: string)
    requires BlockShape(block)
    ensures Parse(block, true) == Next("", block, Rest(""))
  {
    var d := Next("", block, Rest(""));
    assert Shaped(d, true) by { NoBlockInNothing(); }
    hide Parse, Shaped, BlockShape;
    ParseRender(d, true);
    assert Render(d) == block;
  }

  lemma NoBlockInNothing()
    ensures FindBlock("", true).None? && FindBlock("", false).None?
  {
  }

  lemma OneBlockShape(body: string)
    requires body != "" && body[|body| - 1] == '\n' && ')' !in body
    ensures BlockShape(HEADER + body + ")")
  {
    var b := HEADER + body + ")";
    assert b[..|HEADER|] == HEADER;
    assert forall k | |HEADER| <= k < |b| - 1 :: b[k] == body[k - |HEADER|] && b[k] in body;
    assert b[|b| - 1] == ')' && b[|b| - 2] == '\n';
  }

  lemma OneEntry(block: string, name: string, path: string, version: string)
    requires BlockShape(block) && StringField(block, NAME) == Some(name) && StringField(block, PATH) == Some(path)
    requires name != "" && path != "" && NamePrefix(version) <= name
    ensures Entries(Parse(block, true), 0, NamePrefix(version)) ==
      Ok([HttpFile(0, |block|, block, name, path, StringField(block, SHA))])
  {
    OneBlockParse(block);
    EntryOfBlock(block, name, path, NamePrefix(version));
    hide *;
    EntriesOfOne(block, NamePrefix(version));
  }

  lemma EntryOfBlock(block: string, name: string, path: string, prefix: string)
    requires StringField(block, NAME) == Some(name) && StringField(block, PATH) == Some(path)
    requires name != "" && path != "" && prefix <= name
    ensures IsEntry(block, prefix) && HasPath(block)
    ensures EntryOf(block, 0) == HttpFile(0, |block|, block, name, path, StringField(block, SHA))
  {
    hide StringField;
  }

  lemma EntriesOfOne(block: string, prefix: string)
    requires IsEntry(block, prefix) && HasPath(block) && StringField(block, NAME).Some?
    ensures Entries(Next("", block, Rest("")), 0, prefix) == Ok([EntryOf(block, 0)])
  {
    hide StringField, HasPath, IsEntry, EntryOf;
    assert 0 + |""| + |block| == |block| && 0 + |""| == 0;
    assert Entries(Rest(""), |block|, prefix) == Ok([]);
    assert [EntryOf(block, 0)] + [] == [EntryOf(block, 0)];
  }

  lemma OneEntryFits(e: HttpFile, checksum: string)
    ensures FitsManifest([e], map[e.path := checksum])
  {
    assert e in [e];
  }

  lemma OneUpdate(block: string, name: string, path: string, version: string, c: string)
    requires BlockShape(block) && StringField(block, NAME) == Some(name) && StringField(block, PATH) == Some(path)
    requires name != "" && path != "" && NamePrefix(version) <= name && IsDigest(c) && FindInsert(block, 0).Some?
    ensures GoodManifest(map[path := c]) && Update(block, map[path := c], version).Ok?
  {
    hide StringField, NamePrefix, IsDigest, Parse, Update, FindInsert, BlockShape, FitsManifest, Entries;
    OneEntry(block, name, path, version);
    OneEntryFits(HttpFile(0, |block|, block, name, path, StringField(block, SHA)), c);
    BlockIsClosed(block);
    UpdatedBlock(block, c);
    UpdateMeaning(block, map[path := c], version);
  }

  const VERSION := "1.2.3"
  const RUSTY := "rusty_v8_1_2_3_a"

  lemma RustyName()
    ensures NamePrefix(VERSION) <= RUSTY && IsValue(RUSTY) && IsValue("p") && IsValue("A") && !AllHex("A")
  {
    assert Slug("1.2.3") == "1" + Slug(".2.3") == "1_" + Slug("2.3") == "1_2" + Slug(".3") == "1_2_" + Slug("3");
    assert "3"[1..] == "";
    assert Slug("3") == "3";
    assert !IsHex("A"[0]);
  }

  // ---------------------------------------------------------------- an upper-case checksum

  const TOP := HEADER + Line(NAME, RUSTY)
  const SHOUTED_FRONT := TOP + Line(SHA, "A")
  const SHOUTED := SHOUTED_FRONT + (Line(PATH, "p") + ")")

  lemma HeaderStart()
    ensures LineStart(HEADER, |HEADER|)
  {
  }

  lemma TopWithout(s: string, field: string)
    requires IsField(field) && field != NAME
    ensures Without(TOP, s, field) && LineStart(TOP, |TOP|)
  {
    hide *;
    RustyName();
    NameIsField();
    HeaderStart();
    HeaderWithout(Line(NAME, RUSTY) + s, field);
    FieldWords();
    LineWithout(NAME, RUSTY, s, field);
    WithoutBoth(HEADER, Line(NAME, RUSTY), s, field);
    LineEnds(NAME, RUSTY);
    EndsAtBreak(HEADER, Line(NAME, RUSTY));
    TopIs();
  }

  lemma TopIs()
    ensures TOP == HEADER + Line(NAME, RUSTY)
  {
  }

  lemma NameOfTop(s: string)
    ensures StringField(TOP + s, NAME) == Some(RUSTY)
  {
    hide *;
    RustyName();
    HeaderStart();
    NameIsField();
    HeaderWithout(Line(NAME, RUSTY) + s, NAME);
    FieldOfLine(HEADER, NAME, RUSTY, s);
    TopIs();
    assert HEADER + (Line(NAME, RUSTY) + s) == HEADER + Line(NAME, RUSTY) + s;
  }

  lemma NameIsField()
    ensures IsField(NAME) && IsField(PATH) && IsField(SHA) && PATH != NAME && PATH != SHA && SHA != NAME
  {
    FieldWords();
  }

  lemma ShoutedFrontWithout(s: string)
    ensures Without(SHOUTED_FRONT, s, PATH) && LineStart(SHOUTED_FRONT, |SHOUTED_FRONT|)
  {
    hide *;
    RustyName();
    NameIsField();
    TopWithout(Line(SHA, "A") + s, PATH);
    LineWithout(SHA, "A", s, PATH);
    WithoutBoth(TOP, Line(SHA, "A"), s, PATH);
    LineEnds(SHA, "A");
    EndsAtBreak(TOP, Line(SHA, "A"));
    ShoutedIs();
  }

  lemma ShoutedIs()
    ensures SHOUTED_FRONT == TOP + Line(SHA, "A") && SHOUTED == SHOUTED_FRONT + (Line(PATH, "p") + ")")
    ensures SHOUTED == TOP + (Line(SHA, "A") + (Line(PATH, "p") + ")"))
    ensures SHOUTED_FRONT + Line(PATH, "p") == TOP + (Line(SHA, "A") + Line(PATH, "p"))
  {
    hide Line;
    var a, b, c := Line(SHA, "A"), Line(PATH, "p"), ")";
    assert TOP + a + (b + c) == TOP + (a + (b + c));
    assert TOP + a + b == TOP + (a + b);
  }

  lemma CloseWithout(field: string)
    requires IsField(field)
    ensures Without(")", "", field)
  {
    assert ")" + "" == ")";
    OtherWord(")", 0, field);
  }

  lemma NoParentheses()
    ensures ')' !in Line(NAME, RUSTY) && ')' !in Line(SHA, "A") && ')' !in Line(PATH, "p")
  {
    NoParenthesisIn(NAME, RUSTY);
    NoParenthesisIn(SHA, "A");
    NoParenthesisIn(PATH, "p");
  }

  lemma NoParenthesisIn(field: string, value: string)
    requires ')' !in field && ')' !in value
    ensures ')' !in Line(field, value)
  {
    assert ')' !in " = \"" && ')' !in "\",\n";
  }

  lemma ShoutedShape()
    ensures BlockShape(SHOUTED)
  {
    hide *;
    var a, b, c := Line(NAME, RUSTY), Line(SHA, "A"), Line(PATH, "p");
    NoParentheses();
    LineEnds(PATH, "p");
    OneBlockShape(a + b + c);
    ShoutedIs();
    TopIs();
    assert HEADER + (a + b + c) + ")" == HEADER + a + b + (c + ")");
  }

  lemma ShoutedReads()
    ensures StringField(SHOUTED, NAME) == Some(RUSTY) && StringField(SHOUTED, PATH) == Some("p")
    ensures FindInsert(SHOUTED, 0).Some? && Upper(SHOUTED) == SHOUTED_FRONT + Line(PATH, "p")
    ensures FindHex(SHOUTED, 0).None? && StringField(Upper(SHOUTED), SHA) == Some("A")
  {
    hide *;
    RustyName();
    NameIsField();
    ShoutedIs();
    NameOfTop(Line(SHA, "A") + (Line(PATH, "p") + ")"));
    ShoutedFrontWithout(Line(PATH, "p") + ")");
    FieldOfLine(SHOUTED_FRONT, PATH, "p", ")");
    InsertBehindLine(SHOUTED_FRONT, "p", ")");
    TopWithout(Line(SHA, "A") + Line(PATH, "p"), SHA);
    FieldOfLine(TOP, SHA, "A", Line(PATH, "p"));
    ShoutedHasNoHex();
  }

  lemma ShoutedHasNoHex()
    ensures FindHex(SHOUTED, 0).None?
  {
    hide *;
    RustyName();
    NameIsField();
    ShoutedIs();
    var rest := Line(PATH, "p") + ")";
    TopWithout(Line(SHA, "A") + rest, SHA);
    CloseWithout(SHA);
    PathRestWithout(")");
    NoHexLine(TOP, "A", rest);
  }

  lemma PathRestWithout(rest: string)
    requires Without(rest, "", SHA)
    ensures Without(Line(PATH, "p") + rest, "", SHA)
  {
    hide *;
    RustyName();
    NameIsField();
    assert rest + "" == rest;
    LineWithout(PATH, "p", rest, SHA);
    LineEnds(PATH, "p");
    EndsAtBreak("", Line(PATH, "p"));
    assert "" + Line(PATH, "p") == Line(PATH, "p");
    WithoutBoth(Line(PATH, "p"), rest, "", SHA);
  }

  lemma ShoutedEntry(c: string)
    requires IsDigest(c)
    ensures GoodManifest(map["p" := c]) && Update(SHOUTED, map["p" := c], VERSION).Ok?
    ensures Entries(Parse(SHOUTED, true), 0, NamePrefix(VERSION)) ==
      Ok([HttpFile(0, |SHOUTED|, SHOUTED, RUSTY, "p", StringField(SHOUTED, SHA))])
  {
    hide *;
    ShoutedShape();
    ShoutedReads();
    RustyName();
    RustyVisible();
    OneUpdate(SHOUTED, RUSTY, "p", VERSION, c);
    OneEntry(SHOUTED, RUSTY, "p", VERSION);
  }

  lemma RustyVisible()
    ensures RUSTY != "" && "p" != ""
  {
  }

  lemma UpperNotReadable(b: string)
    requires FindHex(b, 0).None? && FindInsert(b, 0).Some? && StringField(Upper(b), SHA).Some?
    ensures !ShaReadable(b)
  {
    UpperIs(b);
    hide StringField, FindHex, InsertAfter, InsertionPoint;
  }

  // An upper-case checksum is not replaced but left in front of the new line, so the update returns a text that the
  // check refuses.
  lemma UpperCaseChecksum(c: string)
    requires IsDigest(c)
    ensures Update(SHOUTED, map["p" := c], VERSION).Ok?
    ensures Check(Update(SHOUTED, map["p" := c], VERSION).value, map["p" := c], VERSION).Err?
  {
    hide *;
    ShoutedEntry(c);
    ShoutedReads();
    UpperNotReadable(SHOUTED);
    UpdateEstablishesCheck(SHOUTED, map["p" := c], VERSION);
    NotAllReadable(HttpFile(0, |SHOUTED|, SHOUTED, RUSTY, "p", StringField(SHOUTED, SHA)));
  }

  lemma NotAllReadable(e: HttpFile)
    requires !ShaReadable(e.block)
    ensures !AllReadable([e])
  {
    hide ShaReadable;
    assert e in [e];
  }

  // ---------------------------------------------------------------- a blank line behind the path

  const GAPPED := TOP + (Line(PATH, "p") + "\n)")

  lemma GappedShape()
    ensures BlockShape(GAPPED)
  {
    hide *;
    var a, b := Line(NAME, RUSTY), Line(PATH, "p");
    NoParentheses();
    OneBlockShape(a + b + "\n");
    TopIs();
    GappedIs();
    assert HEADER + (a + b + "\n") + ")" == HEADER + a + (b + "\n)") by { assert "\n)" == "\n" + ")"; }
  }

  lemma GappedReads()
    ensures StringField(GAPPED, NAME) == Some(RUSTY) && StringField(GAPPED, PATH) == Some("p")
    ensures FindInsert(GAPPED, 0).Some? && Upper(GAPPED) == TOP + Line(PATH, "p") && FindHex(GAPPED, 0).None?
  {
    hide *;
    RustyName();
    NameIsField();
    GappedIs();
    NameOfTop(Line(PATH, "p") + "\n)");
    TopWithout(Line(PATH, "p") + "\n)", PATH);
    FieldOfLine(TOP, PATH, "p", "\n)");
    InsertBehindLine(TOP, "p", "\n)");
    TopWithout(Line(PATH, "p") + "\n)", SHA);
    BlankCloseWithout();
    PathRestWithout("\n)");
    assert Line(PATH, "p") + "\n)" + "" == Line(PATH, "p") + "\n)";
    WithoutBoth(TOP, Line(PATH, "p") + "\n)", "", SHA);
    NoShaNoHex(GAPPED);
  }

  lemma GappedIs()
    ensures GAPPED == TOP + (Line(PATH, "p") + "\n)") && GAPPED == TOP + Line(PATH, "p") + "\n)"
  {
    hide Line;
    assert TOP + Line(PATH, "p") + "\n)" == TOP + (Line(PATH, "p") + "\n)");
  }

  lemma BlankCloseWithout()
    ensures Without("\n)", "", SHA)
  {
    assert "\n)" + "" == "\n)";
    OtherWord("\n)", 0, SHA);
    OtherWord("\n)", 1, SHA);
  }

  lemma GappedNotSettled()
    ensures !Settled(GAPPED)
  {
    hide *;
    GappedShape();
    BlockIsClosed(GAPPED);
    GappedReads();
    InsertShape(GAPPED, "");
    GappedIs();
    SameBack(Upper(GAPPED), Back(GAPPED), "\n)");
    BlankBack();
    NotSettled(GAPPED);
  }

  lemma SameBack(front: string, a: string, b: string)
    requires front + a == front + b
    ensures a == b
  {
    assert (front + a)[|front|..] == a;
    assert (front + b)[|front|..] == b;
  }

  lemma BlankBack()
    ensures BlankStart("\n)")
  {
    assert "\n)"[0] == '\n' && AllSpaces("\n)", 0, 0);
  }

  lemma NotSettled(b: string)
    requires Closed(b) && FindHex(b, 0).None? && FindInsert(b, 0).Some? && BlankStart(Back(b))
    ensures !Settled(b)
  {
    hide FindHex, FindInsert, BlankStart, Back, Closed;
  }

  lemma NotAllSettled(e: HttpFile)
    requires !Settled(e.block)
    ensures !AllSettled([e])
  {
    hide Settled;
    assert e in [e];
  }

  lemma GappedEntry(c: string)
    requires IsDigest(c)
    ensures GoodManifest(map["p" := c]) && Update(GAPPED, map["p" := c], VERSION).Ok?
    ensures Entries(Parse(GAPPED, true), 0, NamePrefix(VERSION)) ==
      Ok([HttpFile(0, |GAPPED|, GAPPED, RUSTY, "p", StringField(GAPPED, SHA))])
  {
    hide *;
    GappedShape();
    GappedReads();
    RustyName();
    RustyVisible();
    OneUpdate(GAPPED, RUSTY, "p", VERSION, c);
    OneEntry(GAPPED, RUSTY, "p", VERSION);
  }

  // The match of the checksum line takes in the blank line behind it, so a second update removes that line.
  lemma BlankLineBehindPath(c: string)
    requires IsDigest(c)
    ensures Update(GAPPED, map["p" := c], VERSION).Ok?
    ensures Update(Update(GAPPED, map["p" := c], VERSION).value, map["p" := c], VERSION).Ok?
    ensures Update(Update(GAPPED, map["p" := c], VERSION).value, map["p" := c], VERSION)
      != Update(GAPPED, map["p" := c], VERSION)
  {
    hide *;
    GappedEntry(c);
    GappedNotSettled();
    SecondUpdateChangesNothing(GAPPED, map["p" := c], VERSION);
    NotAllSettled(HttpFile(0, |GAPPED|, GAPPED, RUSTY, "p", StringField(GAPPED, SHA)));
  }
}
