/** Blocks as the repository writes them meet every condition of the update. */
module BazelTidy {
  import opened Prelude
  import opened BazelFields
  import opened BazelBlock
  import opened BazelUpdate
  import opened BazelDocument
  import opened BazelEntries
  import opened BazelManifest
  import opened BazelModule
  import opened BazelGuarantee

  predicate NoBlankLine(b: string) {
    forall n | 0 <= n < |b| && b[n] == '\n' :: !FirstOnLine(b, n)
  }

  // No blank line, and the first sha256 field, if any, in lower-case hexadecimal digits.
  predicate Tidy(b: string) {
    && NoBlankLine(b)
    && (FindField(b, SHA, 0).Some? ==> HexAt(b, FindField(b, SHA, 0).value))
  }

  lemma TidyReadable(b: string, c: string)
    requires Closed(b) && WithSha(b, c).Ok? && (FindField(b, SHA, 0).Some? ==> HexAt(b, FindField(b, SHA, 0).value))
    ensures ShaReadable(b)
  {
    UpdatedBlock(b, c);
    if FindHex(b, 0).Some? {
      HexIsFirst(b);
    } else {
      hide *;
      NoHexNoField(b);
      UpperFacts(b);
      var at := InsertionPoint(b, FindInsert(b, 0).value);
      if StringField(Upper(b), SHA).Some? { FieldInWhole(Upper(b), b[at..], SHA); }
      ReadableInsert(b);
    }
  }

  lemma HexIsFirst(b: string)
    requires FindHex(b, 0).Some? && (FindField(b, SHA, 0).Some? ==> HexAt(b, FindField(b, SHA, 0).value))
    ensures FindField(b, SHA, 0) == FindHex(b, 0)
  {
  }

  lemma NoHexNoField(b: string)
    requires FindHex(b, 0).None? && (FindField(b, SHA, 0).Some? ==> HexAt(b, FindField(b, SHA, 0).value))
    ensures FindField(b, SHA, 0).None?
  {
  }

  lemma FieldInWhole(p: string, x: string, field: string)
    requires EndsFresh(p) && StringField(p, field).Some?
    ensures FindField(p + x, field, 0).Some?
  {
    var j := FindField(p, field, 0).value;
    MatchPrefix(p, x, j, field);
  }

  lemma ReadableInsert(b: string)
    requires FindHex(b, 0).None? && FindInsert(b, 0).Some? && StringField(Upper(b), SHA).None?
    ensures ShaReadable(b)
  {
    hide StringField, FindHex, InsertAfter;
  }

  lemma TidySettled(b: string, c: string)
    requires Closed(b) && WithSha(b, c).Ok? && NoBlankLine(b)
    ensures Settled(b)
  {
    UpdatedBlock(b, c);
    if FindHex(b, 0).None? {
      InsertShape(b, c);
      UpperFacts(b);
      hide FindHex, FindInsert, WithSha, ShaText, Front, Upper, Closed, InsertAfter;
      if BlankStart(Back(b)) { BlankLineBehind(Upper(b), Back(b)); }
    }
  }

  lemma BlankLineBehind(p: string, s: string)
    requires LineStart(p, |p|) && BlankStart(s)
    ensures !NoBlankLine(p + s)
  {
    var b := p + s;
    var n :| 0 <= n < |s| && s[n] == '\n' && AllSpaces(s, 0, n);
    assert b[|p| + n] == '\n';
    assert LineStart(b, |p|) && AllSpaces(b, |p|, |p| + n) by {
      assert forall k | |p| <= k < |p| + n :: b[k] == s[k - |p|];
    }
    assert FirstOnLine(b, |p| + n);
  }

  lemma TidyBlock(b: string, c: string)
    requires Closed(b) && WithSha(b, c).Ok? && Tidy(b)
    ensures ShaReadable(b) && Settled(b)
  {
    hide ShaReadable, Settled, Closed, WithSha, NoBlankLine, HexAt;
    TidyReadable(b, c);
    TidySettled(b, c);
  }

  ghost predicate AllTidy(entries: seq<HttpFile>) {
    forall e | e in entries :: Tidy(e.block)
  }

  lemma {:induction false} TidyEntries(d: Document, begins: bool, at: nat, prefix: string,
                                       checksums: map<string, string>)
    requires Shaped(d, begins) && Covered(d, prefix, checksums) && Written(d, prefix, checksums).Ok?
    requires Entries(d, at, prefix).Ok?
    ensures forall e | e in Entries(d, at, prefix).value :: Closed(e.block) && exists c :: WithSha(e.block, c).Ok?
    decreases d
  {
    hide *;
    if d.Rest? {
      NoEntriesAtEnd(d, at, prefix);
    } else {
      ShapedParts(d, begins);
      BlockIsClosed(d.block);
      WrittenNext(d, prefix, checksums);
      EntriesStep(d, at, prefix);
      RestWritten(d, prefix, checksums);
      TidyEntries(d.rest, EndsLine(d.block), at + |d.gap| + |d.block|, prefix, checksums);
      if IsEntry(d.block, prefix) {
        EntryBlock(EntryOf(d.block, at + |d.gap|), d.block, at + |d.gap|);
        assert WithSha(d.block, checksums[StringField(d.block, PATH).value]).Ok?;
      }
    }
  }

  lemma NoEntriesAtEnd(d: Document, at: nat, prefix: string)
    requires d.Rest?
    ensures Entries(d, at, prefix) == Ok([])
  {
  }

  lemma RestWritten(d: Document, prefix: string, checksums: map<string, string>)
    requires d.Next? && Covered(d, prefix, checksums) && Written(d, prefix, checksums).Ok?
    ensures Covered(d.rest, prefix, checksums) && Written(d.rest, prefix, checksums).Ok?
    ensures IsEntry(d.block, prefix) ==>
      HasPath(d.block) && StringField(d.block, PATH).Some? && StringField(d.block, PATH).value in checksums
      && WithSha(d.block, checksums[StringField(d.block, PATH).value]).Ok?
  {
    hide StringField, WithSha, IsEntry;
  }

  // On tidy entries the update establishes the check, and a second update changes nothing.
  lemma TidyUpdate(text: string, checksums: map<string, string>, version: string)
    requires GoodManifest(checksums) && Update(text, checksums, version).Ok?
    requires Entries(Parse(text, true), 0, NamePrefix(version)).Ok?
      && AllTidy(Entries(Parse(text, true), 0, NamePrefix(version)).value)
    ensures Check(Update(text, checksums, version).value, checksums, version).Ok?
    ensures Update(Update(text, checksums, version).value, checksums, version) == Update(text, checksums, version)
  {
    hide *;
    var d, prefix := Parse(text, true), NamePrefix(version);
    UpdateWrites(text, checksums, version);
    ParseShaped(text, true);
    TidyEntries(d, true, 0, prefix, checksums);
    AllFromTidy(Entries(d, 0, prefix).value);
    UpdateEstablishesCheck(text, checksums, version);
    SecondUpdateChangesNothing(text, checksums, version);
  }

  lemma AllFromTidy(entries: seq<HttpFile>)
    requires AllTidy(entries) && forall e | e in entries :: Closed(e.block) && exists c :: WithSha(e.block, c).Ok?
    ensures AllReadable(entries) && AllSettled(entries)
  {
    hide Tidy, ShaReadable, Settled, Closed, WithSha;
    forall e | e in entries ensures ShaReadable(e.block) && Settled(e.block) {
      var c :| WithSha(e.block, c).Ok?;
      TidyBlock(e.block, c);
    }
  }
}
