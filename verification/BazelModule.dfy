/** Updating and checking the checksums of MODULE.bazel, and why the one establishes the other. */
module BazelModule {
  import opened Prelude
  import opened BazelFields
  import opened BazelBlock
  import opened BazelUpdate
  import opened BazelDocument
  import opened BazelEntries
  import opened BazelManifest

  // ---------------------------------------------------------------- check

  function Check(text: string, checksums: map<string, string>, version: string): Result<(), ChecksumError> {
    match Entries(Parse(text, true), 0, NamePrefix(version))
    case Err(e) => Err(e)
    case Ok(entries) =>
      var errors := SetErrors(entries, checksums, version) + ChecksumProblems(entries, checksums);
      if errors != [] then Err(Drift(errors)) else Ok(())
  }

  // `check_module_bazel_text`
  method CheckModuleBazelText(text: string, checksums: map<string, string>, version: string)
    returns (r: Result<(), ChecksumError>)
    ensures r == Check(text, checksums, version)
  {
    var found := RustyV8HttpFiles(text, version);
    if found.Err? {
      return Err(found.error);
    }
    var entrySetErrors := ModuleEntrySetErrors(found.value, checksums, version);
    var checksumErrors := ModuleChecksumErrors(found.value, checksums);
    var errors := entrySetErrors + checksumErrors;
    if errors != [] {
      return Err(Drift(errors));
    }
    return Ok(());
  }

  // The entries are there, no path repeats, and the paths are the manifest's files.
  ghost predicate FitsManifest(entries: seq<HttpFile>, checksums: map<string, string>) {
    entries != [] && DistinctPaths(entries) && Paths(entries) == checksums.Keys
  }

  // The check accepts exactly when the entries fit the manifest and each carries its checksum.
  lemma CheckMeaning(text: string, checksums: map<string, string>, version: string)
    ensures Check(text, checksums, version).Ok? <==>
      var found := Entries(Parse(text, true), 0, NamePrefix(version));
      found.Ok? && FitsManifest(found.value, checksums)
      && forall e | e in found.value && e.path in checksums :: e.sha256 == Some(checksums[e.path])
  {
    hide Entries, Parse, NamePrefix, Paths, DistinctPaths, SetErrors, ChecksumProblems;
    var found := Entries(Parse(text, true), 0, NamePrefix(version));
    if found.Ok? {
      SetErrorsMeaning(found.value, checksums, version);
      ChecksumProblemsMeaning(found.value, checksums);
    }
  }

  // ---------------------------------------------------------------- update

  predicate AllNamed(entries: seq<HttpFile>, checksums: map<string, string>) {
    forall e | e in entries :: e.path in checksums
  }

  predicate InOrder(entries: seq<HttpFile>, from: nat, n: nat) {
    if entries == [] then from <= n
    else from <= entries[0].start <= entries[0].end && InOrder(entries[1..], entries[0].end, n)
  }

  lemma {:induction false} InOrderBound(entries: seq<HttpFile>, from: nat, n: nat)
    requires InOrder(entries, from, n)
    ensures from <= n && (entries != [] ==> entries[0].end <= n)
  {
    if entries != [] { InOrderBound(entries[1..], entries[0].end, n); }
  }

  lemma FirstInOrder(entries: seq<HttpFile>, from: nat, n: nat, checksums: map<string, string>)
    requires InOrder(entries, from, n) && AllNamed(entries, checksums)
    ensures from <= n
    ensures entries != [] ==>
      && from <= entries[0].start <= entries[0].end <= n && entries[0].path in checksums
      && InOrder(entries[1..], entries[0].end, n) && AllNamed(entries[1..], checksums)
  {
    InOrderBound(entries, from, n);
    if entries != [] { assert entries[0] in entries; }
  }

  // the text from `from` on, with the block of every entry rewritten
  function Splice(text: string, from: nat, entries: seq<HttpFile>,
                  checksums: map<string, string>): Result<string, ChecksumError>
    requires InOrder(entries, from, |text|) && AllNamed(entries, checksums)
    decreases |entries|
  {
    hide *;
    FirstInOrder(entries, from, |text|, checksums);
    if entries == [] then Ok(text[from..])
    else
      (var w := WithSha(entries[0].block, checksums[entries[0].path]);
      if w.Err? then Err(BlockMissingPath)
      else After(text[from..entries[0].start] + w.value, Splice(text, entries[0].end, entries[1..], checksums)))
  }

  function After(front: string, back: Result<string, ChecksumError>): Result<string, ChecksumError> {
    match back
    case Ok(text) => Ok(front + text)
    case Err(e) => Err(e)
  }

  // The same on the division: every entry's block gets the checksum of its path.
  ghost predicate Covered(d: Document, prefix: string, checksums: map<string, string>) {
    match d
    case Rest(_) => true
    case Next(_, block, rest) =>
      && (IsEntry(block, prefix) ==> HasPath(block) && StringField(block, PATH).value in checksums)
      && Covered(rest, prefix, checksums)
  }

  ghost function Written(d: Document, prefix: string, checksums: map<string, string>): Result<Document, ChecksumError>
    requires Covered(d, prefix, checksums)
  {
    match d
    case Rest(_) => Ok(d)
    case Next(gap, block, rest) =>
      if IsEntry(block, prefix) then
        var w := WithSha(block, checksums[StringField(block, PATH).value]);
        if w.Err? then Err(BlockMissingPath) else AfterBlock(gap, w.value, Written(rest, prefix, checksums))
      else AfterBlock(gap, block, Written(rest, prefix, checksums))
  }

  ghost function AfterBlock(gap: string, block: string,
                            back: Result<Document, ChecksumError>): Result<Document, ChecksumError>
  {
    match back
    case Ok(rest) => Ok(Next(gap, block, rest))
    case Err(e) => Err(e)
  }

  ghost function Rendered(r: Result<Document, ChecksumError>): Result<string, ChecksumError> {
    match r
    case Ok(d) => Ok(Render(d))
    case Err(e) => Err(e)
  }

  lemma CoveredNext(d: Document, at: nat, prefix: string, entries: seq<HttpFile>, checksums: map<string, string>)
    requires d.Next? && Entries(d, at, prefix) == Ok(entries) && AllNamed(entries, checksums)
    ensures var end := at + |d.gap| + |d.block|;
      if IsEntry(d.block, prefix) then
        HasPath(d.block) && entries != [] && entries[0] == EntryOf(d.block, at + |d.gap|)
        && Entries(d.rest, end, prefix) == Ok(entries[1..]) && StringField(d.block, PATH).value in checksums
        && AllNamed(entries[1..], checksums)
      else Entries(d.rest, end, prefix) == Ok(entries)
  {
    hide StringField, HasPath;
    var end := at + |d.gap| + |d.block|;
    if IsEntry(d.block, prefix) {
      var more := Entries(d.rest, end, prefix);
      assert entries == [EntryOf(d.block, at + |d.gap|)] + more.value;
      assert entries[1..] == more.value;
      assert entries[0] in entries;
    }
  }

  lemma {:induction false} EntriesCover(d: Document, at: nat, prefix: string, entries: seq<HttpFile>,
                                        checksums: map<string, string>)
    requires Entries(d, at, prefix) == Ok(entries) && AllNamed(entries, checksums)
    ensures Covered(d, prefix, checksums)
    decreases d
  {
    hide StringField, HasPath, IsEntry, Entries;
    if d.Next? {
      CoveredNext(d, at, prefix, entries, checksums);
      EntriesCover(d.rest, at + |d.gap| + |d.block|, prefix,
        if IsEntry(d.block, prefix) then entries[1..] else entries, checksums);
    }
  }

  // Slicing the text between entries renders the rewritten division.
  lemma {:induction false} SpliceIsWritten(text: string, d: Document, from: nat, at: nat, prefix: string,
                                           entries: seq<HttpFile>, checksums: map<string, string>)
    requires from <= at <= |text| && text[at..] == Render(d)
    requires Entries(d, at, prefix) == Ok(entries) && AllNamed(entries, checksums)
    ensures InOrder(entries, from, |text|) && Covered(d, prefix, checksums)
    ensures Splice(text, from, entries, checksums) == After(text[from..at], Rendered(Written(d, prefix, checksums)))
    decreases d
  {
    EntriesCover(d, at, prefix, entries, checksums);
    if d.Rest? {
      assert text[from..at] + text[at..] == text[from..];
    } else {
      var end := at + |d.gap| + |d.block|;
      CoveredNext(d, at, prefix, entries, checksums);
      BlockAt(text, at, d);
      if IsEntry(d.block, prefix) {
        SpliceIsWritten(text, d.rest, end, end, prefix, entries[1..], checksums);
        SpliceEntry(text, d, from, at, end, prefix, entries, entries[1..], checksums);
      } else {
        SpliceIsWritten(text, d.rest, from, end, prefix, entries, checksums);
        SpliceOther(text, d, from, at, prefix, checksums);
      }
    }
  }

  lemma BlockAt(text: string, at: nat, d: Document)
    requires at <= |text| && text[at..] == Render(d) && d.Next?
    ensures at + |d.gap| + |d.block| <= |text|
    ensures text[at..at + |d.gap|] == d.gap && text[at + |d.gap|..at + |d.gap| + |d.block|] == d.block
    ensures text[at + |d.gap| + |d.block|..] == Render(d.rest)
  {
    NextSpan(text, d, at);
  }

  lemma SpliceEntry(text: string, d: Document, from: nat, at: nat, end: nat, prefix: string, entries: seq<HttpFile>,
                    more: seq<HttpFile>, checksums: map<string, string>)
    requires InOrder(more, end, |text|)
    requires AllNamed(more, checksums)
    requires d.Next? && Covered(d.rest, prefix, checksums)
    requires end <= |text|
    requires Splice(text, end, more, checksums) == After(text[end..end], Rendered(Written(d.rest, prefix, checksums)))
    requires IsEntry(d.block, prefix) && Covered(d, prefix, checksums) && from <= at && at + |d.gap| + |d.block| == end
    requires StringField(d.block, NAME).Some? && HasPath(d.block)
    requires entries != [] && entries[1..] == more && entries[0] == EntryOf(d.block, at + |d.gap|)
      && AllNamed(entries, checksums)
    requires text[at..at + |d.gap|] == d.gap
    ensures InOrder(entries, from, |text|)
    ensures Splice(text, from, entries, checksums) == After(text[from..at], Rendered(Written(d, prefix, checksums)))
  {
    hide *;
    EntryInOrder(entries, from, |text|, at + |d.gap|, end, d);
    SpliceNext(text, from, entries, checksums);
    WrittenNext(d, prefix, checksums);
    var w := WithSha(d.block, checksums[entries[0].path]);
    Glue(text, from, at, at + |d.gap|);
    if w.Ok? {
      AfterWritten(text[from..at], d.gap, w.value, Written(d.rest, prefix, checksums));
      assert text[end..end] == "";
      assert text[from..at + |d.gap|] + w.value == text[from..at] + d.gap + w.value;
    } else {
      AfterError(text[from..at]);
    }
  }

  lemma EntryInOrder(entries: seq<HttpFile>, from: nat, n: nat, start: nat, end: nat, d: Document)
    requires d.Next? && StringField(d.block, NAME).Some? && HasPath(d.block) && end == start + |d.block|
    requires entries != [] && entries[0] == EntryOf(d.block, start) && from <= start && InOrder(entries[1..], end, n)
    ensures InOrder(entries, from, n)
    ensures entries[0].start == start && entries[0].end == end && entries[0].block == d.block
    ensures StringField(d.block, PATH) == Some(entries[0].path)
  {
    hide StringField;
  }

  lemma SpliceNext(text: string, from: nat, entries: seq<HttpFile>, checksums: map<string, string>)
    requires InOrder(entries, from, |text|) && AllNamed(entries, checksums) && entries != []
    ensures from <= entries[0].start <= entries[0].end <= |text| && entries[0].path in checksums
    ensures InOrder(entries[1..], entries[0].end, |text|) && AllNamed(entries[1..], checksums)
    ensures Splice(text, from, entries, checksums) ==
      (var w := WithSha(entries[0].block, checksums[entries[0].path]);
      if w.Err? then Err(BlockMissingPath)
      else After(text[from..entries[0].start] + w.value, Splice(text, entries[0].end, entries[1..], checksums)))
  {
    FirstInOrder(entries, from, |text|, checksums);
    hide InOrder, AllNamed, WithSha, After;
  }

  lemma WrittenNext(d: Document, prefix: string, checksums: map<string, string>)
    requires d.Next? && Covered(d, prefix, checksums)
    ensures Covered(d.rest, prefix, checksums)
    ensures IsEntry(d.block, prefix) ==>
      HasPath(d.block) && StringField(d.block, PATH).Some? && StringField(d.block, PATH).value in checksums
    ensures Written(d, prefix, checksums) ==
      if IsEntry(d.block, prefix) then
        (var w := WithSha(d.block, checksums[StringField(d.block, PATH).value]);
        if w.Err? then Err(BlockMissingPath) else AfterBlock(d.gap, w.value, Written(d.rest, prefix, checksums)))
      else AfterBlock(d.gap, d.block, Written(d.rest, prefix, checksums))
  {
    hide StringField, IsEntry, WithSha, AfterBlock;
  }

  lemma AfterWritten(front: string, gap: string, block: string, r: Result<Document, ChecksumError>)
    ensures After(front, Rendered(AfterBlock(gap, block, r))) == After(front + gap + block, After("", Rendered(r)))
  {
    if r.Ok? {
      var x := Render(r.value);
      assert front + (gap + block + x) == front + gap + block + ("" + x);
    }
  }

  lemma AfterError(front: string)
    ensures After(front, Rendered(Err(BlockMissingPath))) == Err(BlockMissingPath)
  {
  }

  lemma Glue(text: string, i: nat, j: nat, k: nat)
    requires i <= j <= k <= |text|
    ensures text[i..k] == text[i..j] + text[j..k]
  {
  }

  lemma SpliceOther(text: string, d: Document, from: nat, at: nat, prefix: string, checksums: map<string, string>)
    requires d.Next? && !IsEntry(d.block, prefix) && Covered(d, prefix, checksums) && from <= at
      && at + |d.gap| + |d.block| <= |text|
    requires text[at..at + |d.gap|] == d.gap && text[at + |d.gap|..at + |d.gap| + |d.block|] == d.block
    ensures After(text[from..at + |d.gap| + |d.block|], Rendered(Written(d.rest, prefix, checksums)))
      == After(text[from..at], Rendered(Written(d, prefix, checksums)))
  {
    hide StringField, IsEntry, HasPath, WithSha;
    var back := Written(d.rest, prefix, checksums);
    Glue(text, from, at, at + |d.gap| + |d.block|);
    Glue(text, at, at + |d.gap|, at + |d.gap| + |d.block|);
    if back.Ok? {
      assert text[from..at] + (d.gap + d.block) + Render(back.value) ==
        text[from..at] + (d.gap + d.block + Render(back.value));
    }
  }

  ghost function Update(text: string, checksums: map<string, string>, version: string): Result<string, ChecksumError> {
    var d, prefix := Parse(text, true), NamePrefix(version);
    match Entries(d, 0, prefix)
    case Err(e) => Err(e)
    case Ok(entries) =>
      var errors := SetErrors(entries, checksums, version);
      if errors != [] then Err(CannotUpdate(errors))
      else
        SetErrorsMeaning(entries, checksums, version);
        PathsNamed(entries, checksums);
        EntriesCover(d, 0, prefix, entries, checksums);
        Rendered(Written(d, prefix, checksums))
  }

  lemma PathsNamed(entries: seq<HttpFile>, checksums: map<string, string>)
    requires Paths(entries) == checksums.Keys
    ensures AllNamed(entries, checksums)
  {
    forall e | e in entries ensures e.path in checksums { assert e.path in Paths(entries); }
  }

  // "".join
  function Join(parts: seq<string>): string {
    if parts == [] then "" else Join(parts[..|parts| - 1]) + parts[|parts| - 1]
  }

  lemma JoinNext(parts: seq<string>, s: string)
    ensures Join(parts + [s]) == Join(parts) + s
  {
    assert (parts + [s])[..|parts|] == parts;
  }

  // `update_module_bazel_text`
  method UpdateModuleBazelText(text: string, checksums: map<string, string>, version: string)
    returns (r: Result<string, ChecksumError>)
    ensures r == Update(text, checksums, version)
  {
    var found := RustyV8HttpFiles(text, version);
    if found.Err? {
      return Err(found.error);
    }
    var entries := found.value;
    var errors := ModuleEntrySetErrors(entries, checksums, version);
    if errors != [] {
      return Err(CannotUpdate(errors));
    }
    UpdateIsSplice(text, checksums, version, entries);
    hide *;
    r := SpliceEntries(text, entries, checksums);
  }

  lemma UpdateIsSplice(text: string, checksums: map<string, string>, version: string, entries: seq<HttpFile>)
    requires Entries(Parse(text, true), 0, NamePrefix(version)) == Ok(entries)
      && SetErrors(entries, checksums, version) == []
    ensures AllNamed(entries, checksums) && InOrder(entries, 0, |text|)
    ensures Update(text, checksums, version) == Splice(text, 0, entries, checksums)
  {
    SetErrorsMeaning(entries, checksums, version);
    PathsNamed(entries, checksums);
    RenderParse(text, true);
    hide Parse, Entries, NamePrefix, SetErrors, Splice, Written, InOrder, AllNamed, Covered, Paths;
    assert text[0..] == text && text[0..0] == "";
    SpliceIsWritten(text, Parse(text, true), 0, 0, NamePrefix(version), entries, checksums);
    var written := Rendered(Written(Parse(text, true), NamePrefix(version), checksums));
    assert written.Ok? ==> "" + written.value == written.value;
  }

  lemma {:induction false} SpliceOk(text: string, from: nat, entries: seq<HttpFile>, checksums: map<string, string>)
    requires InOrder(entries, from, |text|) && AllNamed(entries, checksums)
    ensures Splice(text, from, entries, checksums).Ok? <==>
      forall e | e in entries :: WithSha(e.block, checksums[e.path]).Ok?
    decreases |entries|
  {
    hide WithSha, InOrder, AllNamed;
    if entries != [] {
      SpliceNext(text, from, entries, checksums);
      SpliceOk(text, entries[0].end, entries[1..], checksums);
      hide Splice;
      assert entries == [entries[0]] + entries[1..];
      assert entries[0] in entries;
    }
  }

  // The update returns exactly when the entries fit the manifest and each block can be rewritten.
  lemma UpdateMeaning(text: string, checksums: map<string, string>, version: string)
    ensures Update(text, checksums, version).Ok? <==>
      var found := Entries(Parse(text, true), 0, NamePrefix(version));
      found.Ok? && FitsManifest(found.value, checksums)
      && forall e | e in found.value && e.path in checksums :: WithSha(e.block, checksums[e.path]).Ok?
  {
    var found := Entries(Parse(text, true), 0, NamePrefix(version));
    if found.Ok? {
      SetErrorsMeaning(found.value, checksums, version);
      if SetErrors(found.value, checksums, version) == [] {
        UpdateIsSplice(text, checksums, version, found.value);
        hide WithSha, InOrder, Splice, Update, Entries, Parse, NamePrefix, SetErrors, Paths, DistinctPaths;
        SpliceOk(text, 0, found.value, checksums);
      } else {
        UpdateRefuses(text, checksums, version);
      }
    } else {
      UpdateRefuses(text, checksums, version);
    }
  }

  lemma UpdateRefuses(text: string, checksums: map<string, string>, version: string)
    requires var found := Entries(Parse(text, true), 0, NamePrefix(version));
      found.Err? || SetErrors(found.value, checksums, version) != []
    ensures Update(text, checksums, version).Err?
  {
    hide Entries, Parse, NamePrefix, SetErrors, Written, Rendered;
  }

  // the loop over the entries, with `previous_end`
  method SpliceEntries(text: string, entries: seq<HttpFile>, checksums: map<string, string>)
    returns (r: Result<string, ChecksumError>)
    requires InOrder(entries, 0, |text|) && AllNamed(entries, checksums)
    ensures r == Splice(text, 0, entries, checksums)
  {
    hide WithSha, InOrder, AllNamed;
    var updated: seq<string> := [];
    var previousEnd: nat := 0;
    ghost var whole := Splice(text, 0, entries, checksums);
    AfterNone(whole);
    assert entries[0..] == entries;
    for i := 0 to |entries|
      invariant InOrder(entries[i..], previousEnd, |text|) && AllNamed(entries[i..], checksums)
      invariant whole == After(Join(updated), Splice(text, previousEnd, entries[i..], checksums))
    {
      var entry := entries[i];
      SpliceNext(text, previousEnd, entries[i..], checksums);
      assert entries[i..][0] == entry && entries[i..][1..] == entries[i + 1..];
      ghost var front := Join(updated);
      var between := text[previousEnd..entry.start];
      JoinNext(updated, between);
      updated := updated + [between];
      var block := WithSha(entry.block, checksums[entry.path]);
      if block.Err? {
        return Err(BlockMissingPath);
      }
      JoinNext(updated, block.value);
      updated := updated + [block.value];
      AfterTwice(front, between, block.value, Splice(text, entry.end, entries[i + 1..], checksums));
      previousEnd := entry.end;
    }
    InOrderBound(entries[|entries|..], previousEnd, |text|);
    JoinNext(updated, text[previousEnd..]);
    updated := updated + [text[previousEnd..]];
    r := Ok(Join(updated));
  }

  lemma AfterNone(r: Result<string, ChecksumError>)
    ensures After("", r) == r
  {
    if r.Ok? { assert "" + r.value == r.value; }
  }

  lemma AfterTwice(a: string, b: string, c: string, r: Result<string, ChecksumError>)
    ensures After(a, After(b + c, r)) == After(a + b + c, r)
  {
    if r.Ok? { assert a + (b + c + r.value) == a + b + c + r.value; }
  }
}
