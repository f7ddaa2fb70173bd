/** The rusty_v8 entries of MODULE.bazel, and the two lists of complaints about them. */
module BazelEntries {
  import opened Prelude
  import opened Ordering
  import opened BazelFields
  import opened BazelBlock
  import opened BazelDocument

  datatype HttpFile = HttpFile(start: nat, end: nat, block: string, name: string, path: string, sha256: Option<string>)

  datatype Problem =
    | NoEntries(version: string)
    | DuplicateEntries(filename: string)
    | NoChecksum(name: string)
    | NoHttpFile(filename: string)
    | MissingSha(name: string)
    | WrongSha(name: string, found: string, expected: string)

  datatype ChecksumError =
    | EntryMissingPath(name: string)
    | CannotUpdate(problems: seq<Problem>)
    | Drift(problems: seq<Problem>)
    | BlockMissingPath

  // version.replace(".", "_")
  function Slug(version: string): string {
    if version == "" then "" else [if version[0] == '.' then '_' else version[0]] + Slug(version[1..])
  }

  function NamePrefix(version: string): string {
    "rusty_v8_" + Slug(version) + "_"
  }

  predicate IsEntry(block: string, prefix: string) {
    var name := StringField(block, NAME);
    name.Some? && name.value != "" && prefix <= name.value
  }

  predicate PlainPrefix(prefix: string) {
    prefix != "" && prefix[0] != ','
  }

  lemma NamePrefixPlain(version: string)
    ensures PlainPrefix(NamePrefix(version))
  {
    assert NamePrefix(version)[0] == "rusty_v8_"[0];
  }

  lemma EntryPlain(block: string, prefix: string)
    requires IsEntry(block, prefix) && PlainPrefix(prefix)
    ensures PlainName(block)
  {
    hide StringField;
    assert StringField(block, NAME).value[0] == prefix[0];
  }

  predicate HasPath(block: string) {
    StringField(block, PATH).Some? && StringField(block, PATH).value != ""
  }

  function EntryOf(block: string, start: nat): HttpFile
    requires StringField(block, NAME).Some? && HasPath(block)
  {
    HttpFile(start, start + |block|, block, StringField(block, NAME).value, StringField(block, PATH).value,
      StringField(block, SHA))
  }

  // where finditer reports its matches, for a text divided as d from offset `at` on
  function Spans(d: Document, at: nat): seq<(nat, nat)> {
    match d
    case Rest(_) => []
    case Next(gap, block, rest) =>
      var end := at + |gap| + |block|;
      [(at + |gap|, end)] + Spans(rest, end)
  }

  function Entries(d: Document, at: nat, prefix: string): Result<seq<HttpFile>, ChecksumError> {
    match d
    case Rest(_) => Ok([])
    case Next(gap, block, rest) =>
      var end := at + |gap| + |block|;
      if !IsEntry(block, prefix) then Entries(rest, end, prefix)
      else if !HasPath(block) then Err(EntryMissingPath(StringField(block, NAME).value))
      else AfterEntries([EntryOf(block, at + |gap|)], Entries(rest, end, prefix))
  }

  function AfterEntries(first: seq<HttpFile>,
                        more: Result<seq<HttpFile>, ChecksumError>): Result<seq<HttpFile>, ChecksumError>
  {
    match more
    case Ok(entries) => Ok(first + entries)
    case Err(e) => Err(e)
  }

  // `rusty_v8_http_files`
  method RustyV8HttpFiles(text: string, version: string) returns (r: Result<seq<HttpFile>, ChecksumError>)
    ensures r == Entries(Parse(text, true), 0, NamePrefix(version))
  {
    var prefix := NamePrefix(version);
    hide *;
    var division := Parse(text, true);
    var matches := Spans(division, 0);
    ghost var whole := Entries(division, 0, prefix);
    var entries: seq<HttpFile> := [];
    ghost var d, at: nat := division, 0;
    RenderParse(text, true);
    AfterNothing(whole);
    assert text[0..] == text;
    while matches != []
      invariant at <= |text| && text[at..] == Render(d) && matches == Spans(d, at)
      invariant whole == AfterEntries(entries, Entries(d, at, prefix))
      decreases |matches|
    {
      NextSpan(text, d, at);
      var (start, end) := matches[0];
      matches := matches[1..];
      var block := text[start..end];
      assert block == d.block;
      EntriesNext(d, at, prefix, entries);
      d, at := d.rest, end;
      if !IsEntry(block, prefix) {
        continue;
      }
      if !HasPath(block) {
        return Err(EntryMissingPath(StringField(block, NAME).value));
      }
      entries := entries + [EntryOf(block, start)];
    }
    EntriesDone(d, at, prefix, entries);
    return Ok(entries);
  }

  // What the next block does to the entries collected so far.
  lemma EntriesNext(d: Document, at: nat, prefix: string, first: seq<HttpFile>)
    requires d.Next?
    ensures IsEntry(d.block, prefix) ==> StringField(d.block, NAME).Some?
    ensures AfterEntries(first, Entries(d, at, prefix)) ==
      (var end := at + |d.gap| + |d.block|;
      if !IsEntry(d.block, prefix) then AfterEntries(first, Entries(d.rest, end, prefix))
      else if !HasPath(d.block) then Err(EntryMissingPath(StringField(d.block, NAME).value))
      else AfterEntries(first + [EntryOf(d.block, at + |d.gap|)], Entries(d.rest, end, prefix)))
  {
    hide StringField, HasPath, EntryOf, AfterEntries;
    if IsEntry(d.block, prefix) && !HasPath(d.block) {
      AfterError(first, EntryMissingPath(StringField(d.block, NAME).value));
    }
    if IsEntry(d.block, prefix) && HasPath(d.block) {
      AfterEntriesTwice(first, [EntryOf(d.block, at + |d.gap|)], Entries(d.rest, at + |d.gap| + |d.block|, prefix));
    }
  }

  lemma AfterError(first: seq<HttpFile>, e: ChecksumError)
    ensures AfterEntries(first, Err(e)) == Err(e)
  {
  }

  lemma EntriesDone(d: Document, at: nat, prefix: string, first: seq<HttpFile>)
    requires Spans(d, at) == []
    ensures AfterEntries(first, Entries(d, at, prefix)) == Ok(first)
  {
    assert d.Rest?;
    assert first + [] == first;
  }

  lemma AfterNothing(r: Result<seq<HttpFile>, ChecksumError>)
    ensures AfterEntries([], r) == r
  {
    if r.Ok? { assert [] + r.value == r.value; }
  }

  lemma AfterEntriesTwice(a: seq<HttpFile>, b: seq<HttpFile>, r: Result<seq<HttpFile>, ChecksumError>)
    ensures AfterEntries(a, AfterEntries(b, r)) == AfterEntries(a + b, r)
  {
    if r.Ok? { assert a + (b + r.value) == a + b + r.value; }
  }

  lemma NextSpan(text: string, d: Document, at: nat)
    requires at <= |text| && text[at..] == Render(d) && Spans(d, at) != []
    ensures d.Next? && Spans(d, at)[0] == (at + |d.gap|, at + |d.gap| + |d.block|)
    ensures Spans(d, at)[1..] == Spans(d.rest, at + |d.gap| + |d.block|)
    ensures at + |d.gap| + |d.block| <= |text|
    ensures text[at..at + |d.gap|] == d.gap && text[at + |d.gap|..at + |d.gap| + |d.block|] == d.block
    ensures text[at + |d.gap| + |d.block|..] == Render(d.rest)
  {
    var t, x := text[at..], Render(d.rest);
    assert t == d.gap + d.block + x;
    CutThree(d.gap, d.block, x);
    assert text[at..at + |d.gap|] == t[..|d.gap|];
    assert text[at + |d.gap|..at + |d.gap| + |d.block|] == t[|d.gap|..|d.gap| + |d.block|];
    assert text[at + |d.gap| + |d.block|..] == t[|d.gap| + |d.block|..];
  }

  // ---------------------------------------------------------------- the set of entries against the manifest

  function Paths(entries: seq<HttpFile>): set<string> {
    set e | e in entries :: e.path
  }

  // paths that more than one entry carries
  function Duplicates(entries: seq<HttpFile>): set<string> {
    if entries == [] then {}
    else
      var init, last := entries[..|entries| - 1], entries[|entries| - 1];
      Duplicates(init) + (if last.path in Paths(init) then {last.path} else {})
  }

  // the last entry that carries the path
  function LastFor(entries: seq<HttpFile>, path: string): (e: HttpFile)
    requires path in Paths(entries)
    ensures e in entries && e.path == path
  {
    var last := entries[|entries| - 1];
    if last.path == path then last
    else
      assert path in Paths(entries[..|entries| - 1]) by {
        var e :| e in entries && e.path == path;
        assert e in entries[..|entries| - 1];
      }
      LastFor(entries[..|entries| - 1], path)
  }

  function DuplicateProblems(filenames: seq<string>): (r: seq<Problem>)
    ensures |r| == |filenames|
  {
    if filenames == [] then []
    else DuplicateProblems(filenames[..|filenames| - 1]) + [DuplicateEntries(filenames[|filenames| - 1])]
  }

  function UncheckedProblems(entries: seq<HttpFile>, filenames: seq<string>): (r: seq<Problem>)
    requires forall f | f in filenames :: f in Paths(entries)
    ensures |r| == |filenames|
  {
    if filenames == [] then []
    else
      UncheckedProblems(entries, filenames[..|filenames| - 1])
      + [NoChecksum(LastFor(entries, filenames[|filenames| - 1]).name)]
  }

  function UnusedProblems(filenames: seq<string>): (r: seq<Problem>)
    ensures |r| == |filenames|
  {
    if filenames == [] then []
    else UnusedProblems(filenames[..|filenames| - 1]) + [NoHttpFile(filenames[|filenames| - 1])]
  }

  function SetErrors(entries: seq<HttpFile>, checksums: map<string, string>, version: string): seq<Problem> {
    if entries == [] then [NoEntries(version)]
    else
      SortedStringsSorted(Paths(entries) - checksums.Keys);
      DuplicateProblems(SortedStrings(Duplicates(entries)))
      + UncheckedProblems(entries, SortedStrings(Paths(entries) - checksums.Keys))
      + UnusedProblems(SortedStrings(checksums.Keys - Paths(entries)))
  }

  // `module_entry_set_errors`
  method ModuleEntrySetErrors(entries: seq<HttpFile>, checksums: map<string, string>, version: string)
    returns (errors: seq<Problem>)
    ensures errors == SetErrors(entries, checksums, version)
  {
    SetErrorsIs(entries, checksums, version);
    hide SetErrors, SortedStrings, Paths, Duplicates, LastFor;
    errors := [];
    if entries == [] {
      return [NoEntries(version)];
    }
    var files, duplicates := CollectFiles(entries);
    var repeated := SortedStrings(duplicates);
    for i := 0 to |repeated|
      invariant errors == DuplicateProblems(repeated[..i])
    {
      assert repeated[..i + 1][..i] == repeated[..i];
      errors := errors + [DuplicateEntries(repeated[i])];
    }
    assert repeated[..|repeated|] == repeated;
    var unchecked := SortedStrings(files.Keys - checksums.Keys);
    errors := AppendUnchecked(errors, entries, files, unchecked);
    ghost var second := errors;
    var unused := SortedStrings(checksums.Keys - files.Keys);
    for i := 0 to |unused|
      invariant errors == second + UnusedProblems(unused[..i])
    {
      assert unused[..i + 1][..i] == unused[..i];
      errors := errors + [NoHttpFile(unused[i])];
    }
    assert unused[..|unused|] == unused;
  }

  // The loop over the entries: each path's last entry, and the paths seen more than once.
  method CollectFiles(entries: seq<HttpFile>) returns (files: map<string, HttpFile>, duplicates: set<string>)
    ensures files.Keys == Paths(entries) && duplicates == Duplicates(entries)
    ensures forall f | f in files :: files[f] == LastFor(entries, f)
  {
    hide Paths, Duplicates, LastFor;
    files, duplicates := map[], {};
    NothingSeen();
    for i := 0 to |entries|
      invariant files.Keys == Paths(entries[..i]) && duplicates == Duplicates(entries[..i])
      invariant forall f | f in files :: files[f] == LastFor(entries[..i], f)
    {
      var entry := entries[i];
      if entry.path in files {
        duplicates := duplicates + {entry.path};
      }
      files := files[entry.path := entry];
      PathsNext(entries, i);
      DuplicatesNext(entries, i);
      forall f | f in files ensures files[f] == LastFor(entries[..i + 1], f) { LastForNext(entries, i, f); }
    }
    assert entries[..|entries|] == entries;
  }

  // The loop over entries without a checksum.
  method AppendUnchecked(first: seq<Problem>, entries: seq<HttpFile>, files: map<string, HttpFile>,
                         unchecked: seq<string>)
    returns (errors: seq<Problem>)
    requires files.Keys == Paths(entries) && (forall f | f in files :: files[f] == LastFor(entries, f))
    requires forall f | f in unchecked :: f in files
    ensures errors == first + UncheckedProblems(entries, unchecked)
  {
    hide Paths, LastFor;
    errors := first;
    for i := 0 to |unchecked|
      invariant errors == first + UncheckedProblems(entries, unchecked[..i])
    {
      assert unchecked[..i + 1][..i] == unchecked[..i];
      assert unchecked[i] in unchecked;
      errors := errors + [NoChecksum(files[unchecked[i]].name)];
    }
    assert unchecked[..|unchecked|] == unchecked;
  }

  lemma SetErrorsIs(entries: seq<HttpFile>, checksums: map<string, string>, version: string)
    ensures forall f | f in SortedStrings(Paths(entries) - checksums.Keys) :: f in Paths(entries)
    ensures SetErrors(entries, checksums, version) ==
      if entries == [] then [NoEntries(version)]
      else
        DuplicateProblems(SortedStrings(Duplicates(entries)))
        + UncheckedProblems(entries, SortedStrings(Paths(entries) - checksums.Keys))
        + UnusedProblems(SortedStrings(checksums.Keys - Paths(entries)))
  {
    SortedStringsSorted(Paths(entries) - checksums.Keys);
    hide SortedStrings, Paths, Duplicates, UncheckedProblems, UnusedProblems, DuplicateProblems;
  }

  lemma NothingSeen()
    ensures Paths([]) == {} && Duplicates([]) == {}
  {
  }

  lemma DuplicatesNext(entries: seq<HttpFile>, i: nat)
    requires i < |entries|
    ensures Duplicates(entries[..i + 1]) ==
      Duplicates(entries[..i]) + (if entries[i].path in Paths(entries[..i]) then {entries[i].path} else {})
  {
    assert entries[..i + 1][..i] == entries[..i];
  }

  lemma LastForNext(entries: seq<HttpFile>, i: nat, f: string)
    requires i < |entries| && (f == entries[i].path || f in Paths(entries[..i]))
    ensures f in Paths(entries[..i + 1])
    ensures LastFor(entries[..i + 1], f) == if f == entries[i].path then entries[i] else LastFor(entries[..i], f)
  {
    PathsNext(entries, i);
    assert entries[..i + 1][..i] == entries[..i];
  }

  lemma PathsNext(entries: seq<HttpFile>, i: nat)
    requires i < |entries|
    ensures Paths(entries[..i + 1]) == Paths(entries[..i]) + {entries[i].path}
  {
    var next := entries[..i + 1];
    assert next == entries[..i] + [entries[i]];
    forall p ensures p in Paths(next) <==> p in Paths(entries[..i]) + {entries[i].path} {
      if p in Paths(next) {
        var e :| e in next && e.path == p;
      }
      if p == entries[i].path { assert entries[i] in next; }
    }
  }

  predicate DistinctPaths(entries: seq<HttpFile>) {
    forall i, j | 0 <= i < j < |entries| :: entries[i].path != entries[j].path
  }

  lemma {:induction false} DuplicatesMeaning(entries: seq<HttpFile>)
    ensures Duplicates(entries) == {} <==> DistinctPaths(entries)
  {
    if entries != [] {
      var init, last := entries[..|entries| - 1], entries[|entries| - 1];
      DuplicatesMeaning(init);
      if last.path in Paths(init) {
        var e :| e in init && e.path == last.path;
        var i :| 0 <= i < |init| && init[i] == e;
        assert entries[i].path == entries[|entries| - 1].path;
      } else {
        forall i | 0 <= i < |init| ensures entries[i].path != last.path { assert entries[i] in init; }
      }
      if DistinctPaths(entries) { assert DistinctPaths(init); }
    }
  }

  // No complaint exactly when there are entries, no path repeats, and the paths are the manifest's files.
  lemma SetErrorsMeaning(entries: seq<HttpFile>, checksums: map<string, string>, version: string)
    ensures SetErrors(entries, checksums, version) == [] <==>
      entries != [] && DistinctPaths(entries) && Paths(entries) == checksums.Keys
  {
    if entries != [] {
      DuplicatesMeaning(entries);
      EmptySorted(Duplicates(entries));
      EmptySorted(Paths(entries) - checksums.Keys);
      EmptySorted(checksums.Keys - Paths(entries));
      SortedStringsSorted(Paths(entries) - checksums.Keys);
    }
  }

  lemma EmptySorted(s: set<string>)
    ensures SortedStrings(s) == [] <==> s == {}
  {
    SortedStringsSorted(s);
    if s != {} {
      var x :| x in s;
      assert x in SortedStrings(s);
    }
    assert SortedStrings(s) != [] ==> SortedStrings(s)[0] in SortedStrings(s);
  }

  // ---------------------------------------------------------------- the checksums against the manifest

  function EntryProblem(e: HttpFile, checksums: map<string, string>): seq<Problem> {
    if e.path !in checksums then []
    else if e.sha256.None? then [MissingSha(e.name)]
    else if e.sha256.value != checksums[e.path] then [WrongSha(e.name, e.sha256.value, checksums[e.path])]
    else []
  }

  function ChecksumProblems(entries: seq<HttpFile>, checksums: map<string, string>): seq<Problem> {
    if entries == [] then []
    else ChecksumProblems(entries[..|entries| - 1], checksums) + EntryProblem(entries[|entries| - 1], checksums)
  }

  // `module_checksum_errors`
  method ModuleChecksumErrors(entries: seq<HttpFile>, checksums: map<string, string>) returns (errors: seq<Problem>)
    ensures errors == ChecksumProblems(entries, checksums)
  {
    errors := [];
    for i := 0 to |entries|
      invariant errors == ChecksumProblems(entries[..i], checksums)
    {
      var entry := entries[i];
      assert entries[..i + 1][..i] == entries[..i];
      if entry.path !in checksums {
        continue;
      }
      var expected := checksums[entry.path];
      if entry.sha256.None? {
        errors := errors + [MissingSha(entry.name)];
      } else if entry.sha256.value != expected {
        errors := errors + [WrongSha(entry.name, entry.sha256.value, expected)];
      }
    }
    assert entries[..|entries|] == entries;
  }

  lemma {:induction false} ChecksumProblemsMeaning(entries: seq<HttpFile>, checksums: map<string, string>)
    ensures ChecksumProblems(entries, checksums) == [] <==>
      forall e | e in entries && e.path in checksums :: e.sha256 == Some(checksums[e.path])
  {
    if entries != [] {
      var init, last := entries[..|entries| - 1], entries[|entries| - 1];
      ChecksumProblemsMeaning(init, checksums);
      assert entries == init + [last];
      assert last in entries;
    }
  }
}
