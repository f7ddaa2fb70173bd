/** What an update of MODULE.bazel guarantees: nothing else changes, the check passes, a second update changes nothing,
    each exactly under a condition on the blocks before the update. */
module BazelGuarantee {
  import opened Prelude
  import opened BazelFields
  import opened BazelBlock
  import opened BazelUpdate
  import opened BazelDocument
  import opened BazelEntries
  import opened BazelManifest
  import opened BazelModule

  // e is d with every entry's block rewritten and nothing else changed.
  ghost predicate UpdatedFrom(d: Document, e: Document, prefix: string, checksums: map<string, string>) {
    match d
    case Rest(_) => e == d
    case Next(gap, block, rest) =>
      && e.Next? && e.gap == gap
      && (if IsEntry(block, prefix) then
            HasPath(block) && StringField(block, PATH).value in checksums
            && WithSha(block, checksums[StringField(block, PATH).value]) == Ok(e.block)
          else e.block == block)
      && UpdatedFrom(rest, e.rest, prefix, checksums)
  }

  lemma {:induction false} WrittenMeaning(d: Document, e: Document, prefix: string, checksums: map<string, string>)
    requires Covered(d, prefix, checksums)
    ensures Written(d, prefix, checksums) == Ok(e) <==> UpdatedFrom(d, e, prefix, checksums)
    decreases d
  {
    hide StringField, IsEntry, HasPath, WithSha, Written;
    if d.Next? {
      WrittenNext(d, prefix, checksums);
      if e.Next? { WrittenMeaning(d.rest, e.rest, prefix, checksums); }
    } else {
      WrittenRest(d, prefix, checksums);
    }
  }

  lemma WrittenRest(d: Document, prefix: string, checksums: map<string, string>)
    requires d.Rest?
    ensures Written(d, prefix, checksums) == Ok(d)
  {
  }

  lemma {:induction false} UpdateLayout(d: Document, e: Document, begins: bool, prefix: string,
                                        checksums: map<string, string>)
    requires Shaped(d, begins) && GoodManifest(checksums) && UpdatedFrom(d, e, prefix, checksums)
    ensures SameLayout(d, e)
    decreases d
  {
    hide StringField, IsEntry, WithSha, BlockShape, GapShape, FindBlock, EndsLine, IsDigest;
    if d.Next? {
      if IsEntry(d.block, prefix) { UpdateKeepsShape(d.block, checksums[StringField(d.block, PATH).value]); }
      UpdateLayout(d.rest, e.rest, EndsLine(d.block), prefix, checksums);
    }
  }

  // Read again, the updated text divides into the same pieces: the same text between the blocks, the same blocks that
  // are not entries, and each entry's block with its checksum written.
  lemma UpdateTouchesOnlyEntries(text: string, checksums: map<string, string>, version: string)
    requires GoodManifest(checksums) && Update(text, checksums, version).Ok?
    ensures UpdatedFrom(Parse(text, true), Parse(Update(text, checksums, version).value, true), NamePrefix(version),
      checksums)
  {
    var d, prefix := Parse(text, true), NamePrefix(version);
    UpdateWrites(text, checksums, version);
    hide *;
    var e := Written(d, prefix, checksums).value;
    WrittenMeaning(d, e, prefix, checksums);
    ParseShaped(text, true);
    UpdateLayout(d, e, true, prefix, checksums);
    LayoutKeepsShape(d, e, true);
    ParseRender(e, true);
  }

  lemma UpdateWrites(text: string, checksums: map<string, string>, version: string)
    requires Update(text, checksums, version).Ok?
    ensures Covered(Parse(text, true), NamePrefix(version), checksums)
    ensures Written(Parse(text, true), NamePrefix(version), checksums).Ok?
    ensures Update(text, checksums, version) ==
      Ok(Render(Written(Parse(text, true), NamePrefix(version), checksums).value))
    ensures Entries(Parse(text, true), 0, NamePrefix(version)).Ok?
    ensures SetErrors(Entries(Parse(text, true), 0, NamePrefix(version)).value, checksums, version) == []
  {
    hide Parse, NamePrefix, Entries, SetErrors, Written, Covered, Render, Paths, DistinctPaths;
    var found := Entries(Parse(text, true), 0, NamePrefix(version));
    SetErrorsMeaning(found.value, checksums, version);
    PathsNamed(found.value, checksums);
    EntriesCover(Parse(text, true), 0, NamePrefix(version), found.value, checksums);
  }

  // ---------------------------------------------------------------- the entries after the update

  // Entry by entry: name and path are kept, the block is the rewritten one, and the checker reads the written
  // checksum exactly when the old block was readable.
  ghost predicate RewrittenEntry(e: HttpFile, f: HttpFile, checksums: map<string, string>) {
    && f.name == e.name && f.path == e.path && e.path in checksums
    && WithSha(e.block, checksums[e.path]) == Ok(f.block)
    && (f.sha256 == Some(checksums[e.path]) <==> ShaReadable(e.block))
  }

  ghost predicate Rewritten(es: seq<HttpFile>, fs: seq<HttpFile>, checksums: map<string, string>) {
    |fs| == |es| && forall i | 0 <= i < |es| :: RewrittenEntry(es[i], fs[i], checksums)
  }

  lemma RewriteEntry(block: string, written: string, start: nat, at: nat, prefix: string,
                     checksums: map<string, string>)
    requires BlockShape(block) && GoodManifest(checksums) && PlainPrefix(prefix) && IsEntry(block, prefix)
      && HasPath(block)
    requires StringField(block, NAME).Some? && StringField(block, PATH).value in checksums
    requires WithSha(block, checksums[StringField(block, PATH).value]) == Ok(written)
    ensures IsEntry(written, prefix) && HasPath(written) && StringField(written, NAME).Some?
    ensures RewrittenEntry(EntryOf(block, start), EntryOf(written, at), checksums)
  {
    BlockIsClosed(block);
    EntryPlain(block, prefix);
    hide StringField, WithSha, PlainName, ShaReadable, Closed, IsDigest, BlockShape;
    BlockUpdate(block, checksums[StringField(block, PATH).value]);
  }

  lemma EntriesStep(d: Document, at: nat, prefix: string)
    requires d.Next? && Entries(d, at, prefix).Ok?
    ensures Entries(d.rest, at + |d.gap| + |d.block|, prefix).Ok?
    ensures IsEntry(d.block, prefix) ==> HasPath(d.block) && StringField(d.block, NAME).Some?
    ensures Entries(d, at, prefix).value ==
      (if IsEntry(d.block, prefix) then [EntryOf(d.block, at + |d.gap|)] else [])
        + Entries(d.rest, at + |d.gap| + |d.block|, prefix).value
  {
    hide StringField, HasPath, EntryOf;
  }

  lemma EntriesBack(e: Document, at: nat, prefix: string)
    requires e.Next? && Entries(e.rest, at + |e.gap| + |e.block|, prefix).Ok?
    requires IsEntry(e.block, prefix) ==> HasPath(e.block) && StringField(e.block, NAME).Some?
    ensures Entries(e, at, prefix).Ok? && Entries(e, at, prefix).value ==
      (if IsEntry(e.block, prefix) then [EntryOf(e.block, at + |e.gap|)] else [])
        + Entries(e.rest, at + |e.gap| + |e.block|, prefix).value
  {
    hide StringField, HasPath, EntryOf;
  }

  lemma {:induction false} EntriesRewritten(d: Document, e: Document, begins: bool, at: nat, to: nat, prefix: string,
                                            checksums: map<string, string>)
    requires Shaped(d, begins) && GoodManifest(checksums) && UpdatedFrom(d, e, prefix, checksums)
    requires PlainPrefix(prefix) && Entries(d, at, prefix).Ok?
    ensures Entries(e, to, prefix).Ok?
      && Rewritten(Entries(d, at, prefix).value, Entries(e, to, prefix).value, checksums)
    decreases d
  {
    hide *;
    if d.Rest? {
      NothingRewritten(d, e, at, to, prefix, checksums);
    } else {
      ShapedParts(d, begins);
      UpdatedParts(d, e, prefix, checksums);
      EntriesStep(d, at, prefix);
      EntriesRewritten(d.rest, e.rest, EndsLine(d.block), at + |d.gap| + |d.block|, to + |e.gap| + |e.block|, prefix,
        checksums);
      if IsEntry(d.block, prefix) {
        EntryRewritten(d, e, at, to, prefix, checksums);
      } else {
        OtherRewritten(d, e, at, to, prefix, checksums);
      }
    }
  }

  lemma NothingRewritten(d: Document, e: Document, at: nat, to: nat, prefix: string, checksums: map<string, string>)
    requires d.Rest? && UpdatedFrom(d, e, prefix, checksums) && Entries(d, at, prefix).Ok?
    ensures Entries(e, to, prefix).Ok?
      && Rewritten(Entries(d, at, prefix).value, Entries(e, to, prefix).value, checksums)
  {
  }

  lemma EntryRewritten(d: Document, e: Document, at: nat, to: nat, prefix: string, checksums: map<string, string>)
    requires d.Next? && e.Next? && BlockShape(d.block) && GoodManifest(checksums) && IsEntry(d.block, prefix)
    requires HasPath(d.block) && StringField(d.block, PATH).Some? && StringField(d.block, PATH).value in checksums
    requires WithSha(d.block, checksums[StringField(d.block, PATH).value]) == Ok(e.block)
    requires PlainPrefix(prefix) && Entries(d, at, prefix).Ok?
    requires Entries(d.rest, at + |d.gap| + |d.block|, prefix).Ok?
      && Entries(e.rest, to + |e.gap| + |e.block|, prefix).Ok?
    requires Rewritten(Entries(d.rest, at + |d.gap| + |d.block|, prefix).value,
      Entries(e.rest, to + |e.gap| + |e.block|, prefix).value, checksums)
    ensures Entries(e, to, prefix).Ok?
      && Rewritten(Entries(d, at, prefix).value, Entries(e, to, prefix).value, checksums)
  {
    hide *;
    EntriesStep(d, at, prefix);
    var first := EntryOf(d.block, at + |d.gap|);
    var more := Entries(d.rest, at + |d.gap| + |d.block|, prefix).value;
    RewriteEntry(d.block, e.block, at + |d.gap|, to + |e.gap|, prefix, checksums);
    EntriesBack(e, to, prefix);
    RewrittenCons(first, EntryOf(e.block, to + |e.gap|), more, Entries(e.rest, to + |e.gap| + |e.block|, prefix).value,
      checksums);
  }

  lemma OtherRewritten(d: Document, e: Document, at: nat, to: nat, prefix: string, checksums: map<string, string>)
    requires d.Next? && e.Next? && e.block == d.block && !IsEntry(d.block, prefix)
    requires Entries(d.rest, at + |d.gap| + |d.block|, prefix).Ok?
      && Entries(e.rest, to + |e.gap| + |e.block|, prefix).Ok?
    requires Rewritten(Entries(d.rest, at + |d.gap| + |d.block|, prefix).value,
      Entries(e.rest, to + |e.gap| + |e.block|, prefix).value, checksums)
    ensures Entries(d, at, prefix).Ok? && Entries(e, to, prefix).Ok?
    ensures Rewritten(Entries(d, at, prefix).value, Entries(e, to, prefix).value, checksums)
  {
    hide *;
    OtherEntries(d, at, prefix);
    OtherEntries(e, to, prefix);
  }

  lemma OtherEntries(d: Document, at: nat, prefix: string)
    requires d.Next? && !IsEntry(d.block, prefix)
    ensures Entries(d, at, prefix) == Entries(d.rest, at + |d.gap| + |d.block|, prefix)
  {
    hide IsEntry;
  }

  lemma ShapedParts(d: Document, begins: bool)
    requires d.Next? && Shaped(d, begins)
    ensures BlockShape(d.block) && Shaped(d.rest, EndsLine(d.block))
  {
    hide BlockShape, GapShape, EndsLine;
  }

  lemma UpdatedParts(d: Document, e: Document, prefix: string, checksums: map<string, string>)
    requires d.Next? && UpdatedFrom(d, e, prefix, checksums)
    ensures e.Next? && e.gap == d.gap && UpdatedFrom(d.rest, e.rest, prefix, checksums)
    ensures IsEntry(d.block, prefix) ==>
      HasPath(d.block) && StringField(d.block, PATH).Some? && StringField(d.block, PATH).value in checksums
      && WithSha(d.block, checksums[StringField(d.block, PATH).value]) == Ok(e.block)
    ensures !IsEntry(d.block, prefix) ==> e.block == d.block
  {
    hide StringField, IsEntry, WithSha;
  }

  lemma EntryBlock(e: HttpFile, block: string, start: nat)
    requires StringField(block, NAME).Some? && HasPath(block) && e == EntryOf(block, start)
    ensures e.block == block && [e][0] == e
  {
    hide StringField;
  }

  lemma RewrittenCons(e: HttpFile, f: HttpFile, es: seq<HttpFile>, fs: seq<HttpFile>, checksums: map<string, string>)
    requires RewrittenEntry(e, f, checksums) && Rewritten(es, fs, checksums)
    ensures Rewritten([e] + es, [f] + fs, checksums)
  {
    hide RewrittenEntry;
  }

  // ---------------------------------------------------------------- update establishes check

  lemma RewrittenPaths(es: seq<HttpFile>, fs: seq<HttpFile>, checksums: map<string, string>)
    requires Rewritten(es, fs, checksums)
    ensures Paths(es) == Paths(fs) && (DistinctPaths(es) <==> DistinctPaths(fs))
  {
    hide ShaReadable, WithSha;
    forall p ensures p in Paths(es) <==> p in Paths(fs) {
      if p in Paths(es) {
        var i :| 0 <= i < |es| && es[i].path == p;
        assert RewrittenEntry(es[i], fs[i], checksums) && fs[i] in fs;
      }
      if p in Paths(fs) {
        var i :| 0 <= i < |fs| && fs[i].path == p;
        assert RewrittenEntry(es[i], fs[i], checksums) && es[i] in es;
      }
    }
    assert forall i | 0 <= i < |es| :: es[i].path == fs[i].path by {
      forall i | 0 <= i < |es| ensures es[i].path == fs[i].path { assert RewrittenEntry(es[i], fs[i], checksums); }
    }
  }

  lemma RewrittenSetErrors(es: seq<HttpFile>, fs: seq<HttpFile>, checksums: map<string, string>, version: string)
    requires Rewritten(es, fs, checksums) && SetErrors(es, checksums, version) == []
    ensures SetErrors(fs, checksums, version) == []
  {
    RewrittenPaths(es, fs, checksums);
    SetErrorsMeaning(es, checksums, version);
    SetErrorsMeaning(fs, checksums, version);
    hide SetErrors, Paths, DistinctPaths;
  }

  ghost predicate AllReadable(entries: seq<HttpFile>) {
    forall e | e in entries :: ShaReadable(e.block)
  }

  lemma RewrittenChecksums(es: seq<HttpFile>, fs: seq<HttpFile>, checksums: map<string, string>)
    requires Rewritten(es, fs, checksums)
    ensures ChecksumProblems(fs, checksums) == [] <==> AllReadable(es)
  {
    hide ShaReadable, WithSha;
    ChecksumProblemsMeaning(fs, checksums);
    if AllReadable(es) {
      forall f | f in fs && f.path in checksums ensures f.sha256 == Some(checksums[f.path]) {
        var i :| 0 <= i < |fs| && fs[i] == f;
        assert RewrittenEntry(es[i], fs[i], checksums) && es[i] in es;
      }
    }
    if ChecksumProblems(fs, checksums) == [] {
      forall e | e in es ensures ShaReadable(e.block) {
        var i :| 0 <= i < |es| && es[i] == e;
        assert RewrittenEntry(es[i], fs[i], checksums) && fs[i] in fs;
      }
    }
  }

  lemma UpdatedEntries(text: string, checksums: map<string, string>, version: string)
    requires GoodManifest(checksums) && Update(text, checksums, version).Ok?
    ensures Entries(Parse(text, true), 0, NamePrefix(version)).Ok?
    ensures var fs := Entries(Parse(Update(text, checksums, version).value, true), 0, NamePrefix(version));
      && fs.Ok? && Rewritten(Entries(Parse(text, true), 0, NamePrefix(version)).value, fs.value, checksums)
      && SetErrors(fs.value, checksums, version) == []
  {
    hide *;
    UpdateWrites(text, checksums, version);
    UpdateTouchesOnlyEntries(text, checksums, version);
    ParseShaped(text, true);
    var d, e := Parse(text, true), Parse(Update(text, checksums, version).value, true);
    NamePrefixPlain(version);
    EntriesRewritten(d, e, true, 0, 0, NamePrefix(version), checksums);
    RewrittenSetErrors(Entries(d, 0, NamePrefix(version)).value, Entries(e, 0, NamePrefix(version)).value, checksums,
      version);
  }

  lemma CheckIs(text: string, checksums: map<string, string>, version: string)
    requires Entries(Parse(text, true), 0, NamePrefix(version)).Ok?
    requires SetErrors(Entries(Parse(text, true), 0, NamePrefix(version)).value, checksums, version) == []
    ensures Check(text, checksums, version).Ok? <==>
      ChecksumProblems(Entries(Parse(text, true), 0, NamePrefix(version)).value, checksums) == []
  {
    hide Parse, Entries, NamePrefix, SetErrors, ChecksumProblems;
  }

  // If the update returns, the check accepts its result exactly when every entry's block was readable.
  lemma UpdateEstablishesCheck(text: string, checksums: map<string, string>, version: string)
    requires GoodManifest(checksums) && Update(text, checksums, version).Ok?
    ensures Entries(Parse(text, true), 0, NamePrefix(version)).Ok?
    ensures Check(Update(text, checksums, version).value, checksums, version).Ok? <==>
      AllReadable(Entries(Parse(text, true), 0, NamePrefix(version)).value)
  {
    hide *;
    UpdatedEntries(text, checksums, version);
    var updated := Update(text, checksums, version).value;
    CheckIs(updated, checksums, version);
    RewrittenChecksums(Entries(Parse(text, true), 0, NamePrefix(version)).value,
                       Entries(Parse(updated, true), 0, NamePrefix(version)).value, checksums);
  }

  // ---------------------------------------------------------------- from the manifest's lines to the check

  // Some entry carries this checksum for this file.
  ghost predicate Carried(entries: seq<HttpFile>, filename: string, checksum: string) {
    exists e | e in entries :: e.path == filename && e.sha256 == Some(checksum)
  }

  lemma FittingCarries(entries: seq<HttpFile>, checksums: map<string, string>, f: string, c: string)
    requires FitsManifest(entries, checksums)
    requires forall e | e in entries && e.path in checksums :: e.sha256 == Some(checksums[e.path])
    ensures Carried(entries, f, c) <==> f in checksums && checksums[f] == c
  {
    if Carried(entries, f, c) {
      var e :| e in entries && e.path == f && e.sha256 == Some(c);
      assert f in Paths(entries);
    }
    if f in checksums {
      assert f in Paths(entries);
      var e :| e in entries && e.path == f;
    }
  }

  // A text updated from the lines of a manifest passes the check against them exactly when every entry was readable,
  // and then its entries carry exactly the checksums that the lines spell.
  lemma ManifestReachesCheck(text: string, lines: seq<string>, version: string)
    requires Checksums(lines).Ok? && Update(text, Checksums(lines).value, version).Ok?
    ensures Entries(Parse(text, true), 0, NamePrefix(version)).Ok?
    ensures var m := Checksums(lines).value;
      var updated := Update(text, m, version).value;
      && (Check(updated, m, version).Ok? <==> AllReadable(Entries(Parse(text, true), 0, NamePrefix(version)).value))
      && (Check(updated, m, version).Ok? ==>
            var found := Entries(Parse(updated, true), 0, NamePrefix(version));
            found.Ok? && forall f, c :: Carried(found.value, f, c) <==> Spelled(lines, f, c))
  {
    hide *;
    ManifestIsGood(lines);
    var m := Checksums(lines).value;
    UpdateEstablishesCheck(text, m, version);
    var updated := Update(text, m, version).value;
    CheckMeaning(updated, m, version);
    if Check(updated, m, version).Ok? {
      var entries := Entries(Parse(updated, true), 0, NamePrefix(version)).value;
      forall f, c ensures Carried(entries, f, c) <==> Spelled(lines, f, c) {
        FittingCarries(entries, m, f, c);
        ManifestMeaning(lines, f, c);
      }
    }
  }

  // ---------------------------------------------------------------- a second update

  // The block holds a lower-case checksum, or its insertion is not followed by a blank line.
  ghost predicate Settled(b: string) {
    Closed(b) && (FindHex(b, 0).Some? || (FindInsert(b, 0).Some? && !BlankStart(Back(b))))
  }

  ghost predicate AllSettled(entries: seq<HttpFile>) {
    forall e | e in entries :: Settled(e.block)
  }

  lemma SettledSecond(b: string, c: string)
    requires BlockShape(b) && IsDigest(c) && WithSha(b, c).Ok?
    ensures WithSha(WithSha(b, c).value, c).Ok?
    ensures WithSha(WithSha(b, c).value, c) == WithSha(b, c) <==> Settled(b)
  {
    BlockIsClosed(b);
    UpdatedBlock(b, c);
    hide BlockShape, Closed, BlankStart, IsDigest, FindHex, FindInsert, Front, Back, ShaText;
    UpdatedHex(b, c);
    SecondUpdate(b, c);
  }

  // Updating the update writes the same entries again.
  lemma {:induction false} SecondWrites(d: Document, e: Document, f: Document, begins: bool, at: nat, prefix: string,
                                        checksums: map<string, string>)
    requires Shaped(d, begins) && GoodManifest(checksums)
    requires UpdatedFrom(d, e, prefix, checksums) && UpdatedFrom(e, f, prefix, checksums)
    requires PlainPrefix(prefix) && Entries(d, at, prefix).Ok?
    ensures e == f <==> AllSettled(Entries(d, at, prefix).value)
    decreases d
  {
    hide *;
    if d.Next? {
      ShapedParts(d, begins);
      UpdatedParts(d, e, prefix, checksums);
      UpdatedParts(e, f, prefix, checksums);
      EntriesStep(d, at, prefix);
      SecondWrites(d.rest, e.rest, f.rest, EndsLine(d.block), at + |d.gap| + |d.block|, prefix, checksums);
      SettledStep(d, at, prefix);
      SameNode(e, f);
      if IsEntry(d.block, prefix) {
        SecondEntry(d.block, e.block, f.block, prefix, checksums);
      }
    } else {
      UpdatedRest(d, e, f, prefix, checksums);
      NoneSettled(d, at, prefix);
    }
  }

  lemma SettledStep(d: Document, at: nat, prefix: string)
    requires d.Next? && Entries(d, at, prefix).Ok?
    ensures Entries(d.rest, at + |d.gap| + |d.block|, prefix).Ok?
    ensures AllSettled(Entries(d, at, prefix).value) <==>
      (IsEntry(d.block, prefix) ==> Settled(d.block))
        && AllSettled(Entries(d.rest, at + |d.gap| + |d.block|, prefix).value)
  {
    hide *;
    EntriesStep(d, at, prefix);
    var more := Entries(d.rest, at + |d.gap| + |d.block|, prefix).value;
    if IsEntry(d.block, prefix) {
      var first := EntryOf(d.block, at + |d.gap|);
      SettledSplit([first], more);
      EntryBlock(first, d.block, at + |d.gap|);
    } else {
      SettledSplit([], more);
    }
  }

  lemma SameNode(e: Document, f: Document)
    requires e.Next? && f.Next? && e.gap == f.gap
    ensures e == f <==> e.block == f.block && e.rest == f.rest
  {
  }

  lemma UpdatedRest(d: Document, e: Document, f: Document, prefix: string, checksums: map<string, string>)
    requires d.Rest? && UpdatedFrom(d, e, prefix, checksums) && UpdatedFrom(e, f, prefix, checksums)
    ensures e == f
  {
  }

  lemma NoneSettled(d: Document, at: nat, prefix: string)
    requires d.Rest? && Entries(d, at, prefix).Ok?
    ensures AllSettled(Entries(d, at, prefix).value)
  {
  }

  lemma SettledSplit(a: seq<HttpFile>, b: seq<HttpFile>)
    requires |a| <= 1
    ensures AllSettled(a + b) <==> (a != [] ==> Settled(a[0].block)) && AllSettled(b)
  {
    hide Settled;
    if AllSettled(a + b) {
      forall e | e in b ensures Settled(e.block) { assert e in a + b; }
      if a != [] { assert a[0] in a + b; }
    }
  }

  lemma SecondEntry(block: string, written: string, again: string, prefix: string, checksums: map<string, string>)
    requires BlockShape(block) && GoodManifest(checksums) && PlainPrefix(prefix) && IsEntry(block, prefix)
    requires HasPath(block) && StringField(block, NAME).Some? && StringField(block, PATH).Some?
      && StringField(block, PATH).value in checksums
    requires WithSha(block, checksums[StringField(block, PATH).value]) == Ok(written)
    requires IsEntry(written, prefix) ==>
      HasPath(written) && StringField(written, PATH).Some? && StringField(written, PATH).value in checksums
      && WithSha(written, checksums[StringField(written, PATH).value]) == Ok(again)
    ensures written == again <==> Settled(block)
  {
    var c := checksums[StringField(block, PATH).value];
    hide *;
    GoodDigest(checksums, StringField(block, PATH).value);
    RewriteEntry(block, written, 0, 0, prefix, checksums);
    EntryPaths(block, written, checksums);
    SettledSecond(block, c);
  }

  lemma GoodDigest(checksums: map<string, string>, f: string)
    requires GoodManifest(checksums) && f in checksums
    ensures IsDigest(checksums[f])
  {
  }

  lemma EntryPaths(block: string, written: string, checksums: map<string, string>)
    requires StringField(block, NAME).Some? && HasPath(block) && StringField(written, NAME).Some? && HasPath(written)
    requires RewrittenEntry(EntryOf(block, 0), EntryOf(written, 0), checksums)
    ensures StringField(written, PATH) == StringField(block, PATH)
  {
    hide StringField, WithSha, ShaReadable;
  }

  lemma UpdateReturns(text: string, checksums: map<string, string>, version: string)
    requires Entries(Parse(text, true), 0, NamePrefix(version)).Ok?
    requires SetErrors(Entries(Parse(text, true), 0, NamePrefix(version)).value, checksums, version) == []
    ensures Covered(Parse(text, true), NamePrefix(version), checksums)
    ensures Update(text, checksums, version) == Rendered(Written(Parse(text, true), NamePrefix(version), checksums))
  {
    hide Parse, NamePrefix, Entries, SetErrors, Written, Covered, Rendered, Paths, DistinctPaths;
    var found := Entries(Parse(text, true), 0, NamePrefix(version));
    SetErrorsMeaning(found.value, checksums, version);
    PathsNamed(found.value, checksums);
    EntriesCover(Parse(text, true), 0, NamePrefix(version), found.value, checksums);
  }

  // The rewritten text can be updated again.
  lemma {:induction false} SecondSucceeds(d: Document, e: Document, begins: bool, at: nat, prefix: string,
                                          checksums: map<string, string>)
    requires Shaped(d, begins) && GoodManifest(checksums) && UpdatedFrom(d, e, prefix, checksums)
    requires PlainPrefix(prefix) && Entries(d, at, prefix).Ok?
    requires Covered(e, prefix, checksums)
    ensures Written(e, prefix, checksums).Ok?
    decreases d
  {
    hide *;
    if d.Rest? {
      RestSucceeds(d, e, prefix, checksums);
    } else {
      ShapedParts(d, begins);
      UpdatedParts(d, e, prefix, checksums);
      WrittenNext(e, prefix, checksums);
      EntriesStep(d, at, prefix);
      SecondSucceeds(d.rest, e.rest, EndsLine(d.block), at + |d.gap| + |d.block|, prefix, checksums);
      AfterBlockOk(e.gap, e.block, Written(e.rest, prefix, checksums));
      if IsEntry(d.block, prefix) {
        var c := checksums[StringField(d.block, PATH).value];
        EntryAgain(d.block, e.block, c, prefix, checksums);
        AfterBlockOk(e.gap, WithSha(e.block, c).value, Written(e.rest, prefix, checksums));
      }
    }
  }

  lemma RestSucceeds(d: Document, e: Document, prefix: string, checksums: map<string, string>)
    requires d.Rest? && UpdatedFrom(d, e, prefix, checksums) && Covered(e, prefix, checksums)
    ensures Written(e, prefix, checksums).Ok?
  {
  }

  lemma EntryAgain(block: string, written: string, c: string, prefix: string, checksums: map<string, string>)
    requires BlockShape(block) && GoodManifest(checksums) && PlainPrefix(prefix) && IsEntry(block, prefix)
    requires HasPath(block) && StringField(block, NAME).Some? && StringField(block, PATH).Some?
      && StringField(block, PATH).value in checksums
    requires c == checksums[StringField(block, PATH).value] && WithSha(block, c) == Ok(written)
    ensures IsEntry(written, prefix) && StringField(written, PATH) == StringField(block, PATH)
      && WithSha(written, c).Ok?
  {
    hide *;
    GoodDigest(checksums, StringField(block, PATH).value);
    RewriteEntry(block, written, 0, 0, prefix, checksums);
    EntryPaths(block, written, checksums);
    SettledSecond(block, c);
  }

  lemma AfterBlockOk(gap: string, block: string, back: Result<Document, ChecksumError>)
    requires back.Ok?
    ensures AfterBlock(gap, block, back).Ok?
  {
  }

  // A second update returns too, and changes nothing exactly when every entry's block was settled.
  lemma SecondUpdateChangesNothing(text: string, checksums: map<string, string>, version: string)
    requires GoodManifest(checksums) && Update(text, checksums, version).Ok?
    ensures Entries(Parse(text, true), 0, NamePrefix(version)).Ok?
    ensures var updated := Update(text, checksums, version).value;
      && Update(updated, checksums, version).Ok?
      && (Update(updated, checksums, version).value == updated <==>
          AllSettled(Entries(Parse(text, true), 0, NamePrefix(version)).value))
  {
    hide *;
    var updated, prefix := Update(text, checksums, version).value, NamePrefix(version);
    UpdatedEntries(text, checksums, version);
    UpdateTouchesOnlyEntries(text, checksums, version);
    UpdateReturns(updated, checksums, version);
    ParseShaped(text, true);
    var d, e := Parse(text, true), Parse(updated, true);
    NamePrefixPlain(version);
    SecondSucceeds(d, e, true, 0, prefix, checksums);
    var f := Written(e, prefix, checksums).value;
    RenderedOk(Written(e, prefix, checksums));
    WrittenMeaning(e, f, prefix, checksums);
    SecondWrites(d, e, f, true, 0, prefix, checksums);
    UpdateTouchesOnlyEntries(updated, checksums, version);
    SameUpdate(e, f, Parse(Render(f), true), prefix, checksums);
    RenderParse(updated, true);
  }

  lemma RenderedOk(r: Result<Document, ChecksumError>)
    requires r.Ok?
    ensures Rendered(r) == Ok(Render(r.value))
  {
  }

  lemma {:induction false} SameUpdate(d: Document, e: Document, f: Document, prefix: string,
                                      checksums: map<string, string>)
    requires UpdatedFrom(d, e, prefix, checksums) && UpdatedFrom(d, f, prefix, checksums)
    ensures e == f
    decreases d
  {
    hide StringField, IsEntry, HasPath, WithSha;
    if d.Next? { SameUpdate(d.rest, e.rest, f.rest, prefix, checksums); }
  }
}
