/** `parse_checksum_manifest`, from the lines of the file. */
module BazelManifest {
  import opened Prelude
  import opened PythonText
  import opened BazelFields
  import opened BazelBlock

  datatype ManifestError =
    | WrongFieldCount(line: nat)
    | InvalidDigest(line: nat, filename: string)
    | NotBare(line: nat)
    | DuplicateChecksum(line: nat, filename: string)
    | EmptyManifest

  function SkipWord(s: string, i: nat): (e: nat)
    requires i <= |s|
    ensures i <= e <= |s| && (forall k | i <= k < e :: !IsSpace(s[k])) && (e < |s| ==> IsSpace(s[e]))
    decreases |s| - i
  {
    if i < |s| && !IsSpace(s[i]) then SkipWord(s, i + 1) else i
  }

  // str.split() from position i on
  function Words(s: string, i: nat): seq<string>
    requires i <= |s|
    decreases |s| - i
  {
    var start := SkipSpaces(s, i);
    if start == |s| then [] else [s[start..SkipWord(s, start)]] + Words(s, SkipWord(s, start))
  }

  predicate IsBare(filename: string) {
    filename != "" && filename != "." && filename != ".." && '/' !in filename
  }

  // What one line may add to the checksums of the lines above it.
  function LineError(above: map<string, string>, line: string, number: nat): Option<ManifestError> {
    var parts := Words(line, 0);
    if parts == [] then None
    else if |parts| != 2 then Some(WrongFieldCount(number))
    else if !IsDigest(parts[0]) then Some(InvalidDigest(number, parts[1]))
    else if !IsBare(parts[1]) then Some(NotBare(number))
    else if parts[1] in above then Some(DuplicateChecksum(number, parts[1]))
    else None
  }

  // The checksums of the lines, or the first line's complaint.
  function Checksums(lines: seq<string>): Result<map<string, string>, ManifestError> {
    if lines == [] then Ok(map[])
    else
      match Checksums(lines[..|lines| - 1])
      case Err(e) => Err(e)
      case Ok(above) =>
        var line := lines[|lines| - 1];
        match LineError(above, line, |lines|)
        case Some(e) => Err(e)
        case None => Ok(WithLine(above, line))
  }

  function WithLine(above: map<string, string>, line: string): map<string, string> {
    var parts := Words(line, 0);
    if |parts| == 2 then above[parts[1] := parts[0]] else above
  }

  method ParseChecksumManifest(lines: seq<string>) returns (r: Result<map<string, string>, ManifestError>)
    ensures r == if Checksums(lines) == Ok(map[]) then Err(EmptyManifest) else Checksums(lines)
  {
    hide Words, IsDigest;
    var checksums: map<string, string> := map[];
    for number := 0 to |lines|
      invariant Checksums(lines[..number]) == Ok(checksums)
    {
      var parts := Words(lines[number], 0);
      assert lines[..number + 1][..number] == lines[..number];
      ErrorStays(lines, number + 1);
      if parts == [] {
        continue;
      }
      if |parts| != 2 {
        return Err(WrongFieldCount(number + 1));
      }
      var checksum, filename := parts[0], parts[1];
      if !IsDigest(checksum) {
        return Err(InvalidDigest(number + 1, filename));
      }
      if filename == "" || filename in {".", ".."} || '/' in filename {
        return Err(NotBare(number + 1));
      }
      if filename in checksums {
        return Err(DuplicateChecksum(number + 1, filename));
      }
      checksums := checksums[filename := checksum];
    }
    assert lines[..|lines|] == lines;
    if checksums == map[] {
      return Err(EmptyManifest);
    }
    return Ok(checksums);
  }

  lemma {:induction false} ErrorStays(lines: seq<string>, k: nat)
    requires k <= |lines|
    ensures Checksums(lines[..k]).Err? ==> Checksums(lines) == Checksums(lines[..k])
    decreases |lines|
  {
    if k == |lines| { assert lines[..k] == lines; }
    else {
      ErrorStays(lines[..|lines| - 1], k);
      assert lines[..|lines| - 1][..k] == lines[..k];
    }
  }

  // every value is 64 lower-case hexadecimal digits
  predicate GoodManifest(checksums: map<string, string>) {
    forall f | f in checksums :: IsDigest(checksums[f])
  }

  // ---------------------------------------------------------------- what a line spells

  predicate Blank(s: string) {
    forall k | 0 <= k < |s| :: IsSpace(s[k])
  }

  predicate Word(s: string) {
    s != "" && forall k | 0 <= k < |s| :: !IsSpace(s[k])
  }

  // two words with whitespace between them, and perhaps around them
  predicate PairWith(line: string, front: string, c: string, between: string, f: string, back: string) {
    && line == front + c + between + f + back
    && Blank(front) && Word(c) && between != "" && Blank(between) && Word(f) && Blank(back)
  }

  ghost predicate SpellsPair(line: string, c: string, f: string) {
    exists front, between, back :: PairWith(line, front, c, between, f, back)
  }

  lemma SkipWordUnique(s: string, i: nat, e: nat)
    requires i <= e <= |s| && (forall k | i <= k < e :: !IsSpace(s[k])) && (e < |s| ==> IsSpace(s[e]))
    ensures SkipWord(s, i) == e
  {
  }

  lemma NoWords(line: string, i: nat)
    requires i <= |line|
    ensures Words(line, i) == [] <==> AllSpaces(line, i, |line|)
  {
    if AllSpaces(line, i, |line|) { SkipSpacesUnique(line, i, |line|); }
  }

  lemma NextWord(line: string, i: nat, start: nat, end: nat)
    requires i <= start < end <= |line| && AllSpaces(line, i, start)
    requires (forall k | start <= k < end :: !IsSpace(line[k])) && (end < |line| ==> IsSpace(line[end]))
    ensures Words(line, i) == [line[start..end]] + Words(line, end)
  {
    SkipSpacesUnique(line, i, start);
    SkipWordUnique(line, start, end);
  }

  // where the pieces of a pair lie in the line
  lemma PairPieces(line: string, front: string, c: string, between: string, f: string, back: string)
    requires PairWith(line, front, c, between, f, back)
    ensures var i, j, k := |front|, |front| + |c|, |front| + |c| + |between|;
      && i < j < k < k + |f| <= |line| && line[i..j] == c && line[k..k + |f|] == f
      && AllSpaces(line, 0, i) && AllSpaces(line, j, k) && AllSpaces(line, k + |f|, |line|)
      && (forall m | i <= m < j :: !IsSpace(line[m])) && (forall m | k <= m < k + |f| :: !IsSpace(line[m]))
  {
    hide IsSpace;
    var i, j, k := |front|, |front| + |c|, |front| + |c| + |between|;
    assert forall m | 0 <= m < i :: line[m] == front[m];
    assert forall m | i <= m < j :: line[m] == c[m - i];
    assert forall m | j <= m < k :: line[m] == between[m - j];
    assert forall m | k <= m < k + |f| :: line[m] == f[m - k];
    assert forall m | k + |f| <= m < |line| :: line[m] == back[m - k - |f|];
  }

  lemma SpaceAt(line: string, i: nat, j: nat)
    requires i < j <= |line| && AllSpaces(line, i, j)
    ensures IsSpace(line[i])
  {
    hide IsSpace;
  }

  lemma PairRead(line: string, front: string, c: string, between: string, f: string, back: string)
    requires PairWith(line, front, c, between, f, back)
    ensures Words(line, 0) == [c, f]
  {
    hide *;
    PairPieces(line, front, c, between, f, back);
    var i, j, k := |front|, |front| + |c|, |front| + |c| + |between|;
    SpaceAt(line, j, k);
    NextWord(line, 0, i, j);
    if k + |f| < |line| { SpaceAt(line, k + |f|, |line|); }
    NextWord(line, j, k, k + |f|);
    NoWords(line, k + |f|);
  }

  lemma WordsStep(line: string, i: nat, words: seq<string>)
    requires i <= |line| && Words(line, i) == words && words != []
    ensures var start := SkipSpaces(line, i); var end := SkipWord(line, start);
      start < end && words[0] == line[start..end] && Words(line, end) == words[1..]
  {
    var start := SkipSpaces(line, i);
    assert words[1..] == Words(line, SkipWord(line, start));
  }

  lemma WordsAre(line: string, c: string, f: string) returns (i: nat, j: nat, k: nat, l: nat)
    requires Words(line, 0) == [c, f]
    ensures i < j <= k < l <= |line| && c == line[i..j] && f == line[k..l]
    ensures AllSpaces(line, 0, i) && AllSpaces(line, j, k) && AllSpaces(line, l, |line|)
    ensures (forall m | i <= m < j :: !IsSpace(line[m])) && (forall m | k <= m < l :: !IsSpace(line[m]))
    ensures IsSpace(line[j])
  {
    WordsStep(line, 0, [c, f]);
    i := SkipSpaces(line, 0);
    j := SkipWord(line, i);
    assert [c, f][1..] == [f];
    WordsStep(line, j, [f]);
    k := SkipSpaces(line, j);
    l := SkipWord(line, k);
    assert [f][1..] == [];
    NoWords(line, l);
    hide Words, IsSpace;
  }

  lemma BlankSlice(line: string, i: nat, j: nat)
    requires i <= j <= |line| && AllSpaces(line, i, j)
    ensures Blank(line[i..j])
  {
    hide IsSpace;
  }

  lemma WordSlice(line: string, i: nat, j: nat)
    requires i < j <= |line| && forall m | i <= m < j :: !IsSpace(line[m])
    ensures Word(line[i..j])
  {
    hide IsSpace;
  }

  lemma PairShown(line: string, c: string, f: string)
    requires Words(line, 0) == [c, f]
    ensures SpellsPair(line, c, f)
  {
    var i, j, k, l := WordsAre(line, c, f);
    hide IsSpace, Words;
    assert line == line[0..i] + line[i..j] + line[j..k] + line[k..l] + line[l..|line|];
    BlankSlice(line, 0, i);
    BlankSlice(line, j, k);
    BlankSlice(line, l, |line|);
    WordSlice(line, i, j);
    WordSlice(line, k, l);
    assert j < k;
    hide Blank, Word;
    assert PairWith(line, line[0..i], c, line[j..k], f, line[l..|line|]);
  }

  // A line splits into two words exactly when it spells them.
  lemma WordsMeaning(line: string, c: string, f: string)
    ensures Words(line, 0) == [c, f] <==> SpellsPair(line, c, f)
    ensures Words(line, 0) == [] <==> Blank(line)
  {
    hide Words, PairWith, IsSpace;
    NoWords(line, 0);
    if Words(line, 0) == [c, f] { PairShown(line, c, f); }
    if front, between, back :| PairWith(line, front, c, between, f, back) {
      PairRead(line, front, c, between, f, back);
    }
  }

  // 64 lower-case hexadecimal digits for a file name without a directory
  ghost predicate GoodPair(line: string, c: string, f: string) {
    && SpellsPair(line, c, f)
    && |c| == 64 && (forall k | 0 <= k < |c| :: '0' <= c[k] <= '9' || 'a' <= c[k] <= 'f')
    && f != "." && f != ".." && '/' !in f
  }

  // some line spells this checksum for this file
  ghost predicate Spelled(lines: seq<string>, filename: string, checksum: string) {
    exists k | 0 <= k < |lines| :: SpellsPair(lines[k], checksum, filename)
  }

  lemma SpelledNext(lines: seq<string>, f: string, c: string)
    requires lines != []
    ensures Spelled(lines, f, c) <==> Spelled(lines[..|lines| - 1], f, c) || SpellsPair(lines[|lines| - 1], c, f)
  {
    var init := lines[..|lines| - 1];
    hide SpellsPair;
    if Spelled(init, f, c) {
      var k :| 0 <= k < |init| && SpellsPair(init[k], c, f);
      assert SpellsPair(lines[k], c, f);
    }
    if Spelled(lines, f, c) {
      var k :| 0 <= k < |lines| && SpellsPair(lines[k], c, f);
      if k < |init| { assert SpellsPair(init[k], c, f); }
    }
  }

  lemma GoodPairMeaning(line: string, c: string, f: string)
    requires SpellsPair(line, c, f)
    ensures GoodPair(line, c, f) <==> IsDigest(c) && IsBare(f)
  {
    assert f != "";
  }

  // A line is accepted when it is blank or spells a good pair for a file that no line above it lists.
  lemma LineMeaning(above: map<string, string>, line: string, number: nat)
    ensures LineError(above, line, number).None? <==>
      Blank(line) || exists c, f :: GoodPair(line, c, f) && f !in above
    ensures LineError(above, line, number).None? ==>
      var m := WithLine(above, line);
      forall c, f :: f in m && m[f] == c <==> (f in above && above[f] == c) || SpellsPair(line, c, f)
  {
    var parts := Words(line, 0);
    WordsMeaning(line, "", "");
    forall c, f ensures parts == [c, f] <==> SpellsPair(line, c, f) { WordsMeaning(line, c, f); }
    hide Words, IsDigest, IsBare, SpellsPair, GoodPair, Blank;
    assert |parts| == 2 ==> parts == [parts[0], parts[1]];
    if |parts| == 2 {
      GoodPairMeaning(line, parts[0], parts[1]);
      assert forall c, f | SpellsPair(line, c, f) :: c == parts[0] && f == parts[1];
    }
    PairIsSpelled();
  }

  lemma PairIsSpelled()
    ensures forall line, c, f | GoodPair(line, c, f) :: SpellsPair(line, c, f)
  {
    hide SpellsPair;
  }

  lemma LinePair(above: map<string, string>, line: string, number: nat, f: string, c: string)
    requires LineError(above, line, number).None?
    ensures var m := WithLine(above, line);
      f in m && m[f] == c <==> (f in above && above[f] == c) || SpellsPair(line, c, f)
  {
    LineMeaning(above, line, number);
    hide LineError, WithLine, SpellsPair, GoodPair, Blank;
  }

  // An accepted manifest holds exactly the pairs its lines spell.
  lemma {:induction false} ManifestMeaning(lines: seq<string>, f: string, c: string)
    requires Checksums(lines).Ok?
    ensures var m := Checksums(lines).value;
      && (f in m && m[f] == c <==> Spelled(lines, f, c))
  {
    hide SpellsPair, Spelled, WithLine, LineError, GoodPair, Blank;
    if lines == [] {
      NothingSpelled(f, c);
    } else {
      var init, line := lines[..|lines| - 1], lines[|lines| - 1];
      ManifestMeaning(init, f, c);
      SpelledNext(lines, f, c);
      LinePair(Checksums(init).value, line, |lines|, f, c);
      assert Checksums(lines).value == WithLine(Checksums(init).value, line);
    }
  }

  lemma NothingSpelled(f: string, c: string)
    ensures !Spelled([], f, c)
  {
  }

  ghost predicate LineFits(line: string) {
    Blank(line) || exists c, f :: GoodPair(line, c, f)
  }

  // Every line is blank or spells a good pair, and no two lines the same file.
  ghost predicate LinesFit(lines: seq<string>) {
    && (forall k | 0 <= k < |lines| :: LineFits(lines[k]))
    && forall j, k, f, c, d | 0 <= j < k < |lines| && SpellsPair(lines[j], c, f) :: !SpellsPair(lines[k], d, f)
  }

  lemma LinesFitNext(lines: seq<string>)
    requires lines != []
    ensures var init, last := lines[..|lines| - 1], lines[|lines| - 1];
      LinesFit(lines) <==>
        LinesFit(init) && LineFits(last) && forall f, c, d | SpellsPair(last, d, f) :: !Spelled(init, f, c)
  {
    var init, last := lines[..|lines| - 1], lines[|lines| - 1];
    hide SpellsPair, LineFits, Spelled;
    assert forall k | 0 <= k < |init| :: init[k] == lines[k];
    if LinesFit(lines) {
      forall f, c, d | SpellsPair(last, d, f) ensures !Spelled(init, f, c) {
        SpelledSomewhere(init, f, c);
        assert forall j | 0 <= j < |init| :: SpellsPair(lines[j], c, f) ==> !SpellsPair(lines[|lines| - 1], d, f);
      }
    }
    if LinesFit(init) && LineFits(last) && forall f, c, d | SpellsPair(last, d, f) :: !Spelled(init, f, c) {
      forall k | 0 <= k < |lines| ensures LineFits(lines[k]) { assert k < |init| ==> LineFits(init[k]); }
      forall j, k, f, c, d | 0 <= j < k < |lines| && SpellsPair(lines[j], c, f) ensures !SpellsPair(lines[k], d, f) {
        assert SpellsPair(init[j], c, f);
        SpelledSomewhere(init, f, c);
        if k < |init| { assert !SpellsPair(init[k], d, f); }
      }
    }
  }

  lemma SpelledSomewhere(lines: seq<string>, f: string, c: string)
    ensures Spelled(lines, f, c) <==> exists k | 0 <= k < |lines| :: SpellsPair(lines[k], c, f)
  {
    hide SpellsPair;
  }

  lemma OnePair(line: string, c: string, f: string, d: string, g: string)
    requires SpellsPair(line, c, f) && SpellsPair(line, d, g)
    ensures c == d && f == g && !Blank(line)
  {
    WordsMeaning(line, c, f);
    WordsMeaning(line, d, g);
    hide Words, SpellsPair, Blank;
    assert [c, f][0] == c && [c, f][1] == f && [d, g][0] == d && [d, g][1] == g;
  }

  // A manifest is accepted exactly when its lines fit and at least one spells a pair.
  lemma {:induction false} AcceptMeaning(lines: seq<string>)
    ensures Checksums(lines).Ok? <==> LinesFit(lines)
    ensures Checksums(lines) == Ok(map[]) <==> forall k | 0 <= k < |lines| :: Blank(lines[k])
    decreases |lines|
  {
    if lines != [] {
      var init, last := lines[..|lines| - 1], lines[|lines| - 1];
      AcceptMeaning(init);
      LinesFitNext(lines);
      BlankNext(lines);
      if Checksums(init).Ok? { AcceptNext(init, last, Checksums(init).value); }
      hide LineError, WithLine, LinesFit, LineFits, Spelled, SpellsPair, Blank;
    }
  }

  lemma BlankNext(lines: seq<string>)
    requires lines != []
    ensures (forall k | 0 <= k < |lines| :: Blank(lines[k])) <==>
      AllBlank(lines[..|lines| - 1]) && Blank(lines[|lines| - 1])
    ensures AllBlank(lines) <==> forall k | 0 <= k < |lines| :: Blank(lines[k])
  {
    hide Blank;
    assert forall k | 0 <= k < |lines| - 1 :: lines[..|lines| - 1][k] == lines[k];
  }

  predicate AllBlank(lines: seq<string>) {
    forall k | 0 <= k < |lines| :: Blank(lines[k])
  }

  // A file has a checksum when some line spells one for it.
  lemma FilesSpelled(lines: seq<string>, f: string)
    requires Checksums(lines).Ok?
    ensures f in Checksums(lines).value <==> exists c :: Spelled(lines, f, c)
  {
    hide Checksums, Spelled;
    var m := Checksums(lines).value;
    if f in m { ManifestMeaning(lines, f, m[f]); }
    if c :| Spelled(lines, f, c) { ManifestMeaning(lines, f, c); }
  }

  lemma LineEmpty(above: map<string, string>, line: string, number: nat)
    requires LineError(above, line, number).None?
    ensures WithLine(above, line) == map[] <==> above == map[] && Blank(line)
  {
    WordsMeaning(line, "", "");
    hide Words, IsDigest, IsBare, SpellsPair, Blank;
    var parts := Words(line, 0);
    if |parts| == 2 { assert parts[1] in WithLine(above, line); }
  }

  lemma AcceptNext(init: seq<string>, line: string, above: map<string, string>)
    requires Checksums(init) == Ok(above)
    ensures LineError(above, line, |init| + 1).None? <==>
      LineFits(line) && forall f, c, d | SpellsPair(line, d, f) :: !Spelled(init, f, c)
    ensures LineError(above, line, |init| + 1).None? ==>
      (WithLine(above, line) == map[] <==> above == map[] && Blank(line))
  {
    LineMeaning(above, line, |init| + 1);
    if LineError(above, line, |init| + 1).None? { LineEmpty(above, line, |init| + 1); }
    PairIsSpelled();
    hide Words, LineError, WithLine, Checksums, GoodPair, SpellsPair, Spelled, Blank;
    forall f ensures f in above <==> exists c :: Spelled(init, f, c) { FilesSpelled(init, f); }
    forall c, f, d, g | SpellsPair(line, c, f) && SpellsPair(line, d, g) ensures c == d && f == g && !Blank(line) {
      OnePair(line, c, f, d, g);
    }
  }

  lemma ManifestIsGood(lines: seq<string>)
    requires Checksums(lines).Ok?
    ensures GoodManifest(Checksums(lines).value)
  {
    var m := Checksums(lines).value;
    forall f | f in m ensures IsDigest(m[f]) {
      ManifestMeaning(lines, f, m[f]);
      AcceptMeaning(lines);
      hide SpellsPair, Blank, Checksums, GoodPair;
      var k :| 0 <= k < |lines| && SpellsPair(lines[k], m[f], f);
      assert LineFits(lines[k]);
      DigestSpelled(lines[k], m[f], f);
    }
  }

  lemma DigestSpelled(line: string, c: string, f: string)
    requires LineFits(line) && SpellsPair(line, c, f)
    ensures IsDigest(c) && IsBare(f)
  {
    PairIsSpelled();
    hide SpellsPair, Blank, GoodPair, IsDigest, IsBare;
    OnePair(line, c, f, c, f);
    var d, g :| GoodPair(line, d, g);
    OnePair(line, c, f, d, g);
    GoodPairMeaning(line, d, g);
  }
}
