/** MODULE.bazel as HTTP_FILE_BLOCK_RE divides it: http_file blocks and the text between them. */
module BazelDocument {
  import opened Prelude
  import opened PythonText
  import opened BazelFields
  import opened BazelBlock
  import opened BazelUpdate

  const HEADER := "http_file(\n"

  // `^http_file\(\n` at i, in a text that starts on a new line or in the middle of one
  predicate HeaderAt(t: string, i: nat, begins: bool)
    requires i <= |t|
  {
    (if i == 0 then begins else t[i - 1] == '\n') && StartsWith(t, i, HEADER)
  }

  function FindHeader(t: string, i: nat, begins: bool): (r: Option<nat>)
    requires i <= |t|
    ensures r.Some? ==> i <= r.value && r.value + |HEADER| <= |t| && HeaderAt(t, r.value, begins)
    ensures r.Some? ==> forall k | i <= k < r.value :: !HeaderAt(t, k, begins)
    ensures r.None? ==> forall k | i <= k <= |t| :: !HeaderAt(t, k, begins)
    decreases |t| - i
  {
    if HeaderAt(t, i, begins) then Some(i) else if i == |t| then None else FindHeader(t, i + 1, begins)
  }

  // `^\)` at k, behind a header
  predicate CloseAt(t: string, k: nat) {
    0 < k < |t| && t[k] == ')' && t[k - 1] == '\n'
  }

  function FindClose(t: string, k: nat): (r: Option<nat>)
    ensures r.Some? ==> k <= r.value && CloseAt(t, r.value) && forall m | k <= m < r.value :: !CloseAt(t, m)
    ensures r.None? ==> forall m | k <= m :: !CloseAt(t, m)
    decreases |t| - k
  {
    if CloseAt(t, k) then Some(k) else if k >= |t| then None else FindClose(t, k + 1)
  }

  // The first block: from the first header to the first closing line behind it. A header that is never closed ends
  // the search, since no later one is closed either.
  function FindBlock(t: string, begins: bool): (r: Option<(nat, nat)>)
    ensures r.Some? ==> r.value.0 < r.value.1 <= |t|
  {
    var start := FindHeader(t, 0, begins);
    if start.None? then None
    else
      var close := FindClose(t, start.value + |HEADER|);
      if close.None? then None
      else
        var e := close.value + 1;
        Some((start.value, if e < |t| && t[e] == '\n' then e + 1 else e))
  }

  datatype Document =
    | Rest(text: string)
    | Next(gap: string, block: string, rest: Document)

  predicate EndsLine(s: string) {
    s != "" && s[|s| - 1] == '\n'
  }

  function Parse(t: string, begins: bool): Document
    decreases |t|
  {
    var found := FindBlock(t, begins);
    if found.None? then Rest(t)
    else
      var (i, e) := found.value;
      Next(t[..i], t[i..e], Parse(t[e..], t[e - 1] == '\n'))
  }

  function Render(d: Document): string {
    match d
    case Rest(text) => text
    case Next(gap, block, rest) => gap + block + Render(rest)
  }

  // ---------------------------------------------------------------- the shape of a divided text

  function CloseOf(b: string): int {
    if EndsLine(b) then |b| - 2 else |b| - 1
  }

  // a header, no closing line but the last
  predicate BlockShape(b: string) {
    && StartsWith(b, 0, HEADER)
    && |HEADER| <= CloseOf(b) && CloseAt(b, CloseOf(b))
    && forall k | |HEADER| <= k < CloseOf(b) :: !CloseAt(b, k)
  }

  // no header before the one behind the gap
  predicate GapShape(g: string, begins: bool) {
    && (if g == "" then begins else EndsLine(g))
    && forall i | 0 <= i < |g| :: !HeaderAt(g + HEADER, i, begins)
  }

  predicate StartsWithBreak(s: string) {
    s != "" && s[0] == '\n'
  }

  predicate Shaped(d: Document, begins: bool) {
    match d
    case Rest(text) => FindBlock(text, begins).None?
    case Next(gap, block, rest) =>
      && GapShape(gap, begins) && BlockShape(block)
      && (EndsLine(block) || !StartsWithBreak(Render(rest)))
      && Shaped(rest, EndsLine(block))
  }

  lemma {:induction false} RenderParse(t: string, begins: bool)
    ensures Render(Parse(t, begins)) == t
    decreases |t|
  {
    hide *;
    var found := FindBlock(t, begins);
    if found.Some? {
      var (i, e) := found.value;
      ParseNext(t, begins, i, e);
      RenderParse(t[e..], t[e - 1] == '\n');
      RenderNext(t[..i], t[i..e], Parse(t[e..], t[e - 1] == '\n'));
      assert t[..i] + t[i..e] + t[e..] == t;
    } else {
      ParseRest(t, begins);
      RenderRest(t);
    }
  }

  lemma RenderRest(t: string)
    ensures Render(Rest(t)) == t
  {
  }

  lemma RenderNext(gap: string, block: string, rest: Document)
    ensures Render(Next(gap, block, rest)) == gap + block + Render(rest)
  {
  }

  lemma {:induction false} ParseShaped(t: string, begins: bool)
    ensures Shaped(Parse(t, begins), begins)
    decreases |t|
  {
    hide *;
    var found := FindBlock(t, begins);
    if found.Some? {
      var (i, e) := found.value;
      FoundShape(t, begins, i, e);
      ParseShaped(t[e..], t[e - 1] == '\n');
      RenderParse(t[e..], t[e - 1] == '\n');
      assert t[i..e][|t[i..e]| - 1] == t[e - 1];
      assert EndsLine(t[i..e]) == (t[e - 1] == '\n') by { EndsLineIs(t[i..e]); }
      ParseNext(t, begins, i, e);
      ShapedNext(t[..i], t[i..e], Parse(t[e..], t[e - 1] == '\n'), begins);
    } else {
      ParseRest(t, begins);
    }
  }

  lemma EndsLineIs(s: string)
    requires s != ""
    ensures EndsLine(s) == (s[|s| - 1] == '\n')
  {
  }

  lemma ParseNext(t: string, begins: bool, i: nat, e: nat)
    requires FindBlock(t, begins) == Some((i, e))
    ensures i < e <= |t| && Parse(t, begins) == Next(t[..i], t[i..e], Parse(t[e..], t[e - 1] == '\n'))
  {
    hide FindBlock;
  }

  lemma ParseRest(t: string, begins: bool)
    requires FindBlock(t, begins) == None
    ensures Parse(t, begins) == Rest(t) && Shaped(Rest(t), begins)
  {
    hide FindBlock;
  }

  lemma ShapedNext(gap: string, block: string, rest: Document, begins: bool)
    requires GapShape(gap, begins) && BlockShape(block) && (EndsLine(block) || !StartsWithBreak(Render(rest)))
    requires Shaped(rest, EndsLine(block))
    ensures Shaped(Next(gap, block, rest), begins)
  {
    hide GapShape, BlockShape, EndsLine, StartsWithBreak, Render, FindBlock;
  }

  lemma FoundShape(t: string, begins: bool, i: nat, e: nat)
    requires FindBlock(t, begins) == Some((i, e))
    ensures i < e <= |t| && GapShape(t[..i], begins) && BlockShape(t[i..e])
    ensures EndsLine(t[i..e]) || !StartsWithBreak(t[e..])
  {
    FoundGap(t, begins, i);
    var c := FindClose(t, i + |HEADER|).value;
    FoundBlockShape(t, i, c, e);
  }

  lemma SliceOfPrefix(t: string, h: string, i: nat, j: nat)
    requires |h| <= |t| && t[..|h|] == h && i <= j <= |h|
    ensures t[i..j] == h[i..j]
  {
    assert t[..|h|][i..j] == t[i..j];
  }

  lemma FoundGap(t: string, begins: bool, i: nat)
    requires FindHeader(t, 0, begins) == Some(i)
    ensures GapShape(t[..i], begins)
  {
    var g := t[..i];
    forall k | 0 <= k < |g| ensures !HeaderAt(g + HEADER, k, begins) {
      assert t[..i + |HEADER|] == g + HEADER;
      assert !HeaderAt(t, k, begins);
      SliceOfPrefix(t, g + HEADER, k, k + |HEADER|);
    }
  }

  lemma FoundBlockShape(t: string, i: nat, c: nat, e: nat)
    requires StartsWith(t, i, HEADER) && i + |HEADER| <= c && CloseAt(t, c)
      && forall m | i + |HEADER| <= m < c :: !CloseAt(t, m)
    requires e == if c + 1 < |t| && t[c + 1] == '\n' then c + 2 else c + 1
    ensures BlockShape(t[i..e]) && (EndsLine(t[i..e]) || !StartsWithBreak(t[e..]))
  {
    var b := t[i..e];
    assert forall k | 0 <= k < |b| :: b[k] == t[i + k];
    assert b[..|HEADER|] == t[i..i + |HEADER|];
    assert CloseOf(b) == c - i;
    forall k | |HEADER| <= k < c - i ensures !CloseAt(b, k) {
      assert !CloseAt(t, i + k);
    }
  }

  // A shaped division is the one that parsing finds.
  lemma {:induction false} ParseRender(d: Document, begins: bool)
    requires Shaped(d, begins)
    ensures Parse(Render(d), begins) == d
    decreases d
  {
    hide *;
    if d.Rest? {
      RestParts(d, begins);
      ParseRest(d.text, begins);
    } else {
      NextParts(d, begins);
      FindShaped(d.gap, d.block, Render(d.rest), begins);
      ParseRender(d.rest, EndsLine(d.block));
      var t, i, e := Render(d), |d.gap|, |d.gap| + |d.block|;
      ParseNext(t, begins, i, e);
      CutThree(d.gap, d.block, Render(d.rest));
      EndsLineIs(d.block);
    }
  }

  lemma RestParts(d: Document, begins: bool)
    requires d.Rest? && Shaped(d, begins)
    ensures FindBlock(d.text, begins).None? && Render(d) == d.text
  {
    hide FindBlock;
  }

  lemma NextParts(d: Document, begins: bool)
    requires d.Next? && Shaped(d, begins)
    ensures GapShape(d.gap, begins) && BlockShape(d.block) && (EndsLine(d.block) || !StartsWithBreak(Render(d.rest)))
    ensures Shaped(d.rest, EndsLine(d.block)) && Render(d) == d.gap + d.block + Render(d.rest) && d.block != ""
  {
    hide GapShape, EndsLine;
  }

  lemma CutThree(g: string, b: string, x: string)
    ensures var t, i, e := g + b + x, |g|, |g| + |b|;
      t[..i] == g && t[i..e] == b && t[e..] == x && (b != "" ==> t[e - 1] == b[|b| - 1])
  {
  }

  lemma FindShaped(g: string, b: string, x: string, begins: bool)
    requires GapShape(g, begins) && BlockShape(b) && (EndsLine(b) || !StartsWithBreak(x))
    ensures FindBlock(g + b + x, begins) == Some((|g|, |g| + |b|))
  {
    FindHeaderShaped(g, b, x, begins);
    FindCloseShaped(g, b, x);
    BlockEnds(g, b, x);
    hide GapShape, FindHeader, FindClose, BlockShape, EndsLine, StartsWithBreak, CloseOf;
  }

  // where the match of a block ends
  lemma BlockEnds(g: string, b: string, x: string)
    requires BlockShape(b) && (EndsLine(b) || !StartsWithBreak(x))
    ensures var t, e := g + b + x, |g| + CloseOf(b) + 1;
      |g| < e <= |t| && (if e < |t| && t[e] == '\n' then e + 1 else e) == |g| + |b|
  {
    var t, c := g + b + x, |g| + CloseOf(b);
    if !EndsLine(b) { assert x != "" ==> t[c + 1] == x[0]; }
    else { assert t[c + 1] == b[|b| - 1]; }
  }

  lemma FindHeaderShaped(g: string, b: string, x: string, begins: bool)
    requires GapShape(g, begins) && BlockShape(b)
    ensures FindHeader(g + b + x, 0, begins) == Some(|g|)
  {
    var t := g + b + x;
    forall k | 0 <= k < |g| ensures !HeaderAt(t, k, begins) {
      var h := g + HEADER;
      assert !HeaderAt(h, k, begins);
      assert b[..|HEADER|] == HEADER;
      assert t[..|h|] == h;
      SliceOfPrefix(t, h, k, k + |HEADER|);
    }
    assert t[|g|..|g| + |HEADER|] == b[..|HEADER|];
    assert HeaderAt(t, |g|, begins);
    HeaderIs(t, |g|, begins);
  }

  lemma HeaderIs(t: string, i: nat, begins: bool)
    requires i <= |t| && HeaderAt(t, i, begins) && forall k | 0 <= k < i :: !HeaderAt(t, k, begins)
    ensures FindHeader(t, 0, begins) == Some(i)
  {
  }

  lemma FindCloseShaped(g: string, b: string, x: string)
    requires BlockShape(b)
    ensures FindClose(g + b + x, |g| + |HEADER|) == Some(|g| + CloseOf(b))
  {
    var t, c := g + b + x, CloseOf(b);
    assert forall k | 0 <= k < |b| :: t[|g| + k] == b[k];
    forall m | |g| + |HEADER| <= m < |g| + c ensures !CloseAt(t, m) {
      assert !CloseAt(b, m - |g|);
      assert t[m] == b[m - |g|] && t[m - 1] == b[m - |g| - 1];
    }
    assert CloseAt(t, |g| + c) by { assert t[|g| + c] == b[c] && t[|g| + c - 1] == b[c - 1]; }
  }

  // ---------------------------------------------------------------- rewriting the blocks

  // The same text outside the blocks, and each block replaced by one that ends alike.
  predicate SameLayout(d: Document, e: Document) {
    match d
    case Rest(text) => e == d
    case Next(gap, block, rest) =>
      e.Next? && e.gap == gap && BlockShape(e.block) && EndsLine(e.block) == EndsLine(block) && SameLayout(rest, e.rest)
  }

  lemma {:induction false} LayoutKeepsShape(d: Document, e: Document, begins: bool)
    requires Shaped(d, begins) && SameLayout(d, e)
    ensures Shaped(e, begins) && StartsWithBreak(Render(e)) == StartsWithBreak(Render(d))
    decreases d
  {
    if d.Next? {
      LayoutKeepsShape(d.rest, e.rest, EndsLine(d.block));
      BlockHead(d.block);
      BlockHead(e.block);
      hide GapShape, BlockShape, FindBlock;
      StartOf(d.gap, d.block, Render(d.rest));
      StartOf(e.gap, e.block, Render(e.rest));
    }
  }

  lemma BlockHead(b: string)
    requires BlockShape(b)
    ensures b != "" && b[0] == 'h'
  {
    assert b[0] == b[..|HEADER|][0];
  }

  lemma StartOf(g: string, b: string, x: string)
    requires b != ""
    ensures StartsWithBreak(g + b + x) == if g == "" then StartsWithBreak(b) else StartsWithBreak(g)
  {
  }

  lemma BlockIsClosed(b: string)
    requires BlockShape(b)
    ensures Closed(b)
  {
  }

  // A line inserted or replaced behind the header leaves one block: no line it adds starts with a parenthesis.
  lemma SpliceShape(b: string, p: nat, w: string, c: string, off: nat)
    requires BlockShape(b) && |HEADER| <= p <= off <= CloseOf(b) && AllSpaces(w, 0, |w|) && IsDigest(c)
    requires b[off - 1] == '\n'
    ensures var u := ShaText(b[..p] + w, c, b[off..]); BlockShape(u) && EndsLine(u) == EndsLine(b)
  {
    var q, s := b[..p] + w, b[off..];
    var u := ShaText(q, c, s);
    SpliceBack(q, c, b, off);
    SpliceEnd(q, c, b, off);
    ShaTextLine(q, c, s);
    assert u[..|HEADER|] == b[..|HEADER|] by { SpliceFront(b, p, w, c, s, |HEADER|); }
    hide ShaText, IsDigest, AllSpaces;
    forall k | |HEADER| <= k < CloseOf(u) ensures !CloseAt(u, k) {
      SpliceNoClose(b, p, w, c, off, k);
    }
  }

  lemma SpliceFront(b: string, p: nat, w: string, c: string, s: string, k: nat)
    requires k <= p <= |b|
    ensures var u := ShaText(b[..p] + w, c, s); k <= |u| && u[..k] == b[..k]
  {
  }

  // Behind the line the characters are those of the old block.
  lemma SpliceBack(q: string, c: string, b: string, off: nat)
    requires off <= |b|
    ensures var u, n := ShaText(q, c, b[off..]), |q| + 13 + |c|;
      |u| == n + |b| - off && (n > 0 ==> u[n - 1] == '\n') && forall m | n <= m < |u| :: u[m] == b[m - n + off]
  {
    var s := b[off..];
    ShaTextChars(q, c, s);
    var u, n := ShaText(q, c, s), |q| + 13 + |c|;
    forall m | n <= m < |u| ensures u[m] == b[m - n + off] {
      assert u[n..][m - n] == s[m - n];
    }
  }

  lemma SpliceEnd(q: string, c: string, b: string, off: nat)
    requires BlockShape(b) && off <= CloseOf(b) && off > 0 && b[off - 1] == '\n'
    ensures var u := ShaText(q, c, b[off..]);
      EndsLine(u) == EndsLine(b) && CloseOf(u) == CloseOf(b) + |u| - |b| && CloseAt(u, CloseOf(u))
  {
    SpliceBack(q, c, b, off);
    hide ShaText;
  }

  lemma SpliceNoClose(b: string, p: nat, w: string, c: string, off: nat, k: nat)
    requires BlockShape(b) && |HEADER| <= p <= off <= CloseOf(b) && AllSpaces(w, 0, |w|) && IsDigest(c)
    requires b[off - 1] == '\n'
    requires |HEADER| <= k < CloseOf(b) + |ShaText(b[..p] + w, c, b[off..])| - |b|
    ensures !CloseAt(ShaText(b[..p] + w, c, b[off..]), k)
  {
    var q, s := b[..p] + w, b[off..];
    var u := ShaText(q, c, s);
    var n := |q| + 13 + |c|;
    SpliceBack(q, c, b, off);
    NoParenthesisAdded(q, c, s, k);
    ShaTextChars(q, c, s);
    assert k < |q| ==> u[k] == q[k] && u[k - 1] == q[k - 1];
    hide ShaText, IsDigest;
    if k < p { assert !CloseAt(b, k); }
    else if k < |q| { assert q[k] == w[k - p]; }
    else if k >= n { assert !CloseAt(b, k - n + off); }
  }

  lemma NoParenthesisAdded(q: string, c: string, s: string, k: nat)
    requires IsDigest(c)
    ensures var u := ShaText(q, c, s); |q| <= k < |q| + 13 + |c| ==> u[k] != ')'
  {
    var u := ShaText(q, c, s);
    ShaTextChars(q, c, s);
    if |q| <= k < |q| + 10 { assert u[|q| + (k - |q|)] == "sha256 = \""[k - |q|]; }
    else if |q| + 10 <= k < |q| + 10 + |c| { assert u[|q| + 10 + (k - |q| - 10)] == c[k - |q| - 10]; }
  }

  // No field name stands in the header line.
  lemma BehindHeader(b: string, j: nat, field: string)
    requires BlockShape(b) && j < |b| && FirstOnLine(b, j) && StartsWith(b, j, field) && field != ""
    requires 'a' <= field[0] <= 'z' && field[0] != 'h'
    ensures |HEADER| <= j
  {
    if j < |HEADER| {
      assert forall k | 0 <= k < |HEADER| :: b[k] == HEADER[k] by { assert b[..|HEADER|] == HEADER; }
      var i :| 0 <= i <= j && LineStart(b, i) && AllSpaces(b, i, j);
      assert i == 0;
      assert !IsSpace(b[0]);
      assert j == 0;
      StartsWithFirst(b, j, field);
    }
  }

  lemma BackStart(b: string, k: nat)
    requires BlockShape(b) && 2 <= k <= |b| && b[k - 1] == '\n' && b[k - 2] != ')'
    ensures k <= CloseOf(b)
  {
  }

  lemma UpdateKeepsShape(b: string, c: string)
    requires BlockShape(b) && IsDigest(c) && WithSha(b, c).Ok?
    ensures BlockShape(WithSha(b, c).value) && EndsLine(WithSha(b, c).value) == EndsLine(b)
  {
    hide *;
    BlockIsClosed(b);
    UpdatedBlock(b, c);
    if FindHex(b, 0).Some? { ReplaceKeepsShape(b, c, FindHex(b, 0).value); } else { InsertKeepsShape(b, c); }
  }

  lemma ReplaceKeepsShape(b: string, c: string, at: nat)
    requires BlockShape(b) && IsDigest(c) && FindHex(b, 0) == Some(at)
    ensures WithSha(b, c).Ok? && BlockShape(WithSha(b, c).value) && EndsLine(WithSha(b, c).value) == EndsLine(b)
  {
    hide *;
    BlockIsClosed(b);
    ReplaceShape(b, c, at);
    HexRegion(b, at);
    HexEndVisible(b, at);
    HexStart(b, at);
    BehindHeader(b, at, SHA);
    BackStart(b, HexEnd(b, at) + 1);
    NoSpaces();
    SpliceShape(b, at, "", c, HexEnd(b, at) + 1);
    assert b[..at] + "" == b[..at];
  }

  lemma InsertKeepsShape(b: string, c: string)
    requires BlockShape(b) && IsDigest(c) && FindHex(b, 0).None? && FindInsert(b, 0).Some?
    ensures WithSha(b, c).Ok? && BlockShape(WithSha(b, c).value) && EndsLine(WithSha(b, c).value) == EndsLine(b)
  {
    hide *;
    BlockIsClosed(b);
    InsertShape(b, c);
    UpperFacts(b);
    var path := FindInsert(b, 0).value;
    var at := InsertionPoint(b, path);
    InsertEndVisible(b, path);
    InsertStart(b, path);
    BehindHeader(b, path, PATH);
    BackStart(b, at);
    SpliceShape(b, at, Indent(b), c, at);
    assert Back(b) == b[at..];
  }

  lemma NoSpaces()
    ensures AllSpaces("", 0, 0)
  {
  }

  lemma HexStart(b: string, at: nat)
    requires at <= |b| && HexAt(b, at)
    ensures at < |b| && FirstOnLine(b, at) && StartsWith(b, at, SHA) && SHA != "" && 'a' <= SHA[0] <= 'z'
      && SHA[0] != 'h'
    ensures at <= HexEnd(b, at)
  {
    assert SHA[0] == 's';
  }

  lemma InsertStart(b: string, path: nat)
    requires path <= |b| && InsertAfter(b, path)
    ensures path < |b| && FirstOnLine(b, path) && StartsWith(b, path, PATH) && PATH != "" && 'a' <= PATH[0] <= 'z'
      && PATH[0] != 'h'
    ensures path <= InsertionPoint(b, path)
  {
    assert PATH[0] == 'd';
  }
}
