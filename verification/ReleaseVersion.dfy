/** Codex versions: their normal form, and the release tag that stands for it. */
module ReleaseVersion {
  import opened Prelude
  import opened PythonText

  // ---------------------------------------------------------------- text

  // the end of the digits at i
  function SkipDigits(s: string, i: nat): (e: nat)
    requires i <= |s|
    ensures i <= e <= |s| && (forall k | i <= k < e :: IsDigit(s[k])) && (e < |s| ==> !IsDigit(s[e]))
    decreases |s| - i
  {
    if i < |s| && IsDigit(s[i]) then SkipDigits(s, i + 1) else i
  }

  function StripFront(s: string): (r: string)
    ensures r == "" || !IsSpace(r[0])
    ensures s == "" || IsSpace(s[0]) || r == s
  {
    if s != "" && IsSpace(s[0]) then StripFront(s[1..]) else s
  }

  function StripBack(s: string): (r: string)
    ensures r == "" || !IsSpace(r[|r| - 1])
    ensures s == "" || IsSpace(s[|s| - 1]) || r == s
  {
    if s != "" && IsSpace(s[|s| - 1]) then StripBack(s[..|s| - 1]) else s
  }

  // str.strip
  function Strip(s: string): string {
    StripBack(StripFront(s))
  }

  function LastDash(s: string): (d: Option<nat>)
    ensures d.Some? ==> d.value < |s| && s[d.value] == '-' && forall k | d.value < k < |s| :: s[k] != '-'
    ensures d.None? ==> forall k | 0 <= k < |s| :: s[k] != '-'
  {
    if s == "" then None else if s[|s| - 1] == '-' then Some(|s| - 1) else LastDash(s[..|s| - 1])
  }

  // ---------------------------------------------------------------- the accepted versions

  datatype Version = Version(base: string, pre: Option<(string, string)>, post: Option<string>)

  // [0-9]+(?:\.[0-9]+)*
  predicate IsBase(s: string) {
    && s != "" && IsDigit(s[0]) && IsDigit(s[|s| - 1])
    && (forall k | 0 <= k < |s| :: IsDigit(s[k]) || s[k] == '.')
    && forall k | 0 <= k < |s| - 1 && s[k] == '.' :: IsDigit(s[k + 1])
  }

  predicate IsKind(s: string) {
    s == "a" || s == "b" || s == "rc"
  }

  predicate WellFormed(v: Version) {
    && IsBase(v.base)
    && (v.pre.Some? ==> IsKind(v.pre.value.0) && IsNumber(v.pre.value.1))
    && (v.post.Some? ==> IsNumber(v.post.value))
  }

  function ShownPre(v: Version): string {
    if v.pre.Some? then v.pre.value.0 + v.pre.value.1 else ""
  }

  function ShownPost(v: Version): string {
    if v.post.Some? then ".post" + v.post.value else ""
  }

  function Shown(v: Version): string {
    v.base + ShownPre(v) + ShownPost(v)
  }

  // the leading digits and dots
  function SkipBase(s: string, i: nat): (e: nat)
    requires i <= |s|
    ensures i <= e <= |s| && (forall k | i <= k < e :: IsDigit(s[k]) || s[k] == '.')
    ensures e < |s| ==> !IsDigit(s[e]) && s[e] != '.'
    decreases |s| - i
  {
    if i < |s| && (IsDigit(s[i]) || s[i] == '.') then SkipBase(s, i + 1) else i
  }

  function BaseEnd(s: string): (e: nat)
    ensures e <= |s|
  {
    var n := SkipBase(s, 0);
    if n > 0 && s[n - 1] == '.' then n - 1 else n
  }

  function ReadPost(base: string, pre: Option<(string, string)>, t: string): Option<Version> {
    if t == "" then Some(Version(base, pre, None))
    else if ".post" <= t && IsNumber(t[5..]) then Some(Version(base, pre, Some(t[5..])))
    else None
  }

  function KindLength(t: string): (k: nat)
    ensures k <= |t| && (k > 0 ==> IsKind(t[..k]))
  {
    if "rc" <= t then 2 else if "a" <= t || "b" <= t then 1 else 0
  }

  function ReadTail(base: string, t: string): Option<Version> {
    var k := KindLength(t);
    if k == 0 then ReadPost(base, None, t)
    else
      var d := SkipDigits(t, k);
      if d == k then None else ReadPost(base, Some((t[..k], t[k..d])), t[d..])
  }

  // the fullmatch of [0-9]+(?:\.[0-9]+)*(?:(?:a|b|rc)[0-9]+)?(?:\.post[0-9]+)?
  function Read(s: string): Option<Version> {
    var e := BaseEnd(s);
    if IsBase(s[..e]) then ReadTail(s[..e], s[e..]) else None
  }

  // ---------------------------------------------------------------- normal forms and tags

  // re.sub(r"-alpha\.?([0-9]+)\.([0-9]+)$", r"a\1.post\2"): what matches begins at the last dash
  function SubHotfix(s: string): string {
    var d := LastDash(s);
    if d.None? || !("alpha" <= s[d.value + 1..]) then s
    else
      var w := AfterDot(s[d.value + 6..]);
      var k := SkipDigits(w, 0);
      if 0 < k < |w| && w[k] == '.' && IsNumber(w[k + 1..]) then s[..d.value] + "a" + w[..k] + ".post" + w[k + 1..]
        else s
  }

  // re.sub(r"-<name>\.?([0-9]+)$", r"<kind>\1")
  function SubKind(s: string, name: string, kind: string): string {
    var d := LastDash(s);
    if d.None? || !(name <= s[d.value + 1..]) then s
    else
      var w := AfterDot(s[d.value + 1 + |name|..]);
      if IsNumber(w) then s[..d.value] + kind + w else s
  }

  function AfterDot(s: string): string {
    if s != "" && s[0] == '.' then s[1..] else s
  }

  function WithoutPrefix(s: string): string {
    if "rust-v" <= s then s[6..] else if "v" <= s then s[1..] else s
  }

  function Substituted(s: string): string {
    SubKind(SubKind(SubKind(SubHotfix(s), "alpha", "a"), "beta", "b"), "rc", "rc")
  }

  // `normalize_codex_version`, None where it raises
  function Normalize(version: string): Option<string> {
    var normalized := Substituted(WithoutPrefix(Strip(version)));
    if Read(normalized).Some? then Some(normalized) else None
  }

  function KindName(kind: string): string {
    if kind == "a" then "alpha" else if kind == "b" then "beta" else "rc"
  }

  function Released(v: Version): string {
    if v.pre.Some? && v.pre.value.0 == "a" && v.post.Some? then v.base + "-alpha." + v.pre.value.1 + "." + v.post.value
    else if v.pre.Some? && v.post.None? then v.base + "-" + KindName(v.pre.value.0) + "." + v.pre.value.1
    else Shown(v)
  }

  // `codex_release_version`
  function ReleaseOf(version: string): Option<string> {
    var normalized := Normalize(version);
    if normalized.None? then None else Some(Released(Read(normalized.value).value))
  }

  // `codex_release_tag`
  function Tag(version: string): Option<string> {
    var release := ReleaseOf(version);
    if release.None? then None else Some("rust-v" + release.value)
  }

  // ---------------------------------------------------------------- reading inverts showing

  lemma ReadShows(s: string)
    requires Read(s).Some?
    ensures WellFormed(Read(s).value) && Shown(Read(s).value) == s
  {
    var e := BaseEnd(s);
    var base, t := s[..e], s[e..];
    assert s == base + t;
    hide IsBase, IsNumber;
    ReadTailShows(base, t);
  }

  lemma ReadTailShows(base: string, t: string)
    requires IsBase(base) && ReadTail(base, t).Some?
    ensures WellFormed(ReadTail(base, t).value) && Shown(ReadTail(base, t).value) == base + t
  {
    var k := KindLength(t);
    hide IsBase;
    if k == 0 {
      ReadPostShows(base, None, t);
      assert base + "" + t == base + t;
    } else {
      var d := SkipDigits(t, k);
      assert IsNumber(t[k..d]);
      ReadPostShows(base, Some((t[..k], t[k..d])), t[d..]);
      assert t[..k] + t[k..d] + t[d..] == t;
      assert base + (t[..k] + t[k..d]) + t[d..] == base + t;
    }
  }

  lemma ReadPostShows(base: string, pre: Option<(string, string)>, t: string)
    requires ReadPost(base, pre, t).Some?
    ensures var v := ReadPost(base, pre, t).value;
      v.base == base && v.pre == pre && (v.post.Some? ==> IsNumber(v.post.value)) && ShownPost(v) == t
  {
    if t != "" { assert t == ".post" + t[5..]; }
  }

  lemma ShownReads(v: Version)
    requires WellFormed(v)
    ensures Read(Shown(v)) == Some(v)
  {
    var t := ShownPre(v) + ShownPost(v);
    assert Shown(v) == v.base + t;
    TailStart(v);
    BaseEndIs(v.base, t);
    assert (v.base + t)[..|v.base|] == v.base && (v.base + t)[|v.base|..] == t;
    hide IsBase, BaseEnd, ReadTail;
    ShownReadsTail(v);
  }

  // What follows the base: nothing, a letter, or a dot before a letter.
  predicate EndsBase(t: string) {
    t == "" || (!IsDigit(t[0]) && t[0] != '.') || (|t| > 1 && t[0] == '.' && !IsDigit(t[1]) && t[1] != '.')
  }

  lemma TailStart(v: Version)
    requires WellFormed(v)
    ensures EndsBase(ShownPre(v) + ShownPost(v))
  {
    var t := ShownPre(v) + ShownPost(v);
    if v.pre.Some? {
      var kind := v.pre.value.0;
      assert t[0] == kind[0];
    } else if v.post.Some? {
      assert t[0] == ".post"[0] && t[1] == ".post"[1];
    }
  }

  lemma BaseEndIs(base: string, t: string)
    requires IsBase(base) && EndsBase(t)
    ensures BaseEnd(base + t) == |base|
  {
    var s := base + t;
    assert forall k | 0 <= k < |base| :: s[k] == base[k];
    assert forall k | 0 <= k < |t| :: s[|base| + k] == t[k];
    var n := SkipBase(s, 0);
    assert n >= |base|;
    if t != "" && t[0] == '.' { assert s[|base| + 1] == t[1]; }
  }

  lemma ShownReadsTail(v: Version)
    requires WellFormed(v)
    ensures ReadTail(v.base, ShownPre(v) + ShownPost(v)) == Some(v)
  {
    var t := ShownPre(v) + ShownPost(v);
    PostReads(v);
    hide IsBase, ReadPost;
    if v.pre.None? {
      assert t == ShownPost(v);
      assert v.post.Some? ==> t[0] == ".post"[0];
      assert KindLength(t) == 0;
    } else {
      var (kind, number) := v.pre.value;
      PartsRead(kind, number, ShownPost(v));
      assert t == kind + number + ShownPost(v);
      KindLengthIs(t, kind);
    }
  }

  lemma PostReads(v: Version)
    requires WellFormed(v)
    ensures ReadPost(v.base, v.pre, ShownPost(v)) == Some(v)
  {
    if v.post.Some? { assert (".post" + v.post.value)[5..] == v.post.value; }
  }

  // the parts of a concatenation
  lemma Parts(a: string, b: string, c: string)
    ensures var s := a + b + c; |s| == |a| + |b| + |c| && s[..|a|] == a && s[|a|..|a| + |b|] == b && s[|a| + |b|..] == c
    ensures forall k | |a| <= k < |a| + |b| :: (a + b + c)[k] == b[k - |a|]
    ensures c != "" ==> (a + b + c)[|a| + |b|] == c[0]
    ensures a != "" ==> (a + b + c)[0] == a[0]
    ensures |a| > 1 ==> (a + b + c)[1] == a[1]
  {
  }

  lemma PartsRead(kind: string, number: string, rest: string)
    requires IsNumber(number) && (rest == "" || !IsDigit(rest[0]))
    ensures var t := kind + number + rest;
      && t[..|kind|] == kind && SkipDigits(t, |kind|) == |kind| + |number|
      && t[|kind|..|kind| + |number|] == number && t[|kind| + |number|..] == rest
  {
    hide *;
    Parts(kind, number, rest);
    NumberRead(kind + number + rest, |kind|, number, rest);
  }

  lemma NumberRead(t: string, i: nat, number: string, rest: string)
    requires |t| == i + |number| + |rest| && IsNumber(number) && (rest == "" || !IsDigit(rest[0]))
    requires forall k | i <= k < i + |number| :: t[k] == number[k - i]
    requires rest != "" ==> t[i + |number|] == rest[0]
    ensures SkipDigits(t, i) == i + |number|
  {
    hide SkipDigits;
    SkipDigitsIs(t, i, i + |number|);
  }

  lemma KindLengthIs(t: string, kind: string)
    requires IsKind(kind) && kind <= t
    ensures KindLength(t) == |kind|
  {
    assert t[0] == kind[0];
    assert kind == "rc" ==> t[1] == kind[1];
  }

  lemma SkipDigitsIs(s: string, i: nat, e: nat)
    requires i <= e <= |s| && (forall k | i <= k < e :: IsDigit(s[k])) && (e < |s| ==> !IsDigit(s[e]))
    ensures SkipDigits(s, i) == e
  {
  }

  // ---------------------------------------------------------------- the substitutions

  lemma NoDashNoSub(s: string)
    requires forall k | 0 <= k < |s| :: s[k] != '-'
    ensures Substituted(s) == s
  {
    assert LastDash(s).None?;
    assert SubHotfix(s) == s && SubKind(s, "alpha", "a") == s && SubKind(s, "beta", "b") == s
      && SubKind(s, "rc", "rc") == s;
  }

  lemma LastDashIs(base: string, tail: string)
    requires NoDash(tail)
    ensures LastDash(base + "-" + tail) == Some(|base|)
    ensures (base + "-" + tail)[..|base|] == base && (base + "-" + tail)[|base| + 1..] == tail
  {
    var s := base + "-" + tail;
    Parts(base, "-", tail);
    assert s[|base|] == '-';
    LastDashAt(s, |base|, tail);
  }

  lemma LastDashAt(s: string, d: nat, tail: string)
    requires d < |s| && s[d] == '-' && s[d + 1..] == tail && NoDash(tail)
    ensures LastDash(s) == Some(d)
  {
    forall k | d < k < |s| ensures s[k] != '-' { assert s[k] == tail[k - d - 1]; }
  }

  lemma ShownHasNoDash(v: Version)
    requires WellFormed(v)
    ensures forall k | 0 <= k < |Shown(v)| :: Shown(v)[k] != '-'
  {
    NoDashConcat(v.base, ShownPre(v));
    NoDashConcat(v.base + ShownPre(v), ShownPost(v));
    assert NoDash(v.base);
    assert NoDash(ShownPre(v)) by { if v.pre.Some? { NoDashConcat(v.pre.value.0, v.pre.value.1); } }
    assert NoDash(ShownPost(v)) by { if v.post.Some? { NoDashConcat(".post", v.post.value); } }
  }

  predicate NoDash(s: string) {
    forall k | 0 <= k < |s| :: s[k] != '-'
  }

  lemma NoDashConcat(a: string, b: string)
    ensures NoDash(a + b) <==> NoDash(a) && NoDash(b)
  {
    if NoDash(a + b) {
      assert forall k | 0 <= k < |a| :: (a + b)[k] == a[k];
      assert forall k | 0 <= k < |b| :: (a + b)[|a| + k] == b[k];
    }
  }

  lemma HotfixSubstituted(base: string, n: string, m: string)
    requires IsNumber(n) && IsNumber(m)
    ensures SubHotfix(base + "-" + ("alpha." + n + "." + m)) == base + "a" + n + ".post" + m
  {
    var tail := "alpha." + n + "." + m;
    NumberTail("alpha.", n, m);
    LastDashIs(base, tail);
    assert tail == "alpha." + (n + "." + m);
    hide LastDash, NoDash, AllDigits, SkipDigits, AfterDot, IsNumber, SubHotfix;
    AlphaTail(n + "." + m, tail);
    NumbersSplit(n, m);
    HotfixAt(base + "-" + tail, |base|, n, m);
  }

  lemma NumbersSplit(n: string, m: string)
    requires IsNumber(n) && IsNumber(m)
    ensures var w := n + "." + m;
      SkipDigits(w, 0) == |n| && 0 < |n| < |w| && w[|n|] == '.' && w[..|n|] == n && w[|n| + 1..] == m
  {
    Parts(n, ".", m);
    SkipDigitsIs(n + "." + m, 0, |n|);
    hide SkipDigits;
  }

  lemma HotfixAt(s: string, d: nat, n: string, m: string)
    requires LastDash(s) == Some(d) && d < |s| && "alpha" <= s[d + 1..] && AfterDot(s[d + 1..][5..]) == n + "." + m
    requires SkipDigits(n + "." + m, 0) == |n| && 0 < |n| && IsNumber(m)
    ensures SubHotfix(s) == s[..d] + "a" + n + ".post" + m
  {
    var w := n + "." + m;
    hide LastDash, AfterDot, SkipDigits, IsNumber;
    assert s[d + 1..][5..] == s[d + 6..];
    assert w[|n|] == '.' && w[..|n|] == n && w[|n| + 1..] == m;
  }

  lemma AlphaTail(w: string, tail: string)
    requires tail == "alpha." + w && w != ""
    ensures "alpha" <= tail && AfterDot(tail[5..]) == w
  {
    assert tail[5..] == "." + w && ("." + w)[1..] == w;
  }

  lemma NumberTail(word: string, n: string, m: string)
    requires NoDash(word) && AllDigits(n) && AllDigits(m)
    ensures NoDash(word + n + "." + m) && NoDash(word + n)
  {
    assert NoDash(n) && NoDash(m) && NoDash(".");
    NoDashConcat(word, n);
    NoDashConcat(word + n, ".");
    NoDashConcat(word + n + ".", m);
  }

  lemma KindSubstituted(base: string, name: string, kind: string, n: string)
    requires IsNumber(n) && NoDash(name)
    ensures SubKind(base + "-" + (name + "." + n), name, kind) == base + kind + n
  {
    var tail := name + "." + n;
    NumberTail(name, "", n);
    assert name + "" + "." + n == tail;
    NameTail(name, n, tail);
    LastDashIs(base, tail);
    SubKindIs(base + "-" + tail, base, tail, name, kind, n);
  }

  lemma NameTail(name: string, n: string, tail: string)
    requires tail == name + "." + n
    ensures name <= tail && AfterDot(tail[|name|..]) == n
  {
    Parts(name, ".", n);
    DotBefore(tail[|name|..], n);
  }

  lemma SubKindIs(s: string, base: string, tail: string, name: string, kind: string, n: string)
    requires |base| < |s| && LastDash(s) == Some(|base|) && s[..|base|] == base && s[|base| + 1..] == tail
    requires name <= tail && AfterDot(tail[|name|..]) == n && IsNumber(n)
    ensures SubKind(s, name, kind) == base + kind + n
  {
    hide LastDash, AfterDot, IsNumber;
    assert s[|base| + 1 + |name|..] == s[|base| + 1..][|name|..];
  }

  lemma DotBefore(t: string, n: string)
    requires t != "" && t[0] == '.' && t[1..] == n
    ensures AfterDot(t) == n
  {
  }

  // A suffix of another name is left alone.
  lemma OtherNameKept(base: string, name: string, n: string, other: string, kind: string)
    requires NoDash(name + "." + n) && !(other <= name + "." + n)
    ensures SubKind(base + "-" + (name + "." + n), other, kind) == base + "-" + (name + "." + n)
    ensures other == "alpha" ==> SubHotfix(base + "-" + (name + "." + n)) == base + "-" + (name + "." + n)
  {
    LastDashIs(base, name + "." + n);
  }

  lemma PlainAlphaKept(base: string, n: string)
    requires IsNumber(n)
    ensures SubHotfix(base + "-" + ("alpha" + "." + n)) == base + "-" + ("alpha" + "." + n)
  {
    var tail := "alpha" + "." + n;
    var s := base + "-" + tail;
    NumberTail("alpha.", n, "");
    assert tail == "alpha." + n;
    LastDashIs(base, tail);
    assert s[|base| + 6..] == tail[5..] == "." + n;
    assert ("." + n)[1..] == n;
    SkipDigitsIs(n, 0, |n|);
  }

  lemma ReleasedSubstituted(v: Version)
    requires WellFormed(v)
    ensures Substituted(Released(v)) == Shown(v)
  {
    ShownHasNoDash(v);
    NoDashNoSub(Shown(v));
    hide SubHotfix, SubKind, IsBase, LastDash;
    if v.pre.Some? && v.pre.value.0 == "a" && v.post.Some? {
      HotfixTag(v.base, v.pre.value.1, v.post.value, v);
    } else if v.pre.Some? && v.post.None? {
      KindTag(v.base, v.pre.value.0, v.pre.value.1, v);
    }
  }

  lemma HotfixTag(base: string, n: string, m: string, v: Version)
    requires v == Version(base, Some(("a", n)), Some(m)) && IsNumber(n) && IsNumber(m) && NoDash(Shown(v))
    ensures Substituted(base + "-alpha." + n + "." + m) == Shown(v)
  {
    hide *;
    HotfixSubstituted(base, n, m);
    SubsOfNoDash(Shown(v));
    HotfixShown(v);
    assert "-alpha." == "-" + "alpha.";
    Regroup(base, "-", "alpha.", n, ".", m);
    SubstitutedIs(base + "-alpha." + n + "." + m, Shown(v));
  }

  lemma SubstitutedIs(s: string, t: string)
    requires SubHotfix(s) == t && SubKind(t, "alpha", "a") == t && SubKind(t, "beta", "b") == t
      && SubKind(t, "rc", "rc") == t
    ensures Substituted(s) == t
  {
    hide SubHotfix, SubKind;
  }

  lemma Regroup(a: string, b: string, c: string, d: string, e: string, f: string)
    ensures a + (b + c) + d + e + f == a + b + (c + d + e + f)
  {
  }

  lemma HotfixShown(v: Version)
    requires v.pre.Some? && v.pre.value.0 == "a" && v.post.Some?
    ensures Shown(v) == v.base + "a" + v.pre.value.1 + ".post" + v.post.value
  {
    var n, m := v.pre.value.1, v.post.value;
    assert v.base + ("a" + n) + (".post" + m) == v.base + "a" + n + ".post" + m;
  }

  lemma SubsOfNoDash(s: string)
    requires NoDash(s)
    ensures SubHotfix(s) == s && SubKind(s, "alpha", "a") == s && SubKind(s, "beta", "b") == s
      && SubKind(s, "rc", "rc") == s
  {
    assert LastDash(s).None?;
  }

  lemma KindTag(base: string, kind: string, n: string, v: Version)
    requires v == Version(base, Some((kind, n)), None) && IsKind(kind) && IsNumber(n) && NoDash(Shown(v))
    ensures Substituted(base + "-" + KindName(kind) + "." + n) == Shown(v)
  {
    var name := KindName(kind);
    var s := base + "-" + (name + "." + n);
    assert base + "-" + name + "." + n == s;
    assert base + kind + n == Shown(v) by { assert base + (kind + n) + "" == base + kind + n; }
    NumberTail(name, "", n);
    assert name + "" + "." + n == name + "." + n;
    SubsOfNoDash(Shown(v));
    KindSubstituted(base, name, kind, n);
    NamesDiffer(name, n);
    if kind == "a" {
      PlainAlphaKept(base, n);
    } else {
      OtherNameKept(base, name, n, "alpha", "a");
      if kind == "rc" { OtherNameKept(base, name, n, "beta", "b"); }
    }
    hide SubHotfix, SubKind;
  }

  lemma NamesDiffer(name: string, n: string)
    requires name == "alpha" || name == "beta" || name == "rc"
    ensures name != "alpha" ==> !("alpha" <= name + "." + n)
    ensures name == "rc" ==> !("beta" <= name + "." + n)
  {
    assert (name + "." + n)[0] == name[0];
    assert "alpha"[0] == 'a' && "beta"[0] == 'b';
  }

  // ---------------------------------------------------------------- the theorems

  lemma DigitsAtEnds(v: Version)
    requires WellFormed(v)
    ensures var s := Shown(v); s != "" && IsDigit(s[0]) && IsDigit(s[|s| - 1])
    ensures var s := Released(v); s != "" && IsDigit(s[0]) && IsDigit(s[|s| - 1])
  {
    var s := Shown(v);
    assert s[0] == v.base[0];
    assert Released(v)[0] == v.base[0];
    if v.post.Some? {
      assert s[|s| - 1] == v.post.value[|v.post.value| - 1];
      assert Released(v)[|Released(v)| - 1] == v.post.value[|v.post.value| - 1];
    } else if v.pre.Some? {
      assert s[|s| - 1] == v.pre.value.1[|v.pre.value.1| - 1];
      assert Released(v)[|Released(v)| - 1] == v.pre.value.1[|v.pre.value.1| - 1];
    }
  }

  lemma StripKeeps(s: string)
    requires s != "" && !IsSpace(s[0]) && !IsSpace(s[|s| - 1])
    ensures Strip(s) == s
  {
  }

  lemma DigitIsNoSpace(c: char)
    requires IsDigit(c)
    ensures !IsSpace(c) && c != 'r' && c != 'v'
  {
  }

  // A normal form is its own normal form.
  lemma NormalForms(v: Version)
    requires WellFormed(v)
    ensures Normalize(Shown(v)) == Some(Shown(v))
  {
    var s := Shown(v);
    DigitsAtEnds(v);
    DigitIsNoSpace(s[0]);
    DigitIsNoSpace(s[|s| - 1]);
    StripKeeps(s);
    assert WithoutPrefix(s) == s by { assert "rust-v"[0] == 'r' && "v"[0] == 'v'; }
    ShownHasNoDash(v);
    NoDashNoSub(s);
    ShownReads(v);
    hide Strip, WithoutPrefix, Substituted, Read, Shown;
  }

  lemma TagNormalizes(v: Version)
    requires WellFormed(v)
    ensures Normalize("rust-v" + Released(v)) == Some(Shown(v))
  {
    var r := Released(v);
    var s := "rust-v" + r;
    DigitsAtEnds(v);
    DigitIsNoSpace(r[|r| - 1]);
    assert s[0] == "rust-v"[0] && s[|s| - 1] == r[|r| - 1];
    StripKeeps(s);
    assert "rust-v" <= s && s[6..] == r;
    ReleasedSubstituted(v);
    ShownReads(v);
    hide Strip, Substituted, Read, Shown, Released;
  }

  lemma NormalizedIsShown(version: string)
    requires Normalize(version).Some?
    ensures var v := Read(Normalize(version).value);
      v.Some? && WellFormed(v.value)
      && Shown(v.value) == Normalize(version).value
  {
    var n := Normalize(version).value;
    hide Strip, Substituted, WithoutPrefix;
    assert Read(n).Some?;
    ReadShows(n);
  }

  // Normalizing twice is normalizing once.
  lemma NormalizeIdempotent(version: string)
    requires Normalize(version).Some?
    ensures Normalize(Normalize(version).value) == Normalize(version)
  {
    NormalizedIsShown(version);
    hide *;
    NormalForms(Read(Normalize(version).value).value);
  }

  // An accepted version has a tag, and the tag has the version's normal form.
  lemma TagRoundTrip(version: string)
    ensures Tag(version).Some? <==> Normalize(version).Some?
    ensures Tag(version).Some? ==> Normalize(Tag(version).value) == Normalize(version)
  {
    hide Normalize, Read, Released, Shown, WellFormed;
    if Normalize(version).Some? {
      NormalizedIsShown(version);
      TagNormalizes(Read(Normalize(version).value).value);
    }
  }

  // Two accepted versions share a tag exactly when they share a normal form.
  lemma TagsAgree(a: string, b: string)
    requires Normalize(a).Some? && Normalize(b).Some?
    ensures Tag(a) == Tag(b) <==> Normalize(a) == Normalize(b)
  {
    TagRoundTrip(a);
    TagRoundTrip(b);
    hide Normalize, Released, Read;
  }

  // Every normal form is the spelling of a base, a numbered pre-release and a post-release, and only those are.
  lemma NormalFormsExactly(s: string)
    ensures Normalize(s) == Some(s) <==> exists v :: WellFormed(v) && Shown(v) == s
  {
    if Normalize(s) == Some(s) { NormalizedIsShown(s); }
    if v :| WellFormed(v) && Shown(v) == s { NormalForms(v); }
  }
}
