/** Which inputs normalisation accepts, and what each of them becomes. */
module ReleaseSpelling {
  import opened Prelude
  import opened PythonText
  import opened ReleaseVersion

  // ---------------------------------------------------------------- the spellings of a version

  // base-name, perhaps a dot, and a number
  predicate Numbered(core: string, base: string, name: string, number: string) {
    core == base + "-" + name + number || core == base + "-" + name + "." + number
  }

  // Besides the normal form itself: a named pre-release, a named alpha with a hotfix number, and, since the alpha rule
  // leaves what the beta rule then takes up, a beta spelled `-bet-alpha`.
  predicate Spells(core: string, v: Version) {
    || core == Shown(v)
    || (v.pre.Some? && v.post.None? && Numbered(core, v.base, NameOf(v.pre.value.0), v.pre.value.1))
    || (v.pre.Some? && v.pre.value.0 == "a" && v.post.Some?
        && Numbered(core, v.base, "alpha", v.pre.value.1 + "." + v.post.value))
    || (v.pre.Some? && v.pre.value.0 == "b" && v.post.None? && Numbered(core, v.base, "bet-alpha", v.pre.value.1))
  }

  function NameOf(kind: string): string {
    if kind == "a" then "alpha" else if kind == "b" then "beta" else kind
  }

  // ---------------------------------------------------------------- trailing numbers

  predicate EndsNoDigit(a: string) {
    a != "" && !IsDigit(a[|a| - 1])
  }

  // What stands in front of a trailing number is determined.
  lemma SplitUnique(a: string, n: string, b: string, m: string)
    requires EndsNoDigit(a) && EndsNoDigit(b) && AllDigits(n) && AllDigits(m) && a + n == b + m
    ensures a == b && n == m
  {
    var s := a + n;
    assert s[|a| - 1] == a[|a| - 1] && s[|b| - 1] == b[|b| - 1];
    assert forall k | |a| <= k < |s| :: s[k] == n[k - |a|];
    assert forall k | |b| <= k < |s| :: s[k] == m[k - |b|];
    assert s[..|a|] == a && s[|a|..] == n && s[..|b|] == b && s[|b|..] == m;
  }

  lemma LastOf(a: string, b: string)
    requires b != ""
    ensures a + b != "" && (a + b)[|a + b| - 1] == b[|b| - 1]
    ensures EndsNoDigit(b) ==> EndsNoDigit(a + b)
  {
  }

  lemma BaseIsNoKind(b: string, base: string, kind: string, rest: string)
    requires IsBase(b) && IsKind(kind)
    ensures b != base + kind + rest
  {
    assert (base + kind + rest)[|base|] == kind[0];
  }

  lemma PostIsNoKind(front: string, m: string, base: string, kind: string, n: string)
    requires IsKind(kind) && IsNumber(n) && IsNumber(m)
    ensures front + ".post" + m != base + kind + n
  {
    LastOf(front, ".post");
    LastOf(base, kind);
    hide IsNumber;
    if front + ".post" + m == base + kind + n { SplitUnique(front + ".post", m, base + kind, n); }
  }

  lemma KindsAgree(b: string, k: string, m: string, base: string, kind: string, n: string)
    requires IsKind(k) && IsKind(kind) && IsNumber(n) && IsNumber(m) && b + k + m == base + kind + n
    ensures b == base && k == kind && m == n
  {
    LastOf(b, k);
    LastOf(base, kind);
    SplitUnique(b + k, m, base + kind, n);
    assert (base + kind)[..|base|] == base && (b + kind)[..|b|] == b;
  }

  lemma PostsAgree(front: string, m: string, other: string, n: string)
    requires IsNumber(n) && IsNumber(m) && front + ".post" + m == other + ".post" + n
    ensures front == other && m == n
  {
    LastOf(front, ".post");
    LastOf(other, ".post");
    SplitUnique(front + ".post", m, other + ".post", n);
    assert (front + ".post")[..|front|] == front && (other + ".post")[..|other|] == other;
  }

  // how a version is spelled, part by part
  lemma ShownParts(v: Version)
    requires WellFormed(v)
    ensures v.post.Some? ==> Shown(v) == Shown(v.(post := None)) + ".post" + v.post.value
    ensures v.post.None? && v.pre.Some? ==> Shown(v) == v.base + v.pre.value.0 + v.pre.value.1
    ensures v.post.None? && v.pre.None? ==> Shown(v) == v.base
  {
    assert v.base + ShownPre(v) + "" == v.base + ShownPre(v);
    if v.pre.Some? {
      assert v.base + (v.pre.value.0 + v.pre.value.1) == v.base + v.pre.value.0 + v.pre.value.1;
    }
    if v.post.Some? {
      assert v.base + ShownPre(v) + (".post" + v.post.value) == v.base + ShownPre(v) + ".post" + v.post.value;
    }
  }

  // A base, a kind and a number spell one version.
  lemma EndsInKind(v: Version, base: string, kind: string, n: string)
    requires WellFormed(v) && IsKind(kind) && IsNumber(n) && Shown(v) == base + kind + n
    ensures v == Version(base, Some((kind, n)), None)
  {
    ShownParts(v);
    hide Shown, IsBase, IsKind, IsNumber;
    if v.post.Some? {
      PostIsNoKind(Shown(v.(post := None)), v.post.value, base, kind, n);
    } else if v.pre.Some? {
      KindsAgree(v.base, v.pre.value.0, v.pre.value.1, base, kind, n);
    } else {
      BaseIsNoKind(v.base, base, kind, n);
    }
  }

  lemma EndsInPost(v: Version, base: string, n: string, m: string)
    requires WellFormed(v) && IsNumber(n) && IsNumber(m) && Shown(v) == base + "a" + n + ".post" + m
    ensures v == Version(base, Some(("a", n)), Some(m))
  {
    ShownParts(v);
    assert base + "a" + n + ".post" + m == base + "a" + (n + ".post" + m);
    assert IsKind("a");
    hide Shown, IsBase, IsKind, IsNumber;
    if v.post.Some? {
      PostsAgree(Shown(v.(post := None)), v.post.value, base + "a" + n, m);
      EndsInKind(v.(post := None), base, "a", n);
    } else if v.pre.Some? {
      PostIsNoKind(base + "a" + n, m, v.base, v.pre.value.0, v.pre.value.1);
    } else {
      BaseIsNoKind(v.base, base, "a", n + ".post" + m);
    }
  }

  // ---------------------------------------------------------------- one substitution

  lemma DashSplit(s: string, d: nat, word: string)
    requires d < |s| && s[d] == '-' && word <= s[d + 1..]
    ensures s == s[..d] + "-" + word + s[d + 1 + |word|..]
    ensures s[d + 1..][|word|..] == s[d + 1 + |word|..]
  {
    assert s == s[..d] + [s[d]] + s[d + 1..];
    assert s[d + 1..] == word + s[d + 1..][|word|..];
  }

  lemma DotSplit(t: string)
    ensures t == AfterDot(t) || t == "." + AfterDot(t)
  {
  }

  lemma DotNumbered(s: string, base: string, name: string, t: string)
    requires s == base + "-" + name + t
    ensures Numbered(s, base, name, AfterDot(t))
  {
    DotSplit(t);
    hide AfterDot;
    assert base + "-" + name + ("." + AfterDot(t)) == base + "-" + name + "." + AfterDot(t);
  }

  // A substitution that does something found its pattern.
  lemma KindShape(s: string, name: string, kind: string) returns (base: string, n: string)
    requires SubKind(s, name, kind) != s
    ensures IsNumber(n) && Numbered(s, base, name, n) && SubKind(s, name, kind) == base + kind + n
  {
    var d := LastDash(s).value;
    DashSplit(s, d, name);
    hide AfterDot, IsNumber, Numbered;
    base, n := s[..d], AfterDot(s[d + 1 + |name|..]);
    DotNumbered(s, base, name, s[d + 1 + |name|..]);
  }

  lemma HotfixParts(s: string) returns (d: nat, k: nat)
    requires SubHotfix(s) != s
    ensures d < |s| && s[d] == '-' && "alpha" <= s[d + 1..] && d + 6 <= |s|
    ensures var w := AfterDot(s[d + 6..]);
      && 0 < k < |w| && w[k] == '.' && AllDigits(w[..k]) && IsNumber(w[k + 1..])
      && SubHotfix(s) == s[..d] + "a" + w[..k] + ".post" + w[k + 1..]
  {
    hide LastDash, AfterDot, SkipDigits, IsNumber;
    d := LastDash(s).value;
    k := SkipDigits(AfterDot(s[d + 6..]), 0);
  }

  lemma HotfixShape(s: string) returns (base: string, n: string, m: string)
    requires SubHotfix(s) != s
    ensures IsNumber(n) && IsNumber(m) && Numbered(s, base, "alpha", n + "." + m)
    ensures SubHotfix(s) == base + "a" + n + ".post" + m
  {
    hide *;
    var d, k := HotfixParts(s);
    DashSplit(s, d, "alpha");
    DotNumbered(s, s[..d], "alpha", s[d + 6..]);
    base, n, m := s[..d], AfterDot(s[d + 6..])[..k], AfterDot(s[d + 6..])[k + 1..];
    PointSplit(AfterDot(s[d + 6..]), k);
  }

  lemma PointSplit(w: string, k: nat)
    requires 0 < k < |w| && w[k] == '.' && AllDigits(w[..k])
    ensures w == w[..k] + "." + w[k + 1..] && IsNumber(w[..k])
  {
    hide AllDigits;
  }

  // Where a pattern's name ends, no other kind or post-release can end.
  lemma NotAfterKind(s: string, base: string, name: string, n: string, front: string, kind: string, m: string)
    requires Numbered(s, base, name, n) && EndsNoDigit(name) && IsNumber(n) && IsNumber(m) && EndsNoDigit(kind)
    requires kind[|kind| - 1] != name[|name| - 1] && kind[|kind| - 1] != '.'
    ensures s != front + kind + m
  {
    LastOf(front, kind);
    LastOf(base + "-", name);
    LastOf(base + "-" + name, ".");
    hide IsNumber;
    if s == base + "-" + name + n {
      if s == front + kind + m { SplitUnique(base + "-" + name, n, front + kind, m); }
    } else if s == front + kind + m {
      SplitUnique(base + "-" + name + ".", n, front + kind, m);
    }
  }

  lemma BetAlpha(s: string, base: string, n: string, front: string, m: string)
    requires Numbered(s, base, "beta", n) && IsNumber(n) && IsNumber(m) && s == front + "a" + m
    ensures front == base + "-bet" && m == n
  {
    LastOf(front, "a");
    LastOf(base + "-", "beta");
    LastOf(base + "-" + "beta", ".");
    hide IsNumber;
    if s == base + "-" + "beta" + "." + n {
      SplitUnique(base + "-" + "beta" + ".", n, front + "a", m);
      assert false;
    } else {
      SplitUnique(base + "-" + "beta", n, front + "a", m);
      assert "beta" == "bet" + "a";
      assert base + "-" + "beta" == base + "-bet" + "a" by { assert "-bet" == "-" + "bet"; }
      assert (front + "a")[..|front|] == front && (base + "-bet" + "a")[..|base + "-bet"|] == base + "-bet";
    }
  }

  // ---------------------------------------------------------------- what is accepted was spelled so

  lemma NamesEnd()
    ensures EndsNoDigit("rc") && EndsNoDigit("a") && EndsNoDigit("b") && EndsNoDigit("alpha") && EndsNoDigit("beta")
    ensures EndsNoDigit(".post") && IsKind("a") && IsKind("b") && IsKind("rc")
    ensures "rc"[|"rc"| - 1] == 'c' && "a"[|"a"| - 1] == 'a' && "b"[|"b"| - 1] == 'b' && ".post"[|".post"| - 1] == 't'
    ensures "alpha"[|"alpha"| - 1] == 'a' && "beta"[|"beta"| - 1] == 'a'
  {
  }

  // A text that some pattern matches was not written by the hotfix rule.
  lemma HotfixIdle(s: string, base: string, name: string, n: string)
    requires Numbered(SubHotfix(s), base, name, n) && IsNumber(n) && (name == "rc" || name == "beta" || name == "alpha")
    ensures SubHotfix(s) == s
  {
    NamesEnd();
    hide SubHotfix, Numbered, EndsNoDigit, IsNumber;
    if SubHotfix(s) != s {
      var b, k, m := HotfixShape(s);
      NotAfterKind(SubHotfix(s), base, name, n, b + "a" + k, ".post", m);
    }
  }

  lemma AlphaIdle(s: string, base: string, n: string)
    requires Numbered(SubKind(s, "alpha", "a"), base, "rc", n) && IsNumber(n)
    ensures SubKind(s, "alpha", "a") == s
  {
    NamesEnd();
    hide SubKind, Numbered, EndsNoDigit, IsNumber;
    if SubKind(s, "alpha", "a") != s {
      var b, m := KindShape(s, "alpha", "a");
      NotAfterKind(SubKind(s, "alpha", "a"), base, "rc", n, b, "a", m);
    }
  }

  lemma BetaIdle(s: string, base: string, n: string)
    requires Numbered(SubKind(s, "beta", "b"), base, "rc", n) && IsNumber(n)
    ensures SubKind(s, "beta", "b") == s
  {
    NamesEnd();
    hide SubKind, Numbered, EndsNoDigit, IsNumber;
    if SubKind(s, "beta", "b") != s {
      var b, m := KindShape(s, "beta", "b");
      NotAfterKind(SubKind(s, "beta", "b"), base, "rc", n, b, "b", m);
    }
  }

  lemma ByRc(core: string, v: Version)
    requires WellFormed(v) && Substituted(core) == Shown(v)
    requires var t := SubKind(SubKind(SubHotfix(core), "alpha", "a"), "beta", "b"); SubKind(t, "rc", "rc") != t
    ensures Spells(core, v)
  {
    var t1 := SubHotfix(core);
    var t2 := SubKind(t1, "alpha", "a");
    var t3 := SubKind(t2, "beta", "b");
    NamesEnd();
    hide SubHotfix, SubKind, Numbered, EndsNoDigit, IsNumber, IsKind, Shown, WellFormed;
    var base, n := KindShape(t3, "rc", "rc");
    EndsInKind(v, base, "rc", n);
    BetaIdle(t2, base, n);
    AlphaIdle(t1, base, n);
    HotfixIdle(core, base, "rc", n);
  }

  lemma ByBeta(core: string, v: Version, t2: string)
    requires WellFormed(v) && t2 == SubKind(SubHotfix(core), "alpha", "a")
    requires SubKind(t2, "beta", "b") == Shown(v) && SubKind(t2, "beta", "b") != t2
    ensures Spells(core, v)
  {
    var t1 := SubHotfix(core);
    NamesEnd();
    hide SubHotfix, SubKind, Numbered, EndsNoDigit, IsNumber, IsKind, Shown, WellFormed;
    var base, n := KindShape(t2, "beta", "b");
    EndsInKind(v, base, "b", n);
    if t2 == t1 {
      HotfixIdle(core, base, "beta", n);
    } else {
      var front, m := KindShape(t1, "alpha", "a");
      BetAlpha(t2, base, n, front, m);
      HotfixIdle(core, front, "alpha", m);
      BetNumbered(core, base, n);
    }
  }

  lemma BetNumbered(core: string, base: string, n: string)
    ensures Numbered(core, base + "-bet", "alpha", n) <==> Numbered(core, base, "bet-alpha", n)
  {
    assert base + "-bet" + "-" + "alpha" == base + "-" + "bet-alpha";
  }

  // Whatever becomes the spelling of a version by the four rules was one of its spellings before.
  lemma NormalizedSpells(core: string, v: Version)
    requires WellFormed(v) && Substituted(core) == Shown(v)
    ensures Spells(core, v)
  {
    var t1 := SubHotfix(core);
    var t2 := SubKind(t1, "alpha", "a");
    var t3 := SubKind(t2, "beta", "b");
    NamesEnd();
    hide SubHotfix, SubKind, Numbered, EndsNoDigit, IsNumber, IsKind, Shown, WellFormed;
    if SubKind(t3, "rc", "rc") != t3 {
      ByRc(core, v);
    } else if t3 != t2 {
      ByBeta(core, v, t2);
    } else if t2 != t1 {
      var base, n := KindShape(t1, "alpha", "a");
      EndsInKind(v, base, "a", n);
      HotfixIdle(core, base, "alpha", n);
    } else if t1 != core {
      var base, n, m := HotfixShape(core);
      EndsInPost(v, base, n, m);
    }
  }

  // ---------------------------------------------------------------- what is spelled so is accepted

  lemma NumberPlain(n: string)
    requires IsNumber(n)
    ensures NoDash(n) && AfterDot(n) == n && AfterDot("." + n) == n
  {
    assert ("." + n)[1..] == n;
  }

  // the last dash of a numbered spelling, and what its name leaves
  lemma NumberedTail(s: string, base: string, name: string, n: string) returns (tail: string)
    requires Numbered(s, base, name, n) && NoDash(name) && NoDash(n) && AfterDot(n) == n && AfterDot("." + n) == n
    ensures LastDash(s) == Some(|base|) && |base| < |s| && s[..|base|] == base && s[|base| + 1..] == tail
    ensures name <= tail && AfterDot(tail[|name|..]) == n && s == base + "-" + tail && NoDash(tail)
    ensures tail == name + n || tail == name + "." + n
  {
    hide LastDash, AfterDot, NoDash;
    if s == base + "-" + name + n {
      tail := name + n;
      NoDashConcat(name, n);
      assert s == base + "-" + tail;
    } else {
      tail := name + "." + n;
      NoDashConcat(name, ".");
      NoDashConcat(name + ".", n);
      assert NoDash(".") by { DotNoDash(); }
      assert s == base + "-" + tail;
      assert tail[|name|..] == "." + n;
    }
    LastDashIs(base, tail);
  }

  lemma DotNoDash()
    ensures NoDash(".")
  {
  }

  lemma KindFires(s: string, base: string, name: string, kind: string, n: string)
    requires Numbered(s, base, name, n) && IsNumber(n) && NoDash(name)
    ensures SubKind(s, name, kind) == base + kind + n
  {
    NumberPlain(n);
    hide SubKind, LastDash, AfterDot, NoDash, IsNumber, Numbered;
    var tail := NumberedTail(s, base, name, n);
    SubKindIs(s, base, tail, name, kind, n);
  }

  // A spelling with another name is left alone.
  lemma OtherIdle(s: string, base: string, name: string, n: string, other: string, kind: string)
    requires Numbered(s, base, name, n) && IsNumber(n) && NoDash(name)
    requires other != "" && name != "" && other[0] != name[0]
    ensures SubKind(s, other, kind) == s
    ensures other == "alpha" ==> SubHotfix(s) == s
  {
    NumberPlain(n);
    hide LastDash, AfterDot, NoDash, IsNumber, Numbered;
    var tail := NumberedTail(s, base, name, n);
    assert tail[0] == name[0];
    assert !(other <= tail);
  }

  // A single number is no hotfix.
  lemma SingleIdle(s: string, base: string, n: string)
    requires Numbered(s, base, "alpha", n) && IsNumber(n)
    ensures SubHotfix(s) == s
  {
    NumberPlain(n);
    SkipDigitsIs(n, 0, |n|);
    assert NoDash("alpha");
    hide LastDash, AfterDot, NoDash, IsNumber, Numbered, SkipDigits;
    var tail := NumberedTail(s, base, "alpha", n);
    assert s[|base| + 6..] == tail[|"alpha"|..];
  }

  lemma HotfixPlain(n: string, m: string)
    requires IsNumber(n) && IsNumber(m)
    ensures NoDash(n + "." + m) && AfterDot(n + "." + m) == n + "." + m && AfterDot("." + (n + "." + m)) == n + "." + m
    ensures SkipDigits(n + "." + m, 0) == |n| && 0 < |n|
  {
    NumberTail("", n, m);
    assert "" + n + "." + m == n + "." + m;
    NumbersSplit(n, m);
    assert (n + "." + m)[0] == n[0];
    assert ("." + (n + "." + m))[1..] == n + "." + m;
  }

  lemma HotfixFires(s: string, base: string, n: string, m: string)
    requires Numbered(s, base, "alpha", n + "." + m) && IsNumber(n) && IsNumber(m)
    ensures SubHotfix(s) == base + "a" + n + ".post" + m
  {
    hide *;
    HotfixPlain(n, m);
    NamesPlain();
    var tail := NumberedTail(s, base, "alpha", n + "." + m);
    assert tail[5..] == tail[|"alpha"|..];
    HotfixAt(s, |base|, n, m);
  }

  lemma NamesPlain()
    ensures NoDash("alpha") && NoDash("beta") && NoDash("rc")
    ensures "alpha"[0] == 'a' && "beta"[0] == 'b' && "rc"[0] == 'r'
  {
  }

  lemma KindSpelled(core: string, base: string, kind: string, n: string)
    requires Numbered(core, base, NameOf(kind), n) && IsNumber(n) && IsKind(kind)
    requires NoDash(base + kind + n)
    ensures Substituted(core) == base + kind + n
  {
    NamesPlain();
    SubsOfNoDash(base + kind + n);
    hide SubHotfix, SubKind, Numbered, IsNumber, NoDash;
    var name := NameOf(kind);
    KindFires(core, base, name, kind, n);
    if kind == "a" {
      SingleIdle(core, base, n);
    } else {
      OtherIdle(core, base, name, n, "alpha", "a");
      if kind == "rc" { OtherIdle(core, base, name, n, "beta", "b"); }
    }
  }

  lemma BetJoined(base: string, n: string)
    ensures Numbered(base + "-bet" + "a" + n, base, "beta", n)
  {
    assert "-bet" + "a" == "-" + "beta";
    assert base + "-bet" + "a" + n == base + "-" + "beta" + n;
  }

  lemma SubstitutedBy(core: string, t: string, r: string)
    requires SubHotfix(core) == core && SubKind(core, "alpha", "a") == t && SubKind(t, "beta", "b") == r
    requires SubKind(r, "rc", "rc") == r
    ensures Substituted(core) == r
  {
    hide SubHotfix, SubKind;
  }

  lemma BetSpelled(core: string, base: string, n: string)
    requires Numbered(core, base, "bet-alpha", n) && IsNumber(n) && NoDash(base + "b" + n)
    ensures Substituted(core) == base + "b" + n
  {
    hide *;
    NamesPlain();
    SubsOfNoDash(base + "b" + n);
    BetNumbered(core, base, n);
    SingleIdle(core, base + "-bet", n);
    KindFires(core, base + "-bet", "alpha", "a", n);
    BetJoined(base, n);
    KindFires(base + "-bet" + "a" + n, base, "beta", "b", n);
    SubstitutedBy(core, base + "-bet" + "a" + n, base + "b" + n);
  }

  lemma HotfixSpelled(core: string, base: string, n: string, m: string)
    requires Numbered(core, base, "alpha", n + "." + m) && IsNumber(n) && IsNumber(m)
    requires NoDash(base + "a" + n + ".post" + m)
    ensures Substituted(core) == base + "a" + n + ".post" + m
  {
    SubsOfNoDash(base + "a" + n + ".post" + m);
    hide SubHotfix, SubKind, IsNumber, NoDash, Numbered;
    HotfixFires(core, base, n, m);
  }

  // Every spelling of a version becomes its normal form.
  lemma SpellingNormalizes(core: string, v: Version)
    requires WellFormed(v) && Spells(core, v)
    ensures Substituted(core) == Shown(v)
  {
    ShownHasNoDash(v);
    ShownParts(v);
    assert NoDash(Shown(v));
    hide Substituted, Numbered, IsNumber, IsBase, NoDash, Shown;
    if core == Shown(v) {
      SubsOfNoDash(core);
      SubstitutedIs(core, core);
    } else if v.post.Some? {
      ShownParts(v.(post := None));
      HotfixSpelled(core, v.base, v.pre.value.1, v.post.value);
    } else if Numbered(core, v.base, NameOf(v.pre.value.0), v.pre.value.1) {
      KindSpelled(core, v.base, v.pre.value.0, v.pre.value.1);
    } else {
      BetSpelled(core, v.base, v.pre.value.1);
    }
  }

  // ---------------------------------------------------------------- the whole input

  // The whitespace around the input, and one prefix, do not count.
  ghost predicate Wraps(version: string, core: string) {
    exists front, prefix, back :: WrapsWith(version, core, front, prefix, back)
  }

  ghost predicate WrapsWith(version: string, core: string, front: string, prefix: string, back: string) {
    && version == front + (prefix + core) + back
    && (forall k | 0 <= k < |front| :: IsSpace(front[k])) && (forall k | 0 <= k < |back| :: IsSpace(back[k]))
    && (prefix + core == "" || (!IsSpace((prefix + core)[0]) && !IsSpace((prefix + core)[|prefix + core| - 1])))
    && (prefix == "rust-v" || (prefix == "v" && !("rust-v" <= prefix + core))
        || (prefix == "" && !("rust-v" <= core) && !("v" <= core)))
  }

  lemma {:induction false} FrontStripped(s: string) returns (front: string)
    ensures s == front + StripFront(s) && forall k | 0 <= k < |front| :: IsSpace(front[k])
    decreases |s|
  {
    if s != "" && IsSpace(s[0]) {
      front := FrontStripped(s[1..]);
      front := [s[0]] + front;
      assert s == [s[0]] + s[1..];
    } else {
      front := "";
    }
  }

  lemma {:induction false} BackStripped(s: string) returns (back: string)
    ensures s == StripBack(s) + back && forall k | 0 <= k < |back| :: IsSpace(back[k])
    decreases |s|
  {
    if s != "" && IsSpace(s[|s| - 1]) {
      back := BackStripped(s[..|s| - 1]);
      back := back + [s[|s| - 1]];
      assert s == s[..|s| - 1] + [s[|s| - 1]];
    } else {
      back := "";
      assert s == s + back;
    }
  }

  lemma PrefixOf(s: string) returns (prefix: string)
    ensures var core := WithoutPrefix(s);
      && s == prefix + core
      && (prefix == "rust-v" || (prefix == "v" && !("rust-v" <= prefix + core))
          || (prefix == "" && !("rust-v" <= core) && !("v" <= core)))
  {
    prefix := if "rust-v" <= s then "rust-v" else if "v" <= s then "v" else "";
    assert s == prefix + WithoutPrefix(s);
  }

  lemma WrapsFrom(version: string, front: string, t: string, s: string, back: string, prefix: string, core: string)
    requires version == front + t && t == s + back && s == prefix + core
    requires WrapsWith(front + s + back, core, front, prefix, back)
    ensures Wraps(version, core)
  {
    hide WrapsWith;
    assert front + (s + back) == front + s + back;
  }

  lemma WrapsParts(core: string, front: string, prefix: string, back: string)
    requires (forall k | 0 <= k < |front| :: IsSpace(front[k])) && (forall k | 0 <= k < |back| :: IsSpace(back[k]))
    requires var s := prefix + core; s == "" || (!IsSpace(s[0]) && !IsSpace(s[|s| - 1]))
    requires prefix == "rust-v" || (prefix == "v" && !("rust-v" <= prefix + core))
      || (prefix == "" && !("rust-v" <= core) && !("v" <= core))
    ensures WrapsWith(front + (prefix + core) + back, core, front, prefix, back)
  {
    hide IsSpace;
  }

  lemma StripIs(version: string)
    ensures Strip(version) == StripBack(StripFront(version))
  {
  }

  // What is left when whitespace and prefix are taken off is what they wrap.
  lemma CoreWrapped(version: string)
    ensures Wraps(version, WithoutPrefix(Strip(version)))
  {
    hide *;
    var s := Strip(version);
    StripIs(version);
    var front := FrontStripped(version);
    var back := BackStripped(StripFront(version));
    StrippedFront(version);
    var prefix := PrefixOf(s);
    WrapsParts(WithoutPrefix(s), front, prefix, back);
    WrapsFrom(version, front, StripFront(version), s, back, prefix, WithoutPrefix(s));
  }

  // What stripping leaves neither starts nor ends with whitespace.
  lemma StrippedFront(version: string)
    ensures var s := Strip(version); s == "" || (!IsSpace(s[0]) && !IsSpace(s[|s| - 1]))
  {
    var f := StripFront(version);
    var back := BackStripped(f);
    if Strip(version) != "" { assert f[0] == StripBack(f)[0]; }
  }

  lemma {:induction false} FrontTaken(front: string, t: string)
    requires (forall k | 0 <= k < |front| :: IsSpace(front[k])) && (t == "" || !IsSpace(t[0]))
    ensures StripFront(front + t) == t
    decreases |front|
  {
    hide IsSpace;
    if front == "" {
      assert front + t == t;
    } else {
      FrontTaken(front[1..], t);
      assert (front + t)[1..] == front[1..] + t;
    }
  }

  lemma BackStep(s: string)
    requires s != "" && IsSpace(s[|s| - 1])
    ensures StripBack(s) == StripBack(s[..|s| - 1])
  {
    hide IsSpace;
  }

  lemma BackPlain(s: string)
    requires s == "" || !IsSpace(s[|s| - 1])
    ensures StripBack(s) == s
  {
    hide IsSpace;
  }

  lemma {:induction false} BackTaken(t: string, back: string)
    requires (forall k | 0 <= k < |back| :: IsSpace(back[k])) && (t == "" || !IsSpace(t[|t| - 1]))
    ensures StripBack(t + back) == t
    decreases |back|
  {
    hide *;
    if back == "" {
      assert t + back == t;
      BackPlain(t);
    } else {
      BackTaken(t, back[..|back| - 1]);
      assert (t + back)[..|t + back| - 1] == t + back[..|back| - 1];
      BackStep(t + back);
    }
  }

  lemma PrefixTaken(prefix: string, core: string)
    requires prefix == "rust-v" || (prefix == "v" && !("rust-v" <= prefix + core))
      || (prefix == "" && !("rust-v" <= core) && !("v" <= core))
    ensures WithoutPrefix(prefix + core) == core
  {
    if prefix == "" { assert prefix + core == core; } else { assert (prefix + core)[|prefix|..] == core; }
  }

  // There is one way to take whitespace and prefix off.
  lemma WrappedOnce(version: string, core: string)
    requires Wraps(version, core)
    ensures WithoutPrefix(Strip(version)) == core
  {
    var front, prefix, back :| WrapsWith(version, core, front, prefix, back);
    var s := prefix + core;
    PrefixTaken(prefix, core);
    hide IsSpace, StripFront, StripBack, WithoutPrefix;
    if s == "" {
      assert front + s + back == front + back + "";
      FrontTaken(front + back, "");
      BackTaken("", "");
      assert "" + "" == "";
    } else {
      assert front + s + back == front + (s + back);
      assert (s + back)[0] == s[0];
      FrontTaken(front, s + back);
      BackTaken(s, back);
    }
  }

  // An input is accepted exactly when what whitespace and prefix wrap spells a version, and becomes its normal form.
  lemma NormalizeMeaning(version: string, v: Version)
    requires WellFormed(v)
    ensures Normalize(version) == Some(Shown(v)) <==> exists core :: Wraps(version, core) && Spells(core, v)
  {
    var core := WithoutPrefix(Strip(version));
    CoreWrapped(version);
    ShownReads(v);
    if Normalize(version) == Some(Shown(v)) {
      NormalizedSpells(core, v);
    }
    forall other | Wraps(version, other) && Spells(other, v) ensures Normalize(version) == Some(Shown(v)) {
      WrappedOnce(version, other);
      SpellingNormalizes(core, v);
    }
  }

  lemma BaseParts(s: string, k: nat)
    requires 0 < k < |s| && s[k] == '.' && IsNumber(s[..k])
    ensures IsBase(s) <==> IsBase(s[k + 1..])
  {
    var rest := s[k + 1..];
    assert forall j | 0 <= j < k :: s[j] == s[..k][j];
    assert forall j | 0 <= j < |rest| :: rest[j] == s[k + 1 + j];
    if IsBase(s) {
      assert rest[|rest| - 1] == s[|s| - 1];
    }
    if IsBase(rest) {
      assert forall j | k < j < |s| :: s[j] == rest[j - k - 1];
    }
  }

  lemma BaseStart(s: string) returns (k: nat)
    requires IsBase(s) && !IsNumber(s)
    ensures 0 < k < |s| && s[k] == '.' && IsNumber(s[..k])
  {
    k := SkipDigits(s, 0);
  }

  lemma NumberIsBase(s: string)
    requires IsNumber(s)
    ensures IsBase(s)
  {
  }

  // A base is a number, or a number, a dot and a base.
  lemma BaseMeaning(s: string)
    ensures IsBase(s) <==>
      IsNumber(s) || exists k | 0 < k < |s| :: s[k] == '.' && IsNumber(s[..k]) && IsBase(s[k + 1..])
  {
    hide *;
    if IsNumber(s) {
      NumberIsBase(s);
    } else if IsBase(s) {
      var k := BaseStart(s);
      BaseParts(s, k);
    }
    if k :| 0 < k < |s| && s[k] == '.' && IsNumber(s[..k]) && IsBase(s[k + 1..]) { BaseParts(s, k); }
  }

  // The tag of a version: numbered pre-releases and alphas with a hotfix by name, everything else in normal form.
  lemma TagMeaning(version: string, v: Version)
    requires WellFormed(v) && Normalize(version) == Some(Shown(v))
    ensures Tag(version) == Some(
      if v.pre.Some? && v.pre.value.0 == "a" && v.post.Some? then
        "rust-v" + (v.base + "-alpha." + v.pre.value.1 + "." + v.post.value)
      else if v.pre.Some? && v.post.None? then
        "rust-v" + (v.base + "-" + NameOf(v.pre.value.0) + "." + v.pre.value.1)
      else "rust-v" + Shown(v))
  {
    ShownReads(v);
    hide Normalize, Shown, Read, IsBase, IsNumber;
  }
}
