/** scripts/release_docs.py: the version substitutions inside one installation snippet.

    Every pattern is a prefix without digits or dots followed by a version X.Y.Z.  So a
    match is a version at which the stretch of text since the last digit or dot (the tail)
    ends with the prefix, and re.sub replaces exactly these versions. */
module VersionRewriting {
  import opened PythonStrings
  import opened Sequences

  // ----- versions -----

  predicate Digit(c: char) { '0' <= c <= '9' }

  /** The leading digits. */
  function Digits(s: string): (n: nat)
    ensures n <= |s|
    ensures forall i | 0 <= i < n :: Digit(s[i])
    ensures n < |s| ==> !Digit(s[n])
  {
    if s == "" || !Digit(s[0]) then 0 else 1 + Digits(s[1..])
  }

  /** The text after leading digits and a dot, if it starts so. */
  predicate Group(s: string)
  {
    0 < Digits(s) < |s| && s[Digits(s)] == '.'
  }

  function AfterGroup(s: string): (r: string)
    requires Group(s)
    ensures |r| < |s| && r == s[|s| - |r|..]
  {
    s[Digits(s) + 1..]
  }

  /** Length of the match of [0-9]+\.[0-9]+\.[0-9]+ at the start, 0 for none. */
  function VersionLength(s: string): (n: nat)
    ensures n <= |s|
  {
    if !Group(s) || !Group(AfterGroup(s)) then 0
    else
      var patch := AfterGroup(AfterGroup(s));
      if Digits(patch) == 0 then 0 else |s| - |patch| + Digits(patch)
  }

  predicate Numeric(c: char) { Digit(c) || c == '.' }

  predicate AllNumeric(s: string)
  {
    forall i | 0 <= i < |s| :: Numeric(s[i])
  }

  /** What a match looks like. */
  lemma VersionFacts(s: string)
    requires VersionLength(s) > 0
    ensures var n := VersionLength(s); Digit(s[0]) && '.' in s[..n] && AllNumeric(s[..n])
  {
    hide Digits;
    var t := AfterGroup(s);
    var patch := AfterGroup(t);
    var a, b, c := Digits(s), Digits(t), Digits(patch);
    var n := VersionLength(s);
    assert s[..n][a] == '.';
    forall i | 0 <= i < n ensures Numeric(s[i]) {
      if a < i <= a + 1 + b { assert s[i] == t[i - (a + 1)]; }
      if i > a + 1 + b { assert s[i] == t[i - (a + 1)] == patch[i - (a + 1) - (b + 1)]; }
    }
  }

  predicate IsRelease(v: string)
  {
    v != "" && VersionLength(v) == |v|
  }

  // ----- numeric runs -----

  predicate Stops(u: string)
  {
    u == "" || !Numeric(u[0])
  }

  /** The leading digits and dots. */
  function Numerics(s: string): (n: nat)
    ensures n <= |s|
    ensures AllNumeric(s[..n]) && Stops(s[n..])
  {
    if s == "" || !Numeric(s[0]) then 0
    else
      var n := 1 + Numerics(s[1..]);
      assert s[..n] == [s[0]] + s[1..][..n - 1] && s[n..] == s[1..][n - 1..];
      n
  }

  lemma {:induction false} DigitsAppend(d: string, u: string)
    requires Digits(d) < |d| || u == "" || !Digit(u[0])
    ensures Digits(d + u) == Digits(d)
  {
    if d == "" {
      assert d + u == u;
    } else if Digit(d[0]) {
      assert (d + u)[1..] == d[1..] + u;
      DigitsAppend(d[1..], u);
    }
  }

  lemma GroupAppend(r: string, u: string)
    requires Stops(u)
    ensures Group(r + u) == Group(r)
    ensures Group(r) ==> AfterGroup(r + u) == AfterGroup(r) + u
  {
    DigitsAppend(r, u);
    assert Digits(r) < |r| ==> (r + u)[Digits(r)] == r[Digits(r)];
    assert Group(r) ==> (r + u)[Digits(r) + 1..] == r[Digits(r) + 1..] + u;
  }

  /** Whether a version starts here depends on the numeric run only. */
  lemma VersionInRun(r: string, u: string)
    requires Stops(u)
    ensures VersionLength(r + u) == VersionLength(r)
  {
    GroupAppend(r, u);
    if Group(r) {
      GroupAppend(AfterGroup(r), u);
      if Group(AfterGroup(r)) { DigitsAppend(AfterGroup(AfterGroup(r)), u); }
    }
  }

  lemma GroupStays(s: string, u: string)
    requires Group(s)
    ensures Group(s + u) && AfterGroup(s + u) == AfterGroup(s) + u
  {
    DigitsAppend(s, u);
    assert (s + u)[Digits(s)] == s[Digits(s)];
    assert (s + u)[Digits(s) + 1..] == s[Digits(s) + 1..] + u;
  }

  /** A release stays the version of a text that does not go on with a digit. */
  lemma VersionThen(v: string, u: string)
    requires IsRelease(v) && (u == "" || !Digit(u[0]))
    ensures VersionLength(v + u) == |v|
  {
    GroupStays(v, u);
    GroupStays(AfterGroup(v), u);
    DigitsAppend(AfterGroup(AfterGroup(v)), u);
  }

  // ----- substitution -----

  function Grow(tail: string, c: char): string
  {
    if Numeric(c) then "" else tail + [c]
  }

  /** re.sub for one or more patterns: applies says whether a prefix ends the tail. */
  function Sub(applies: string -> bool, tail: string, s: string, v: string): string
    decreases |s|
  {
    if s == "" then ""
    else if VersionLength(s) > 0 && applies(tail) then v + Sub(applies, "", s[VersionLength(s)..], v)
    else [s[0]] + Sub(applies, Grow(tail, s[0]), s[1..], v)
  }

  /** What becomes of one numeric run. */
  function SubRun(hit: bool, r: string, v: string): string
  {
    if hit && VersionLength(r) > 0 then v + r[VersionLength(r)..] else r
  }

  lemma {:induction false} RunCopied(applies: string -> bool, r: string, u: string, v: string)
    requires !applies("") && AllNumeric(r)
    ensures Sub(applies, "", r + u, v) == r + Sub(applies, "", u, v)
  {
    if r == "" {
      assert r + u == u;
    } else {
      assert (r + u)[1..] == r[1..] + u;
      RunCopied(applies, r[1..], u, v);
    }
  }

  /** Substitution works run by run. */
  lemma RunForm(applies: string -> bool, tail: string, r: string, u: string, v: string)
    requires !applies("") && AllNumeric(r) && Stops(u) && r != ""
    ensures Sub(applies, tail, r + u, v) == SubRun(applies(tail), r, v) + Sub(applies, "", u, v)
  {
    VersionInRun(r, u);
    if VersionLength(r) > 0 && applies(tail) {
      RunHit(applies, tail, r, u, v);
    } else {
      RunMissed(applies, tail, r, u, v);
    }
  }

  lemma RunHit(applies: string -> bool, tail: string, r: string, u: string, v: string)
    requires !applies("") && AllNumeric(r) && applies(tail)
    requires VersionLength(r + u) == VersionLength(r) > 0
    ensures Sub(applies, tail, r + u, v) == v + r[VersionLength(r)..] + Sub(applies, "", u, v)
  {
    hide Sub, VersionLength;
    var rest := r[VersionLength(r)..];
    calc {
      Sub(applies, tail, r + u, v);
      { SubHit(applies, tail, r + u, v); }
      v + Sub(applies, "", (r + u)[VersionLength(r)..], v);
      { assert (r + u)[VersionLength(r)..] == rest + u; }
      v + Sub(applies, "", rest + u, v);
      { assert AllNumeric(rest); RunCopied(applies, rest, u, v); }
      v + (rest + Sub(applies, "", u, v));
      { Associates(v, rest, Sub(applies, "", u, v)); }
      v + rest + Sub(applies, "", u, v);
    }
  }

  lemma SubHit(applies: string -> bool, tail: string, s: string, v: string)
    requires VersionLength(s) > 0 && applies(tail)
    ensures Sub(applies, tail, s, v) == v + Sub(applies, "", s[VersionLength(s)..], v)
  {
  }

  lemma RunMissed(applies: string -> bool, tail: string, r: string, u: string, v: string)
    requires !applies("") && AllNumeric(r) && r != ""
    requires VersionLength(r + u) == 0 || !applies(tail)
    ensures Sub(applies, tail, r + u, v) == r + Sub(applies, "", u, v)
  {
    assert (r + u)[1..] == r[1..] + u;
    RunCopied(applies, r[1..], u, v);
    assert r == [r[0]] + r[1..];
    Associates([r[0]], r[1..], Sub(applies, "", u, v));
  }

  // ----- composing substitutions -----

  lemma SubStops(applies: string -> bool, tail: string, u: string, v: string)
    requires Stops(u)
    ensures Stops(Sub(applies, tail, u, v))
    ensures u != "" ==> Sub(applies, tail, u, v) == [u[0]] + Sub(applies, tail + [u[0]], u[1..], v)
  {
  }

  lemma {:induction false} DigitsMaximal(s: string)
    ensures Digits(s) < |s| ==> !Digit(s[Digits(s)])
  {
    if s != "" && Digit(s[0]) { DigitsMaximal(s[1..]); }
  }

  lemma PatchIsSuffix(s: string)
    requires Group(s) && Group(AfterGroup(s))
    ensures var patch := AfterGroup(AfterGroup(s)); patch == s[|s| - |patch|..]
  {
    var t := AfterGroup(s);
    var patch := AfterGroup(t);
    assert t[|t| - |patch|..] == s[|s| - |t|..][|t| - |patch|..] == s[|s| - |patch|..];
  }

  /** What follows a match is not a digit. */
  lemma VersionEnds(s: string)
    requires VersionLength(s) > 0
    ensures var rest := s[VersionLength(s)..]; rest == "" || !Digit(rest[0])
  {
    hide Digits, Group, AfterGroup;
    var patch := AfterGroup(AfterGroup(s));
    PatchIsSuffix(s);
    DigitsMaximal(patch);
    SuffixOfSuffix(s, |s| - |patch|, Digits(patch));
  }

  lemma SuffixOfSuffix(s: string, i: nat, j: nat)
    requires i + j <= |s|
    ensures s[i..][j..] == s[i + j..]
  {
  }

  /** A replaced run is a run that starts with the new version. */
  lemma SubRunHit(r: string, v: string)
    requires AllNumeric(r) && VersionLength(r) > 0 && IsRelease(v)
    ensures var q := v + r[VersionLength(r)..];
      && q != "" && AllNumeric(q) && Digit(q[0]) && Digit(r[0]) && VersionLength(q) == |v|
      && q[|v|..] == r[VersionLength(r)..]
  {
    hide Digits, Group;
    VersionEnds(r);
    VersionFacts(r);
    VersionFacts(v);
    assert v[..|v|] == v;
    VersionThen(v, r[VersionLength(r)..]);
  }

  lemma SubRunFacts(hit: bool, r: string, v: string)
    requires AllNumeric(r) && r != "" && IsRelease(v)
    ensures var q := SubRun(hit, r, v);
      && q != "" && AllNumeric(q) && (Digit(q[0]) <==> Digit(r[0]))
      && (VersionLength(q) > 0 <==> VersionLength(r) > 0)
      && (hit && VersionLength(r) > 0 ==> VersionLength(q) == |v| && q[|v|..] == r[VersionLength(r)..])
  {
    if hit && VersionLength(r) > 0 { SubRunHit(r, v); }
  }

  ghost predicate Within(a: string -> bool, b: string -> bool)
  {
    forall t: string :: a(t) ==> b(t)
  }

  ghost predicate Joins(c: string -> bool, a: string -> bool, b: string -> bool)
  {
    forall t: string :: c(t) <==> (a(t) || b(t))
  }

  /** Two rounds of substitution act like one with the second version, when the second
      round covers the first, or when both write the same version. */
  lemma {:induction false} Compose(a: string -> bool, b: string -> bool, c: string -> bool, tail: string, s: string,
        u: string, v: string)
    requires !a("") && !b("") && IsRelease(u) && IsRelease(v)
    requires Joins(c, a, b) && (Within(a, b) || u == v)
    ensures Sub(b, tail, Sub(a, tail, s, u), v) == Sub(c, tail, s, v)
    decreases |s|
  {
    hide IsRelease, AllNumeric;
    if s == "" {
    } else if Numeric(s[0]) {
      var r, x := s[..Numerics(s)], s[Numerics(s)..];
      assert s == r + x;
      var y := Sub(a, "", x, u);
      RunForm(a, tail, r, x, u);
      RunForm(c, tail, r, x, v);
      SubRunFacts(a(tail), r, u);
      SubStops(a, "", x, u);
      RunForm(b, tail, SubRun(a(tail), r, u), y, v);
      Compose(a, b, c, "", x, u, v);
      assert SubRun(b(tail), SubRun(a(tail), r, u), v) == SubRun(c(tail), r, v);
    } else {
      var t := tail + [s[0]];
      SubStops(a, tail, s, u);
      var y := Sub(a, t, s[1..], u);
      assert ([s[0]] + y)[1..] == y;
      SubStops(b, tail, [s[0]] + y, v);
      SubStops(c, tail, s, v);
      Compose(a, b, c, t, s[1..], u, v);
    }
  }

  // ----- pinning a bare pip install -----

  const PIP := "pip install review-sensei"

  predicate Ends(t: string, suffix: string)
  {
    |suffix| <= |t| && t[|t| - |suffix|..] == suffix
  }

  predicate EndsPip(t: string)
  {
    Ends(t, PIP)
  }

  /** \w: ASCII word characters, and whatever else the interpreter counts as one. */
  predicate IsWord(c: char, letter: char -> bool)
  {
    Digit(c) || 'a' <= c <= 'z' || 'A' <= c <= 'Z' || c == '_' || (c as int >= 0x80 && letter(c))
  }

  /** No word character, hyphen or equals sign follows. */
  predicate LookOk(s: string, letter: char -> bool)
  {
    s == "" || !(s[0] == '=' || s[0] == '-' || IsWord(s[0], letter))
  }

  /** Every bare install pinned to the version. */
  function Pin(tail: string, s: string, v: string, letter: char -> bool): string
    decreases |s|, |tail|
  {
    if EndsPip(tail) && LookOk(s, letter) then "==" + v + Pin("", s, v, letter)
    else if s == "" then ""
    else [s[0]] + Pin(Grow(tail, s[0]), s[1..], v, letter)
  }

  /** Some bare install is left. */
  predicate Unpinned(tail: string, s: string, letter: char -> bool)
    decreases |s|
  {
    (EndsPip(tail) && LookOk(s, letter)) || (s != "" && Unpinned(Grow(tail, s[0]), s[1..], letter))
  }

  lemma {:induction false} PinIdentity(tail: string, s: string, v: string, letter: char -> bool)
    requires !Unpinned(tail, s, letter)
    ensures Pin(tail, s, v, letter) == s
    decreases |s|
  {
    if s != "" { PinIdentity(Grow(tail, s[0]), s[1..], v, letter); }
  }

  lemma {:induction false} UnpinnedRun(r: string, u: string, letter: char -> bool)
    requires AllNumeric(r)
    ensures Unpinned("", r + u, letter) == Unpinned("", u, letter)
  {
    if r == "" {
      assert r + u == u;
    } else {
      assert (r + u)[1..] == r[1..] + u;
      UnpinnedRun(r[1..], u, letter);
    }
  }

  /** A run after any tail. */
  lemma UnpinnedTailRun(tail: string, r: string, u: string, letter: char -> bool)
    requires AllNumeric(r) && r != ""
    ensures Unpinned(tail, r + u, letter) == ((EndsPip(tail) && !Digit(r[0])) || Unpinned("", u, letter))
  {
    assert (r + u)[1..] == r[1..] + u;
    UnpinnedRun(r[1..], u, letter);
  }

  lemma EndsWithLast(t: string, c: char, suffix: string)
    requires suffix != "" && Ends(t + [c], suffix)
    ensures suffix[|suffix| - 1] == c
  {
    var u := t + [c];
    assert u[|u| - |suffix|..][|suffix| - 1] == u[|u| - 1];
  }

  lemma EqualsIsNoPip(tail: string)
    ensures !EndsPip(tail + "=") && !EndsPip("")
  {
    if EndsPip(tail + "=") { EndsWithLast(tail, '=', PIP); }
  }

  /** The inserted text holds nothing unpinned. */
  lemma InsertedIsPinned(tail: string, v: string, y: string, letter: char -> bool)
    requires IsRelease(v) && !Unpinned("", y, letter)
    ensures !Unpinned(tail, "==" + v + y, letter)
  {
    VersionFacts(v);
    assert v[..|v|] == v;
    var z := v + y;
    assert "==" + v + y == "==" + z;
    assert ("==" + z)[1..] == "=" + z && ("=" + z)[1..] == z;
    assert tail + ['='] == tail + "=" && tail + "=" + "=" == tail + "==" && tail + "=" + ['='] == tail + "==";
    EqualsIsNoPip(tail);
    EqualsIsNoPip(tail + "=");
    UnpinnedTailRun(tail + "==", v, y, letter);
  }

  /** Nothing stays unpinned. */
  lemma {:induction false} PinClears(tail: string, s: string, v: string, letter: char -> bool)
    requires IsRelease(v)
    ensures !Unpinned(tail, Pin(tail, s, v, letter), letter)
    decreases |s|, |tail|
  {
    if EndsPip(tail) && LookOk(s, letter) {
      PinClears("", s, v, letter);
      InsertedIsPinned(tail, v, Pin("", s, v, letter), letter);
    } else if s != "" {
      PinClears(Grow(tail, s[0]), s[1..], v, letter);
      assert Pin(tail, s, v, letter)[1..] == Pin(Grow(tail, s[0]), s[1..], v, letter);
    }
  }

  /** Substituting versions unpins nothing. */
  lemma {:induction false} SubKeepsPinned(a: string -> bool, tail: string, s: string, v: string, letter: char -> bool)
    requires IsRelease(v) && !a("") && !Unpinned(tail, s, letter)
    ensures !Unpinned(tail, Sub(a, tail, s, v), letter)
    decreases |s|
  {
    if s == "" {
    } else if Numeric(s[0]) {
      var r, x := s[..Numerics(s)], s[Numerics(s)..];
      assert s == r + x;
      RunForm(a, tail, r, x, v);
      SubRunFacts(a(tail), r, v);
      UnpinnedTailRun(tail, r, x, letter);
      UnpinnedTailRun(tail, SubRun(a(tail), r, v), Sub(a, "", x, v), letter);
      SubKeepsPinned(a, "", x, v, letter);
    } else {
      SubStops(a, tail, s, v);
      SubKeepsPinned(a, tail + [s[0]], s[1..], v, letter);
      var y := Sub(a, tail + [s[0]], s[1..], v);
      assert ([s[0]] + y)[1..] == y;
    }
  }

  // ----- the patterns -----

  predicate PinnedPip(t: string) { Ends(t, "pip install review-sensei==") }

  predicate NpmPackage(t: string) { Ends(t, "@reviewsensei/cli@") }

  predicate VersionVariable(t: string) { Ends(t, "REVIEWSENSEI_VERSION=") }

  /** The text without trailing white space. */
  predicate SpacedName(t: string)
  {
    StripRight(t) != t && Ends(StripRight(t), "review-sensei")
  }

  predicate ReleaseHeading(t: string) { Ends(t, "Release ") }

  predicate AnyPrefix(t: string)
  {
    PinnedPip(t) || NpmPackage(t) || VersionVariable(t) || SpacedName(t) || ReleaseHeading(t)
  }

  predicate FirstTwo(t: string) { PinnedPip(t) || NpmPackage(t) }

  predicate FirstThree(t: string) { FirstTwo(t) || VersionVariable(t) }

  predicate FirstFour(t: string) { FirstThree(t) || SpacedName(t) }

  /** rewrite_installation_versions on one snippet: pin, then one re.sub per pattern. */
  function RewriteSnippet(s: string, v: string, letter: char -> bool): string
  {
    var s0 := Pin("", s, v, letter);
    var s1 := Sub(PinnedPip, "", s0, v);
    var s2 := Sub(NpmPackage, "", s1, v);
    var s3 := Sub(VersionVariable, "", s2, v);
    var s4 := Sub(SpacedName, "", s3, v);
    Sub(ReleaseHeading, "", s4, v)
  }

  lemma NoPrefixEndsNothing()
    ensures !PinnedPip("") && !NpmPackage("") && !VersionVariable("") && !SpacedName("") && !ReleaseHeading("")
  {
  }

  /** The five passes act like one. */
  lemma OnePass(s: string, v: string, letter: char -> bool)
    requires IsRelease(v)
    ensures RewriteSnippet(s, v, letter) == Sub(AnyPrefix, "", Pin("", s, v, letter), v)
  {
    var s0 := Pin("", s, v, letter);
    NoPrefixEndsNothing();
    Compose(PinnedPip, NpmPackage, FirstTwo, "", s0, v, v);
    Compose(FirstTwo, VersionVariable, FirstThree, "", s0, v, v);
    Compose(FirstThree, SpacedName, FirstFour, "", s0, v, v);
    Compose(FirstFour, ReleaseHeading, AnyPrefix, "", s0, v, v);
  }

  // ----- the last version wins -----

  lemma {:induction false} EndsAppend(t: string, x: string, suffix: string)
    requires Ends(t, suffix)
    ensures Ends(t + x, suffix + x)
  {
    assert (t + x)[|t + x| - |suffix + x|..] == t[|t| - |suffix|..] + x;
  }

  lemma PinnedAfterInsertion(tail: string)
    requires EndsPip(tail)
    ensures AnyPrefix(tail + "==")
  {
    EndsAppend(tail, "==", PIP);
    assert PIP + "==" == "pip install review-sensei==";
  }

  lemma PinRun(tail: string, r: string, u: string, v: string, letter: char -> bool)
    requires AllNumeric(r) && r != "" && !(EndsPip(tail) && LookOk(r, letter))
    ensures Pin(tail, r + u, v, letter) == r + Pin("", u, v, letter)
  {
    var c := r[0];
    assert (r + u)[1..] == r[1..] + u && (r + u)[0] == c;
    PinRunEmpty(r[1..], u, v, letter);
    assert r == [c] + r[1..];
    Associates([c], r[1..], Pin("", u, v, letter));
  }

  lemma {:induction false} PinRunEmpty(r: string, u: string, v: string, letter: char -> bool)
    requires AllNumeric(r)
    ensures Pin("", r + u, v, letter) == r + Pin("", u, v, letter)
  {
    if r == "" {
      assert r + u == u;
    } else {
      assert (r + u)[1..] == r[1..] + u;
      EqualsIsNoPip("");
      PinRunEmpty(r[1..], u, v, letter);
      assert r == [r[0]] + r[1..];
      Associates([r[0]], r[1..], Pin("", u, v, letter));
    }
  }

  /** Pinning after no tail keeps the first character. */
  lemma PinFirst(s: string, v: string, letter: char -> bool)
    ensures Pin("", s, v, letter) == "" <==> s == ""
    ensures s != "" ==> Pin("", s, v, letter)[0] == s[0]
  {
    EqualsIsNoPip("");
  }

  /** Substituting over two copied characters and a version. */
  lemma SubCopiedVersion(a: string -> bool, tail: string, c: char, u: string, y: string, v: string)
    requires !Numeric(c) && a(tail + [c] + [c]) && IsRelease(u) && (y == "" || !Digit(y[0]))
    ensures Sub(a, tail, [c] + ([c] + (u + y)), v) == [c] + ([c] + (v + Sub(a, "", y, v)))
  {
    var z := u + y;
    SubCopies(a, tail, c, [c] + z, v);
    SubCopies(a, tail + [c], c, z, v);
    VersionThen(u, y);
    SubHit(a, tail + [c] + [c], z, v);
    assert z[|u|..] == y;
  }

  lemma TwoThen(c: char, u: string, y: string)
    ensures [c, c] + u + y == [c] + ([c] + (u + y))
  {
  }

  /** Substituting over an inserted pin writes the new version, whichever was inserted. */
  lemma SubInserted(tail: string, u: string, y: string, v: string)
    requires EndsPip(tail) && IsRelease(u) && (y == "" || !Digit(y[0]))
    ensures Sub(AnyPrefix, tail, "==" + u + y, v) == ['='] + (['='] + (v + Sub(AnyPrefix, "", y, v)))
  {
    hide VersionLength, Sub, Ends;
    PinnedAfterInsertion(tail);
    assert ['='] + ['='] == "==";
    Associates(tail, ['='], ['=']);
    SubCopiedVersion(AnyPrefix, tail, '=', u, y, v);
    TwoThen('=', u, y);
  }

  lemma {:induction false} PinThenSub(tail: string, s: string, u: string, v: string, letter: char -> bool)
    requires IsRelease(u) && IsRelease(v)
    ensures Sub(AnyPrefix, tail, Pin(tail, s, u, letter), v) == Sub(AnyPrefix, tail, Pin(tail, s, v, letter), v)
    decreases |s|, |tail|
  {
    NoPrefixEndsNothing();
    if EndsPip(tail) && LookOk(s, letter) {
      PinFirst(s, u, letter);
      PinFirst(s, v, letter);
      SubInserted(tail, u, Pin("", s, u, letter), v);
      SubInserted(tail, v, Pin("", s, v, letter), v);
      PinThenSub("", s, u, v, letter);
    } else if s == "" {
    } else if Numeric(s[0]) {
      var r, x := s[..Numerics(s)], s[Numerics(s)..];
      assert s == r + x;
      PinRun(tail, r, x, u, letter);
      PinRun(tail, r, x, v, letter);
      PinFirst(x, u, letter);
      PinFirst(x, v, letter);
      RunForm(AnyPrefix, tail, r, Pin("", x, u, letter), v);
      RunForm(AnyPrefix, tail, r, Pin("", x, v, letter), v);
      PinThenSub("", x, u, v, letter);
    } else {
      var t := tail + [s[0]];
      PinThenSub(t, s[1..], u, v, letter);
      SubCopies(AnyPrefix, tail, s[0], Pin(t, s[1..], u, letter), v);
      SubCopies(AnyPrefix, tail, s[0], Pin(t, s[1..], v, letter), v);
    }
  }

  lemma SubCopies(a: string -> bool, tail: string, c: char, y: string, v: string)
    requires !Numeric(c)
    ensures Sub(a, tail, [c] + y, v) == [c] + Sub(a, tail + [c], y, v)
  {
    assert ([c] + y)[1..] == y;
    SubStops(a, tail, [c] + y, v);
  }

  /** A rewritten snippet holds no bare pip install. */
  lemma RewrittenIsPinned(s: string, v: string, letter: char -> bool)
    requires IsRelease(v)
    ensures !Unpinned("", RewriteSnippet(s, v, letter), letter)
  {
    NoPrefixEndsNothing();
    OnePass(s, v, letter);
    PinClears("", s, v, letter);
    SubKeepsPinned(AnyPrefix, "", Pin("", s, v, letter), v, letter);
  }

  /** Rewriting twice is rewriting once with the last version; with the same version it
      changes nothing more. */
  lemma LastVersionWins(s: string, u: string, v: string, letter: char -> bool)
    requires IsRelease(u) && IsRelease(v)
    ensures RewriteSnippet(RewriteSnippet(s, u, letter), v, letter) == RewriteSnippet(s, v, letter)
  {
    var first := RewriteSnippet(s, u, letter);
    NoPrefixEndsNothing();
    RewrittenIsPinned(s, u, letter);
    PinIdentity("", first, v, letter);
    OnePass(s, u, letter);
    OnePass(s, v, letter);
    OnePass(first, v, letter);
    Compose(AnyPrefix, AnyPrefix, AnyPrefix, "", Pin("", s, u, letter), u, v);
    PinThenSub("", s, u, v, letter);
  }

  // ----- validation -----

  /** re.findall: the versions one pattern finds. */
  function Found(a: string -> bool, tail: string, s: string): seq<string>
    decreases |s|
  {
    if s == "" then []
    else if VersionLength(s) > 0 && a(tail) then [s[..VersionLength(s)]] + Found(a, "", s[VersionLength(s)..])
    else Found(a, Grow(tail, s[0]), s[1..])
  }

  lemma {:induction false} FoundSkips(a: string -> bool, r: string, u: string)
    requires !a("") && AllNumeric(r)
    ensures Found(a, "", r + u) == Found(a, "", u)
  {
    if r == "" {
      assert r + u == u;
    } else {
      assert (r + u)[1..] == r[1..] + u;
      FoundSkips(a, r[1..], u);
    }
  }

  function FoundInRun(hit: bool, r: string): seq<string>
  {
    if hit && VersionLength(r) > 0 then [r[..VersionLength(r)]] else []
  }

  lemma FoundRun(a: string -> bool, tail: string, r: string, u: string)
    requires !a("") && AllNumeric(r) && Stops(u) && r != ""
    ensures Found(a, tail, r + u) == FoundInRun(a(tail), r) + Found(a, "", u)
  {
    VersionInRun(r, u);
    if VersionLength(r) > 0 && a(tail) { FoundRunHit(a, tail, r, u); } else { FoundRunMissed(a, tail, r, u); }
  }

  lemma FoundRunHit(a: string -> bool, tail: string, r: string, u: string)
    requires !a("") && AllNumeric(r) && a(tail)
    requires VersionLength(r + u) == VersionLength(r) > 0
    ensures Found(a, tail, r + u) == [r[..VersionLength(r)]] + Found(a, "", u)
  {
    hide Found, VersionLength;
    var n := VersionLength(r);
    FoundHit(a, tail, r + u);
    Split(r, u, n);
    FoundSkips(a, r[n..], u);
  }

  lemma Split(r: string, u: string, n: nat)
    requires n <= |r|
    ensures (r + u)[n..] == r[n..] + u && (r + u)[..n] == r[..n]
  {
  }

  lemma FoundHit(a: string -> bool, tail: string, s: string)
    requires VersionLength(s) > 0 && a(tail)
    ensures Found(a, tail, s) == [s[..VersionLength(s)]] + Found(a, "", s[VersionLength(s)..])
  {
  }

  lemma FoundRunMissed(a: string -> bool, tail: string, r: string, u: string)
    requires !a("") && AllNumeric(r) && r != ""
    requires VersionLength(r + u) == 0 || !a(tail)
    ensures Found(a, tail, r + u) == Found(a, "", u)
  {
    assert (r + u)[1..] == r[1..] + u;
    FoundSkips(a, r[1..], u);
  }

  /** What a pattern finds in one replaced run. */
  lemma FoundInReplacedRun(a: bool, b: bool, r: string, v: string)
    requires AllNumeric(r) && r != "" && IsRelease(v) && (a ==> b)
    ensures var q := SubRun(b, r, v);
      |FoundInRun(a, q)| == |FoundInRun(a, r)| && AllAre(FoundInRun(a, q), v)
  {
    SubRunFacts(b, r, v);
    if a && VersionLength(r) > 0 { Split(v, r[VersionLength(r)..], |v|); }
  }

  lemma FoundAfterSubRun(a: string -> bool, b: string -> bool, tail: string, r: string, x: string, v: string)
    requires !a("") && !b("") && IsRelease(v) && (a(tail) ==> b(tail))
    requires r != "" && AllNumeric(r) && Stops(x)
    requires |Found(a, "", Sub(b, "", x, v))| == |Found(a, "", x)| && AllAre(Found(a, "", Sub(b, "", x, v)), v)
    ensures |Found(a, tail, Sub(b, tail, r + x, v))| == |Found(a, tail, r + x)|
    ensures AllAre(Found(a, tail, Sub(b, tail, r + x, v)), v)
  {
    hide Found, Sub, SubRun, FoundInRun, IsRelease, VersionLength, AllNumeric;
    RunForm(b, tail, r, x, v);
    SubRunFacts(b(tail), r, v);
    SubStops(b, "", x, v);
    FoundRun(a, tail, r, x);
    FoundRun(a, tail, SubRun(b(tail), r, v), Sub(b, "", x, v));
    FoundInReplacedRun(a(tail), b(tail), r, v);
  }

  /** A pattern finds in the substituted text as many versions as before, all of them v. */
  lemma {:induction false} FoundAfterSub(a: string -> bool, b: string -> bool, tail: string, s: string, v: string)
    requires !a("") && !b("") && IsRelease(v) && Within(a, b)
    ensures |Found(a, tail, Sub(b, tail, s, v))| == |Found(a, tail, s)|
    ensures AllAre(Found(a, tail, Sub(b, tail, s, v)), v)
    decreases |s|
  {
    hide IsRelease, VersionLength, AllNumeric;
    if s == "" {
    } else if Numeric(s[0]) {
      var r, x := s[..Numerics(s)], s[Numerics(s)..];
      assert s == r + x;
      FoundAfterSub(a, b, "", x, v);
      FoundAfterSubRun(a, b, tail, r, x, v);
    } else {
      var t := tail + [s[0]];
      FoundAfterSub(a, b, t, s[1..], v);
      assert s == [s[0]] + s[1..];
      SubCopies(b, tail, s[0], s[1..], v);
      FoundCopies(a, tail, s[0], Sub(b, t, s[1..], v));
      FoundCopies(a, tail, s[0], s[1..]);
    }
  }

  lemma FoundCopies(a: string -> bool, tail: string, c: char, y: string)
    requires !Numeric(c)
    ensures Found(a, tail, [c] + y) == Found(a, tail + [c], y)
  {
    assert ([c] + y)[1..] == y;
  }

  /** All versions the patterns find in a snippet. */
  function Versions(s: string): seq<string>
  {
    Found(PinnedPip, "", s) + Found(NpmPackage, "", s) + Found(VersionVariable, "", s)
    + Found(SpacedName, "", s) + Found(ReleaseHeading, "", s)
  }

  /** validate_installation_versions on one snippet. */
  predicate ValidSnippet(s: string, v: string, letter: char -> bool)
  {
    Versions(s) != [] && AllAre(Versions(s), v) && !Unpinned("", s, letter)
  }

  predicate AllAre(found: seq<string>, v: string)
  {
    forall i | 0 <= i < |found| :: found[i] == v
  }

  lemma AllAreTogether(t: string, v: string)
    requires AllAre(Found(PinnedPip, "", t), v) && AllAre(Found(NpmPackage, "", t), v)
    requires AllAre(Found(VersionVariable, "", t), v) && AllAre(Found(SpacedName, "", t), v)
    requires AllAre(Found(ReleaseHeading, "", t), v)
    ensures AllAre(Versions(t), v)
  {
    var two := Found(PinnedPip, "", t) + Found(NpmPackage, "", t);
    assert AllAre(two, v);
    var three := two + Found(VersionVariable, "", t);
    assert AllAre(three, v);
    assert AllAre(three + Found(SpacedName, "", t), v);
  }

  lemma VersionsAfterSub(s: string, v: string)
    requires IsRelease(v)
    ensures |Versions(Sub(AnyPrefix, "", s, v))| == |Versions(s)|
    ensures AllAre(Versions(Sub(AnyPrefix, "", s, v)), v)
  {
    PatternAfterSub(PinnedPip, s, v);
    PatternAfterSub(NpmPackage, s, v);
    PatternAfterSub(VersionVariable, s, v);
    PatternAfterSub(SpacedName, s, v);
    PatternAfterSub(ReleaseHeading, s, v);
    AllAreTogether(Sub(AnyPrefix, "", s, v), v);
  }

  lemma PatternAfterSub(a: string -> bool, s: string, v: string)
    requires IsRelease(v) && !a("") && Within(a, AnyPrefix)
    ensures |Found(a, "", Sub(AnyPrefix, "", s, v))| == |Found(a, "", s)|
    ensures AllAre(Found(a, "", Sub(AnyPrefix, "", s, v)), v)
  {
    NoPrefixEndsNothing();
    FoundAfterSub(a, AnyPrefix, "", s, v);
  }

  lemma FoundInserted(tail: string, u: string, y: string)
    requires EndsPip(tail) && IsRelease(u) && (y == "" || !Digit(y[0]))
    ensures Found(PinnedPip, tail, "==" + u + y) != []
  {
    hide VersionLength;
    var z := u + y;
    assert "==" + u + y == ['='] + (['='] + z);
    FoundCopies(PinnedPip, tail, '=', ['='] + z);
    FoundCopies(PinnedPip, tail + ['='], '=', z);
    assert tail + ['='] + ['='] == tail + "==";
    EndsAppend(tail, "==", PIP);
    assert PIP + "==" == "pip install review-sensei==";
    VersionThen(u, y);
  }

  /** Pinning adds a version. */
  lemma {:induction false} PinAddsVersion(tail: string, s: string, v: string, letter: char -> bool)
    requires IsRelease(v) && Unpinned(tail, s, letter)
    ensures Found(PinnedPip, tail, Pin(tail, s, v, letter)) != []
    decreases |s|
  {
    NoPrefixEndsNothing();
    if EndsPip(tail) && LookOk(s, letter) {
      PinFirst(s, v, letter);
      FoundInserted(tail, v, Pin("", s, v, letter));
    } else if Numeric(s[0]) {
      var r, x := s[..Numerics(s)], s[Numerics(s)..];
      assert s == r + x;
      UnpinnedTailRun(tail, r, x, letter);
      PinRun(tail, r, x, v, letter);
      PinFirst(x, v, letter);
      FoundRun(PinnedPip, tail, r, Pin("", x, v, letter));
      PinAddsVersion("", x, v, letter);
    } else {
      PinAddsVersion(tail + [s[0]], s[1..], v, letter);
      FoundCopies(PinnedPip, tail, s[0], Pin(tail + [s[0]], s[1..], v, letter));
    }
  }

  /** After rewriting, validation refuses a snippet exactly when it held neither a version
      nor a bare pip install. */
  lemma RewrittenIsValidExactly(s: string, v: string, letter: char -> bool)
    requires IsRelease(v)
    ensures ValidSnippet(RewriteSnippet(s, v, letter), v, letter) <==> Versions(s) != [] || Unpinned("", s, letter)
  {
    hide RewriteSnippet, Unpinned, Pin, IsRelease, Sub;
    OnePass(s, v, letter);
    RewrittenIsPinned(s, v, letter);
    VersionsAfterSub(Pin("", s, v, letter), v);
    if Unpinned("", s, letter) {
      PinAddsVersion("", s, v, letter);
    } else {
      PinIdentity("", s, v, letter);
    }
  }

  // ----- what the patterns mean -----

  ghost predicate AllDigits(s: string)
  {
    s != "" && forall i | 0 <= i < |s| :: '0' <= s[i] <= '9'
  }

  lemma {:induction false} DigitsThen(a: string, rest: string)
    requires AllDigits(a) && (rest == "" || !('0' <= rest[0] <= '9'))
    ensures Digits(a + rest) == |a| && (a + rest)[|a|..] == rest
  {
    assert (a + rest)[1..] == a[1..] + rest;
    if |a| > 1 {
      DigitsThen(a[1..], rest);
    } else {
      assert a[1..] + rest == rest;
    }
  }

  lemma GroupThen(a: string, rest: string)
    requires AllDigits(a)
    ensures Group(a + "." + rest) && AfterGroup(a + "." + rest) == rest
  {
    Associates(a, ".", rest);
    DigitsThen(a, "." + rest);
  }

  /** Three numbers with dots between are a version, all of it ... */
  lemma VersionIsNumbers(a: string, b: string, c: string, rest: string)
    requires AllDigits(a) && AllDigits(b) && AllDigits(c) && (rest == "" || !('0' <= rest[0] <= '9'))
    ensures VersionLength(a + "." + (b + "." + (c + rest))) == |a| + |b| + |c| + 2
  {
    hide Digits, Group, AfterGroup;
    GroupThen(a, b + "." + (c + rest));
    GroupThen(b, c + rest);
    DigitsThen(c, rest);
  }

  /** ... and nothing else is. */
  lemma NumbersOf(s: string) returns (a: string, b: string, c: string, rest: string)
    requires VersionLength(s) > 0
    ensures AllDigits(a) && AllDigits(b) && AllDigits(c) && (rest == "" || !('0' <= rest[0] <= '9'))
    ensures s == a + "." + (b + "." + (c + rest)) && VersionLength(s) == |a| + |b| + |c| + 2
  {
    hide Digits, Group, AfterGroup, VersionLength, AllDigits;
    LengthParts(s);
    var t := AfterGroup(s);
    var u := AfterGroup(t);
    a, b, c, rest := s[..Digits(s)], t[..Digits(t)], u[..Digits(u)], u[Digits(u)..];
    GroupParts(s);
    GroupParts(t);
    DigitsLead(u);
    assert u == c + rest;
    assert |s| == |a| + 1 + |t| && |t| == |b| + 1 + |u|;
  }

  lemma LengthParts(s: string)
    requires VersionLength(s) > 0
    ensures Group(s) && Group(AfterGroup(s)) && Digits(AfterGroup(AfterGroup(s))) > 0
    ensures VersionLength(s) == Digits(s) + 1 + Digits(AfterGroup(s)) + 1 + Digits(AfterGroup(AfterGroup(s)))
  {
    hide Digits;
  }

  lemma DigitsLead(u: string)
    requires Digits(u) > 0
    ensures var n := Digits(u);
      AllDigits(u[..n]) && (n == |u| || !('0' <= u[n] <= '9'))
  {
  }

  lemma GroupParts(s: string)
    requires Group(s)
    ensures AllDigits(s[..Digits(s)]) && s == s[..Digits(s)] + "." + AfterGroup(s)
  {
  }

  /** The text ends with one of the five prefixes. */
  ghost predicate Marked(t: string)
  {
    || (exists a :: t == a + "pip install review-sensei==")
    || (exists a :: t == a + "@reviewsensei/cli@")
    || (exists a :: t == a + "REVIEWSENSEI_VERSION=")
    || (exists a, blank :: t == a + "review-sensei" + blank && blank != "" && forall c | c in blank :: IsSpace(c))
    || (exists a :: t == a + "Release ")
  }

  lemma EndsExactly(t: string, suffix: string)
    ensures Ends(t, suffix) <==> exists a :: t == a + suffix
  {
    if Ends(t, suffix) { assert t == t[..|t| - |suffix|] + suffix; }
    if a :| t == a + suffix { assert t[|a|..] == suffix; }
  }

  lemma {:induction false} StripRightThrough(s: string, blank: string)
    requires s != "" && !IsSpace(s[|s| - 1]) && forall c | c in blank :: IsSpace(c)
    ensures StripRight(s + blank) == s
  {
    if blank == "" {
      assert s + blank == s;
    } else {
      var n := |blank| - 1;
      assert (s + blank)[..|s + blank| - 1] == s + blank[..n] && (s + blank)[|s + blank| - 1] == blank[n];
      StripRightThrough(s, blank[..n]);
    }
  }

  lemma {:induction false} StrippedRightIsSpace(t: string)
    ensures forall c | c in t[|StripRight(t)|..] :: IsSpace(c)
  {
    if t != "" && IsSpace(t[|t| - 1]) {
      var u := t[..|t| - 1];
      StrippedRightIsSpace(u);
      assert t[|StripRight(t)|..] == u[|StripRight(u)|..] + [t[|t| - 1]];
    }
  }

  lemma SpacedExactly(t: string)
    ensures SpacedName(t) <==>
      exists a, blank :: t == a + "review-sensei" + blank && blank != "" && forall c | c in blank :: IsSpace(c)
  {
    hide StripRight;
    var core := StripRight(t);
    EndsExactly(core, "review-sensei");
    StrippedRightIsSpace(t);
    if SpacedName(t) {
      var a :| core == a + "review-sensei";
      assert t == a + "review-sensei" + t[|core|..];
    }
    if a, blank :| t == a + "review-sensei" + blank && blank != "" && forall c | c in blank :: IsSpace(c) {
      var name := a + "review-sensei";
      assert name[|name| - 1] == 'i' && !IsSpace('i');
      StripRightThrough(name, blank);
    }
  }

  lemma MarkedExactly(t: string)
    ensures AnyPrefix(t) <==> Marked(t)
  {
    hide Ends, SpacedName;
    EndsExactly(t, "pip install review-sensei==");
    EndsExactly(t, "@reviewsensei/cli@");
    EndsExactly(t, "REVIEWSENSEI_VERSION=");
    EndsExactly(t, "Release ");
    SpacedExactly(t);
  }

  ghost predicate NoNumbers(s: string)
  {
    forall i | 0 <= i < |s| :: !('0' <= s[i] <= '9' || s[i] == '.')
  }

  lemma {:induction false} SubThrough(applies: string -> bool, tail: string, a: string, x: string, v: string)
    requires NoNumbers(a)
    ensures Sub(applies, tail, a + x, v) == a + Sub(applies, tail + a, x, v)
    ensures Found(applies, tail, a + x) == Found(applies, tail + a, x)
    decreases |a|
  {
    hide Sub, Found;
    if a == "" {
      assert a + x == x && tail + a == tail;
    } else {
      assert a + x == [a[0]] + (a[1..] + x) && tail + [a[0]] + a[1..] == tail + a;
      assert !Numeric(a[0]);
      SubCopies(applies, tail, a[0], a[1..] + x, v);
      FoundCopies(applies, tail, a[0], a[1..] + x);
      SubThrough(applies, tail + [a[0]], a[1..], x, v);
      Associates([a[0]], a[1..], Sub(applies, tail + a, x, v));
    }
  }

  lemma SubNothing(applies: string -> bool, tail: string, v: string)
    ensures Sub(applies, tail, "", v) == "" && Found(applies, tail, "") == []
  {
  }

  lemma NumbersNumeric(u: string)
    requires IsRelease(u)
    ensures AllNumeric(u) && VersionLength(u) == |u| && u[|u|..] == "" && u[..|u|] == u
  {
    VersionFacts(u);
  }

  /** In text with one version and no bare pip install, that version is replaced, and found
      for validation, exactly behind one of the five prefixes. */
  lemma PrefixDecides(a: string, u: string, y: string, v: string, letter: char -> bool)
    requires NoNumbers(a) && IsRelease(u) && NoNumbers(y) && IsRelease(v) && !Unpinned("", a + (u + y), letter)
    ensures RewriteSnippet(a + (u + y), v, letter) == a + ((if Marked(a) then v else u) + y)
    ensures AllAre(Versions(a + (u + y)), u) && (Versions(a + (u + y)) != [] <==> Marked(a))
  {
    hide *;
    PrefixReplaces(a, u, y, v, letter);
    PrefixFinds(a, u, y);
    MarkedExactly(a);
  }

  lemma PrefixReplaces(a: string, u: string, y: string, v: string, letter: char -> bool)
    requires NoNumbers(a) && IsRelease(u) && NoNumbers(y) && IsRelease(v) && !Unpinned("", a + (u + y), letter)
    ensures RewriteSnippet(a + (u + y), v, letter) == a + ((if AnyPrefix(a) then v else u) + y)
  {
    hide *;
    OnePass(a + (u + y), v, letter);
    PinIdentity("", a + (u + y), v, letter);
    NoneMarked();
    AfterVersion(AnyPrefix, a, u, y, v);
  }

  lemma NoneMarked()
    ensures !AnyPrefix("")
  {
    NoPrefixEndsNothing();
  }

  lemma PrefixFinds(a: string, u: string, y: string)
    requires NoNumbers(a) && IsRelease(u) && NoNumbers(y)
    ensures AllAre(Versions(a + (u + y)), u) && (Versions(a + (u + y)) != [] <==> AnyPrefix(a))
  {
    hide Sub, Found, IsRelease, NoNumbers, PinnedPip, NpmPackage, VersionVariable, SpacedName, ReleaseHeading;
    NoPrefixEndsNothing();
    AfterVersion(PinnedPip, a, u, y, "");
    AfterVersion(NpmPackage, a, u, y, "");
    AfterVersion(VersionVariable, a, u, y, "");
    AfterVersion(SpacedName, a, u, y, "");
    AfterVersion(ReleaseHeading, a, u, y, "");
  }

  lemma AfterVersion(applies: string -> bool, a: string, u: string, y: string, v: string)
    requires !applies("") && NoNumbers(a) && IsRelease(u) && NoNumbers(y)
    ensures Sub(applies, "", a + (u + y), v) == a + ((if applies(a) then v else u) + y)
    ensures Found(applies, "", a + (u + y)) == if applies(a) then [u] else []
  {
    hide Sub, Found;
    assert "" + a == a && "" + y == y;
    SubThrough(applies, "", a, u + y, v);
    NumbersNumeric(u);
    YStops(y);
    RunForm(applies, a, u, y, v);
    FoundRun(applies, a, u, y);
    assert y + "" == y && v + "" == v;
    SubThrough(applies, "", y, "", v);
    SubNothing(applies, "" + y, v);
  }

  lemma YStops(y: string)
    requires NoNumbers(y)
    ensures Stops(y)
  {
  }

  /** A bare pip install: the name, and then nothing that could belong to it. */
  ghost predicate Bare(s: string, letter: char -> bool)
  {
    exists a, y :: s == a + ("pip install review-sensei" + y) && (y == "" || !Continues(y[0], letter))
  }

  /** A character of the class [=\w-]. */
  ghost predicate Continues(c: char, letter: char -> bool)
  {
    || c in "=-_0123456789" || 'a' <= c <= 'z' || 'A' <= c <= 'Z' || (c > '\U{007f}' && letter(c))
  }

  lemma ContinuesExactly(s: string, letter: char -> bool)
    ensures LookOk(s, letter) <==> s == "" || !Continues(s[0], letter)
  {
    if s != "" {
      var c := s[0];
      assert c in "=-_0123456789" <==> c in ['=', '-', '_', '0', '1', '2', '3', '4', '5', '6', '7', '8', '9'];
      assert '0' <= c <= '9' <==> c in ['0', '1', '2', '3', '4', '5', '6', '7', '8', '9'];
    }
  }

  ghost predicate BareAt(tail: string, s: string, k: nat, letter: char -> bool)
    requires k <= |s|
  {
    EndsPip(tail + s[..k]) && LookOk(s[k..], letter)
  }

  lemma {:induction false} UnpinnedSomewhere(tail: string, s: string, letter: char -> bool)
    ensures Unpinned(tail, s, letter) <==> exists k | 0 <= k <= |s| :: BareAt(tail, s, k, letter)
    decreases |s|
  {
    hide LookOk, EndsPip;
    assert tail + s[..0] == tail && s[0..] == s;
    assert BareAt(tail, s, 0, letter) <==> EndsPip(tail) && LookOk(s, letter);
    if s != "" {
      var grown := Grow(tail, s[0]);
      UnpinnedSomewhere(grown, s[1..], letter);
      forall k | 0 <= k <= |s| - 1 ensures BareAt(grown, s[1..], k, letter) <==> BareAt(tail, s, k + 1, letter) {
        assert s[1..][k..] == s[k + 1..] && [s[0]] + s[1..][..k] == s[..k + 1];
        TailGrows(tail, s[0], s[1..][..k]);
        assert tail + [s[0]] + s[1..][..k] == tail + s[..k + 1];
      }
      if k: nat :| k <= |s| && BareAt(tail, s, k, letter) {
        if k > 0 { assert BareAt(grown, s[1..], k - 1, letter); }
      }
    }
  }

  /** What the tail drops at a number never matters. */
  lemma TailGrows(tail: string, c: char, x: string)
    ensures EndsPip(Grow(tail, c) + x) <==> EndsPip(tail + [c] + x)
  {
    hide Ends;
    if Numeric(c) {
      assert "" + x == x;
      EndsBehind(tail, c, x);
    }
  }

  lemma EndsBehind(tail: string, c: char, x: string)
    requires Numeric(c)
    ensures Ends(x, PIP) <==> Ends(tail + [c] + x, PIP)
  {
    var t, n := tail + [c] + x, |PIP|;
    if |x| >= n {
      assert t[|t| - n..] == x[|x| - n..];
    } else if |t| >= n {
      var i := n - |x| - 1;
      assert t[|t| - n..][i] == t[|tail|] == c;
      PipHasNoNumber(i);
    }
  }

  lemma PipHasNoNumber(i: nat)
    requires i < |PIP|
    ensures !Numeric(PIP[i])
  {
  }

  /** The pattern of the bare install is found exactly where there is one. */
  lemma UnpinnedExactly(s: string, letter: char -> bool)
    ensures Unpinned("", s, letter) <==> Bare(s, letter)
  {
    hide Bare, BareAt;
    UnpinnedSomewhere("", s, letter);
    forall k | 0 <= k <= |s| && BareAt("", s, k, letter) ensures Bare(s, letter) { BareThere(s, k, letter); }
    if Bare(s, letter) { var k := BareSomewhere(s, letter); }
  }

  lemma BareThere(s: string, k: nat, letter: char -> bool)
    requires k <= |s| && BareAt("", s, k, letter)
    ensures Bare(s, letter)
  {
    hide Continues, LookOk, Ends, PIP, Bare;
    assert "" + s[..k] == s[..k];
    ContinuesExactly(s[k..], letter);
    EndsExactly(s[..k], PIP);
    var a :| s[..k] == a + PIP;
    Associates(a, PIP, s[k..]);
    assert s == s[..k] + s[k..];
    BareIs(a, s[k..], letter);
  }

  lemma BareIs(a: string, y: string, letter: char -> bool)
    requires y == "" || !Continues(y[0], letter)
    ensures Bare(a + (PIP + y), letter)
  {
    hide Continues;
  }

  lemma BareSomewhere(s: string, letter: char -> bool) returns (k: nat)
    requires Bare(s, letter)
    ensures k <= |s| && BareAt("", s, k, letter)
  {
    hide Continues, LookOk, Ends;
    var a, y :| s == a + (PIP + y) && (y == "" || !Continues(y[0], letter));
    k := |a| + |PIP|;
    assert s[..k] == a + PIP && s[k..] == y && "" + s[..k] == s[..k];
    ContinuesExactly(y, letter);
    EndsExactly(s[..k], PIP);
  }
}
