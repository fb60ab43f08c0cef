/** scripts/prepare_release.py: what the changelog's readers read, in terms of its text. */
module ChangelogReading {
  import opened Outcomes
  import opened PythonStrings
  import opened Sequences
  import opened Changelog
  import opened ChangelogMerge
  import opened ChangelogInsert

  // ----- where the sections begin -----

  /** A match of ^## [^\n]+$ begins here; bol: the text starts at the beginning of a line. */
  ghost predicate HeadingAt(t: string, i: nat, bol: bool)
    requires i < |t|
  {
    && i + 3 < |t| && t[i..i + 3] == "## " && t[i + 3] != '\n'
    && if i == 0 then bol else t[i - 1] == '\n'
  }

  lemma HeadingHere(t: string, bol: bool)
    requires t != ""
    ensures HeadingAt(t, 0, bol) <==> bol && IsHeading(t)
  {
    if |t| > 3 {
      assert t[0..3] == "## " <==> t[0] == '#' && t[1] == '#' && t[2] == ' ';
    }
  }

  lemma HeadingLater(t: string, i: nat, bol: bool)
    requires 0 < i < |t|
    ensures HeadingAt(t, i, bol) <==> HeadingAt(t[1..], i - 1, t[0] == '\n')
  {
    if i + 3 < |t| { assert t[1..][i - 1..i + 2] == t[i..i + 3]; }
  }

  /** The text is taken up to its first heading. */
  lemma {:induction false} TakenExactly(t: string, bol: bool)
    ensures var n := |TakeToHeading(t, bol)|;
      (forall i | 0 <= i < n :: !HeadingAt(t, i, bol)) && (n < |t| ==> HeadingAt(t, n, bol))
  {
    hide HeadingAt, IsHeading;
    if t != "" {
      HeadingHere(t, bol);
      if !(bol && IsHeading(t)) {
        TakenExactly(t[1..], t[0] == '\n');
        var n := |TakeToHeading(t, bol)|;
        forall i | 0 < i < |t| ensures HeadingAt(t, i, bol) <==> HeadingAt(t[1..], i - 1, t[0] == '\n') {
          HeadingLater(t, i, bol);
        }
      }
    }
  }

  lemma HeadingBehind(t: string, m: nat, i: nat, bol: bool)
    requires m < i < |t|
    ensures HeadingAt(t, i, true) <==> HeadingAt(t[m..], i - m, bol)
  {
    if i + 3 < |t| { assert t[m..][i - m..i - m + 3] == t[i..i + 3]; }
  }

  /** Inside the first section there is no other heading. */
  lemma NoneInside(t: string, i: nat)
    requires IsHeading(t) && 0 < i < |FirstSection(t).head| + |FirstSection(t).body| && i < |t|
    ensures !HeadingAt(t, i, true)
  {
    hide TakeToHeading, Line, IsHeading;
    var first := FirstSection(t);
    var n := |first.head|;
    LineFacts(t);
    if i <= n {
      assert first.head[i - 1] == t[i - 1];
    } else {
      TakenExactly(t[n..], false);
      HeadingBehind(t, n, i, false);
    }
  }

  lemma SameBehind(t: string, i: nat)
    requires IsHeading(t) && |FirstSection(t).head| + |FirstSection(t).body| <= i < |t|
    ensures var n := |FirstSection(t).head| + |FirstSection(t).body|;
      && t[n..] == AfterFirst(t) && i - n < |AfterFirst(t)|
      && (HeadingAt(t, i, true) <==> HeadingAt(AfterFirst(t), i - n, true))
  {
    hide TakeToHeading, Line, IsHeading, HeadingAt;
    FirstFacts(t);
    var first, rest := FirstSection(t), AfterFirst(t);
    var n := |first.head| + |first.body|;
    assert t == first.head + first.body + rest;
    if i > n {
      HeadingBehind(t, n, i, true);
    } else {
      HeadingHere(rest, true);
      BehindLine(first.head + first.body, rest);
    }
  }

  lemma BehindLine(a: string, b: string)
    requires EndsLine(a) && IsHeading(b)
    ensures HeadingAt(a + b, |a|, true)
  {
    assert (a + b)[|a|..|a| + 3] == b[..3] == "## ";
  }

  lemma FirstLength(t: string, k: nat)
    requires IsHeading(t) && k <= |Sections(AfterFirst(t))|
    ensures |Sections(t)| == |Sections(AfterFirst(t))| + 1 && Render(Sections(t)[..0]) == ""
    ensures |Render(Sections(t)[..k + 1])|
         == |FirstSection(t).head| + |FirstSection(t).body| + |Render(Sections(AfterFirst(t))[..k])|
  {
    hide FirstSection, IsHeading;
    var rest := Sections(AfterFirst(t));
    assert Sections(t)[..k + 1] == [FirstSection(t)] + rest[..k];
    assert ([FirstSection(t)] + rest[..k])[1..] == rest[..k];
  }

  /** Section k begins here. */
  ghost predicate Begins(t: string, i: nat, k: nat)
    requires StartsSection(t) && k < |Sections(t)|
  {
    |Render(Sections(t)[..k])| == i
  }

  /** Sections begin exactly where headings do ... */
  lemma {:induction false} SectionsBegin(t: string, i: nat)
    requires StartsSection(t) && i < |t|
    ensures HeadingAt(t, i, true) <==> exists k | 0 <= k < |Sections(t)| :: Begins(t, i, k)
    decreases |t|
  {
    hide HeadingAt, TakeToHeading, Line, IsHeading, FirstSection, Begins, Sections;
    var rest := AfterFirst(t);
    var n := |FirstSection(t).head| + |FirstSection(t).body|;
    FirstLength(t, 0);
    HeadingHere(t, true);
    FirstBegins(t, i);
    if 0 < i < n {
      NoneInside(t, i);
      if k: nat :| k < |Sections(t)| && Begins(t, i, k) { NextBegins(t, i, k - 1); }
    } else if i >= n {
      var later: nat := i - n;
      SameBehind(t, i);
      SectionsBegin(rest, later);
      if k: nat :| k < |Sections(rest)| && Begins(rest, later, k) { NextBegins(t, i, k); }
      if k: nat :| k < |Sections(t)| && Begins(t, i, k) { NextBegins(t, i, k - 1); }
    }
  }

  lemma FirstBegins(t: string, i: nat)
    requires IsHeading(t)
    ensures |Sections(t)| > 0 && (Begins(t, i, 0) <==> i == 0)
  {
    FirstLength(t, 0);
  }

  lemma NextBegins(t: string, i: nat, k: nat)
    requires IsHeading(t) && k < |Sections(AfterFirst(t))|
    ensures |Sections(t)| == |Sections(AfterFirst(t))| + 1
    ensures var n := |FirstSection(t).head| + |FirstSection(t).body|;
      Begins(t, i, k + 1) <==> i >= n && Begins(AfterFirst(t), i - n, k)
  {
    hide FirstSection, IsHeading;
    FirstLength(t, k);
  }

  /** ... and each is one heading line and a text without headings. */
  lemma {:induction false} SectionsRead(t: string)
    requires StartsSection(t)
    ensures forall s | s in Sections(t) :: ReadsAsSection(s)
    decreases |t|
  {
    hide ReadsAsSection, FirstSection;
    if t != "" {
      FirstFacts(t);
      SectionsRead(AfterFirst(t));
    }
  }

  // ----- what is read -----

  /** Section i is the only one whose heading begins with the prefix. */
  ghost predicate Only(ss: seq<Section>, i: nat, prefix: string)
    requires i < |ss|
  {
    prefix <= ss[i].head && forall j | 0 <= j < |ss| && j != i :: !(prefix <= ss[j].head)
  }

  /** Section i is the only one with the heading. */
  ghost predicate OnlyWith(ss: seq<Section>, i: nat, head: string)
    requires i < |ss|
  {
    ss[i].head == head && forall j | 0 <= j < |ss| && j != i :: ss[j].head != head
  }

  lemma {:induction false} NoneWithPrefix(ss: seq<Section>, prefix: string)
    ensures WithPrefix(ss, prefix) == [] <==> forall j | 0 <= j < |ss| :: !(prefix <= ss[j].head)
  {
    if ss != [] { NoneWithPrefix(ss[1..], prefix); }
  }

  lemma {:induction false} OneWithPrefix(ss: seq<Section>, prefix: string, s: Section)
    ensures WithPrefix(ss, prefix) == [s] <==> exists i | 0 <= i < |ss| :: ss[i] == s && Only(ss, i, prefix)
  {
    if ss != [] {
      NoneWithPrefix(ss[1..], prefix);
      OneWithPrefix(ss[1..], prefix, s);
      if prefix <= ss[0].head {
        FirstOnly(ss, prefix);
        FirstAlone(ss[0], WithPrefix(ss[1..], prefix), s);
      } else {
        forall i | 0 <= i < |ss| - 1 ensures Only(ss, i + 1, prefix) <==> Only(ss[1..], i, prefix) {
          OnlyLater(ss, i, prefix);
        }
      }
    }
  }

  lemma FirstAlone(first: Section, rest: seq<Section>, s: Section)
    ensures [first] + rest == [s] <==> first == s && rest == []
  {
    assert ([first] + rest)[0] == first && ([first] + rest)[1..] == rest;
  }

  lemma FirstOnly(ss: seq<Section>, prefix: string)
    requires ss != [] && prefix <= ss[0].head
    ensures Only(ss, 0, prefix) <==> forall j | 0 <= j < |ss| - 1 :: !(prefix <= ss[1..][j].head)
    ensures forall i | 0 < i < |ss| :: !Only(ss, i, prefix)
  {
    if forall j | 0 <= j < |ss| - 1 :: !(prefix <= ss[1..][j].head) {
      assert forall j | 0 < j < |ss| :: ss[j] == ss[1..][j - 1];
    }
    if Only(ss, 0, prefix) {
      assert forall j | 0 <= j < |ss| - 1 :: ss[1..][j] == ss[j + 1];
    }
  }

  lemma OnlyLater(ss: seq<Section>, i: nat, prefix: string)
    requires i + 1 < |ss| && !(prefix <= ss[0].head)
    ensures Only(ss, i + 1, prefix) <==> Only(ss[1..], i, prefix)
  {
    if Only(ss, i + 1, prefix) {
      assert forall j | 0 <= j < |ss| - 1 :: ss[1..][j] == ss[j + 1];
    }
    if Only(ss[1..], i, prefix) {
      assert forall j | 0 < j < |ss| :: ss[j] == ss[1..][j - 1];
    }
  }

  lemma {:induction false} NoneWithHead(ss: seq<Section>, head: string)
    ensures WithHead(ss, head) == [] <==> forall j | 0 <= j < |ss| :: ss[j].head != head
  {
    if ss != [] { NoneWithHead(ss[1..], head); }
  }

  lemma {:induction false} OneWithHead(ss: seq<Section>, head: string, s: Section)
    ensures WithHead(ss, head) == [s] <==> exists i | 0 <= i < |ss| :: ss[i] == s && OnlyWith(ss, i, head)
  {
    if ss != [] {
      NoneWithHead(ss[1..], head);
      OneWithHead(ss[1..], head, s);
      if ss[0].head == head {
        FirstOnlyWith(ss, head);
        FirstAlone(ss[0], WithHead(ss[1..], head), s);
      } else {
        forall i | 0 <= i < |ss| - 1 ensures OnlyWith(ss, i + 1, head) <==> OnlyWith(ss[1..], i, head) {
          OnlyWithLater(ss, i, head);
        }
      }
    }
  }

  lemma FirstOnlyWith(ss: seq<Section>, head: string)
    requires ss != [] && ss[0].head == head
    ensures OnlyWith(ss, 0, head) <==> forall j | 0 <= j < |ss| - 1 :: ss[1..][j].head != head
    ensures forall i | 0 < i < |ss| :: !OnlyWith(ss, i, head)
  {
    if forall j | 0 <= j < |ss| - 1 :: ss[1..][j].head != head {
      assert forall j | 0 < j < |ss| :: ss[j] == ss[1..][j - 1];
    }
    if OnlyWith(ss, 0, head) {
      assert forall j | 0 <= j < |ss| - 1 :: ss[1..][j] == ss[j + 1];
    }
  }

  lemma OnlyWithLater(ss: seq<Section>, i: nat, head: string)
    requires i + 1 < |ss| && ss[0].head != head
    ensures OnlyWith(ss, i + 1, head) <==> OnlyWith(ss[1..], i, head)
  {
    if OnlyWith(ss, i + 1, head) {
      assert forall j | 0 <= j < |ss| - 1 :: ss[1..][j] == ss[j + 1];
    }
    if OnlyWith(ss[1..], i, head) {
      assert forall j | 0 < j < |ss| :: ss[j] == ss[1..][j - 1];
    }
  }

  lemma CountedOnce(ss: seq<Section>, head: string)
    ensures CountHead(ss, head) == 1 <==> exists i | 0 <= i < |ss| :: OnlyWith(ss, i, head)
  {
    CountAsWith(ss, head);
    var found := WithHead(ss, head);
    if |found| == 1 {
      assert found == [found[0]];
      OneWithHead(ss, head, found[0]);
    }
    if i: nat :| i < |ss| && OnlyWith(ss, i, head) { OneWithHead(ss, head, ss[i]); }
  }

  /** Stripping takes off exactly the white space at both ends. */
  lemma StripExactly(t: string, s: string)
    ensures Strip(t) == s <==>
      && (exists gap, trail :: t == gap + (s + trail) && AllSpace(gap) && AllSpace(trail))
      && (s == "" || Stripped(s))
  {
    hide IsSpace, StripLeft, StripRight;
    var gap := StripLeftGap(t);
    var trail := StripRightTrail(StripLeft(t));
    assert t == gap + (Strip(t) + trail);
    assert Strip(t) != "" ==> t[|gap|] == Strip(t)[0];
    StripsToStripped(t);
    if (s == "" || Stripped(s)) && exists gap, trail :: t == gap + (s + trail) && AllSpace(gap) && AllSpace(trail) {
      var before, after :| t == before + (s + after) && AllSpace(before) && AllSpace(after);
      if s == "" {
        assert AllSpace(t);
      } else {
        StripAround(before, s, after);
      }
    }
  }

  lemma StripsToStripped(t: string)
    ensures Strip(t) == "" || Stripped(Strip(t))
  {
    if Strip(t) != "" { StripEnds(StripLeft(t)); }
  }

  /** The notes of an engine release are read exactly from the only section whose heading
      begins with that version, if it also carries that date and is not empty. */
  lemma ReleasedExactly(t: string, version: string, date: string, notes: string)
    ensures ReleasedNotes(t, version, date) == Ok(notes) <==>
      notes != "" && exists i | 0 <= i < |SectionsOf(t)| ::
        && Only(SectionsOf(t), i, "## " + version + " - ")
        && SectionsOf(t)[i].head == "## " + version + " - " + date && Strip(SectionsOf(t)[i].body) == notes
  {
    hide SectionsOf, WithPrefix, Strip, Only;
    var ss, prefix := SectionsOf(t), "## " + version + " - ";
    var found := WithPrefix(ss, prefix);
    if |found| == 1 {
      assert found == [found[0]];
      OneWithPrefix(ss, prefix, found[0]);
    }
    if i: nat :| i < |ss| && Only(ss, i, prefix) { OneWithPrefix(ss, prefix, ss[i]); }
    forall i, j | 0 <= i < |ss| && 0 <= j < |ss| && Only(ss, i, prefix) && Only(ss, j, prefix) ensures i == j {
      OnlyOnce(ss, i, j, prefix);
    }
  }

  lemma OnlyOnce(ss: seq<Section>, i: nat, j: nat, prefix: string)
    requires i < |ss| && j < |ss| && Only(ss, i, prefix) && Only(ss, j, prefix)
    ensures i == j
  {
  }

  /** And those of a hosted release from the only section with its heading. */
  lemma HostedExactly(t: string, version: string, date: string, notes: string)
    ensures HostedNotes(t, version, date) == Ok(notes) <==>
      notes != "" && exists i | 0 <= i < |SectionsOf(t)| ::
        && OnlyWith(SectionsOf(t), i, "## review-sensei-github " + version + " - " + date)
        && Strip(SectionsOf(t)[i].body) == notes
  {
    hide SectionsOf, WithHead, Strip;
    var ss, head := SectionsOf(t), "## review-sensei-github " + version + " - " + date;
    var found := WithHead(ss, head);
    if |found| == 1 {
      assert found == [found[0]];
      OneWithHead(ss, head, found[0]);
    }
    if i: nat :| i < |ss| && OnlyWith(ss, i, head) { OneWithHead(ss, head, ss[i]); }
  }

  /** The changelog begins with its only Unreleased section. */
  ghost predicate Pending(t: string)
  {
    SectionsOf(t) != [] && OnlyWith(SectionsOf(t), 0, "## Unreleased")
  }

  lemma PartsExactly(t: string, parts: Parts)
    ensures ChangelogParts(t) == Ok(parts) <==>
      && Pending(t) && parts.prefix == Preamble(t) + "## Unreleased"
      && parts.pending == Strip(SectionsOf(t)[0].body) && parts.rest == Render(SectionsOf(t)[1..])
  {
    hide Preamble, Strip, Render, FirstSection;
    var ss := SectionsOf(t);
    CountedOnce(ss, "## Unreleased");
    if ss != [] {
      RenderSections(AfterFirst(AfterPreamble(t)));
      assert ss[1..] == Sections(AfterFirst(AfterPreamble(t)));
    }
  }

  /** generate writes a new version's section exactly below an emptied Unreleased, and only
      when no section of that version is there. */
  lemma GenerateExactly(t: string, version: string, date: string, fallback: string, u: string)
    ensures Generate(t, version, date, fallback) == Ok(u) <==>
      && Pending(t) && (forall j | 0 < j < |SectionsOf(t)| :: !("## " + version + " - " <= SectionsOf(t)[j].head))
      && var pending := Strip(SectionsOf(t)[0].body);
      u == Preamble(t) + "## Unreleased" + "\n\n"
        + ("## " + version + " - " + date + "\n\n" + (if pending != "" then pending else fallback) + "\n\n")
        + Render(SectionsOf(t)[1..])
  {
    hide Preamble, Strip, Render, Sections, WithPrefix;
    var ss := SectionsOf(t);
    if Pending(t) {
      var parts := Parts(Preamble(t) + "## Unreleased", Strip(ss[0].body), Render(ss[1..]));
      PartsExactly(t, parts);
      PartsFacts(t);
      NoneWithPrefix(ss[1..], "## " + version + " - ");
      assert forall j | 0 < j < |ss| :: ss[j] == ss[1..][j - 1];
    } else if ChangelogParts(t).Ok? {
      PartsExactly(t, ChangelogParts(t).value);
    }
  }

  lemma {:induction false} RenderSplit(ss: seq<Section>, k: nat)
    requires k <= |ss|
    ensures Render(ss) == Render(ss[..k]) + Render(ss[k..])
  {
    if k > 0 {
      assert ss[..k][1..] == ss[1..][..k - 1] && ss[1..][k - 1..] == ss[k..];
      RenderSplit(ss[1..], k - 1);
      Associates(ss[0].head + ss[0].body, Render(ss[1..][..k - 1]), Render(ss[k..]));
    }
  }

  lemma {:induction false} EndOfOnly(ss: seq<Section>, k: nat, head: string)
    requires k < |ss| && OnlyWith(ss, k, head)
    ensures EndOfHead(ss, head) == |Render(ss[..k + 1])|
  {
    assert ss[..k + 1][1..] == ss[1..][..k];
    if k > 0 {
      OnlyWithLater(ss, k - 1, head);
      EndOfOnly(ss[1..], k - 1, head);
    }
  }

  /** The text with one more section behind the first n. */
  ghost function Inserted(t: string, n: nat, head: string, notes: string): string
    requires n <= |SectionsOf(t)|
  {
    Preamble(t) + Render(SectionsOf(t)[..n]) + (head + "\n\n" + notes + "\n\n") + Render(SectionsOf(t)[n..])
  }

  lemma InsertedBehind(t: string, k: nat, engineHead: string, head: string, notes: string)
    requires k < |SectionsOf(t)| && OnlyWith(SectionsOf(t), k, engineHead)
    ensures InsertAfter(t, engineHead, head, notes) == Inserted(t, k + 1, head, notes)
  {
    hide SectionsOf, Preamble, Render, EndOfHead, OnlyWith;
    var ss := SectionsOf(t);
    EndOfOnly(ss, k, engineHead);
    RenderSplit(ss, k + 1);
    WholeText(t);
    EndOfHeadFits(t, engineHead);
    var front, back := Render(ss[..k + 1]), Render(ss[k + 1..]);
    assert t == (Preamble(t) + front) + back;
  }

  lemma WholeText(t: string)
    ensures t == Preamble(t) + Render(SectionsOf(t))
  {
    RenderSections(AfterPreamble(t));
  }

  /** insert_hosted_release writes exactly when no section has its heading: behind the only
      section of the engine release, or in place of what is pending. */
  lemma InsertExactly(t: string, version: string, date: string, notes: string, engine: Option<string>, u: string)
    ensures InsertHosted(t, version, date, notes, engine) == Ok(u) <==>
      var head := "## review-sensei-github " + version + " - " + date;
      && (forall j | 0 <= j < |SectionsOf(t)| :: SectionsOf(t)[j].head != head)
      && if engine.None? then
           Pending(t) && u == Preamble(t) + "## Unreleased" + "\n\n" + (head + "\n\n" + notes + "\n\n")
             + Render(SectionsOf(t)[1..])
         else
           exists k | 0 <= k < |SectionsOf(t)| ::
             OnlyWith(SectionsOf(t), k, "## " + engine.value + " - " + date) && u == Inserted(t, k + 1, head, notes)
  {
    hide Preamble, Strip, Render, Sections, WithHead, InsertAfter, Inserted;
    var ss, head := SectionsOf(t), "## review-sensei-github " + version + " - " + date;
    NoneWithHead(ss, head);
    if engine.None? {
      if Pending(t) {
        PartsExactly(t, Parts(Preamble(t) + "## Unreleased", Strip(ss[0].body), Render(ss[1..])));
      } else if ChangelogParts(t).Ok? {
        PartsExactly(t, ChangelogParts(t).value);
      }
    } else {
      var engineHead := "## " + engine.value + " - " + date;
      CountedOnce(ss, engineHead);
      forall k | 0 <= k < |ss| && OnlyWith(ss, k, engineHead)
        ensures InsertAfter(t, engineHead, head, notes) == Inserted(t, k + 1, head, notes)
      {
        InsertedBehind(t, k, engineHead, head, notes);
      }
    }
  }

  ghost predicate Stands(s: string, x: string, k: nat)
  {
    k + |x| <= |s| && s[k..k + |x|] == x
  }

  /** str.find answers the first place where the text stands. */
  lemma FindExactly(s: string, x: string, i: nat)
    ensures Find(s, x) == Some(i) <==> Stands(s, x, i) && forall k | 0 <= k < i :: !Stands(s, x, k)
    ensures Find(s, x) == None <==> forall k: nat :: !Stands(s, x, k)
  {
    hide Find;
    forall k: nat | Stands(s, x, k) ensures Find(s, x).Some? && Find(s, x).value <= k { FindIsFirst(s, x, k); }
    if Find(s, x).Some? { assert Stands(s, x, Find(s, x).value); }
  }

  /** Preparing a version again puts the pending notes in front of the notes it has, where
      these are first found below Unreleased. */
  lemma MergeExactly(t: string, version: string, date: string, u: string)
    ensures Remerge(t, version, date) == Ok(u) <==>
      Pending(t) && ReleasedNotes(t, version, date).Ok?
      && var notes := ReleasedNotes(t, version, date).value;
      var pending, rest := Strip(SectionsOf(t)[0].body), Render(SectionsOf(t)[1..]);
      var merged := if pending == "" then notes else Strip(pending + "\n\n" + notes);
      var written := match Find(rest, notes)
        case None => rest
        case Some(i) => rest[..i] + merged + rest[i + |notes|..];
      u == Preamble(t) + "## Unreleased" + "\n\n" + written
  {
    hide Preamble, Strip, Render, Sections, Find, ReleasedNotes;
    var ss := SectionsOf(t);
    if Pending(t) {
      PartsExactly(t, Parts(Preamble(t) + "## Unreleased", Strip(ss[0].body), Render(ss[1..])));
    } else if ChangelogParts(t).Ok? {
      PartsExactly(t, ChangelogParts(t).value);
    }
  }

  /** A hosted release prepared alone writes what is pending, and the pinned engine where
      that does not name it. */
  lemma HostedOnlyWrites(t: string, hosted: string, date: string, engine: string)
    ensures RenderHostedOnly(t, hosted, date, engine).Ok? ==>
      Pending(t) && var pending, pin := Strip(SectionsOf(t)[0].body), "- Pin `review-sensei==" + engine + "`.";
      var p := RenderHostedOnly(t, hosted, date, engine).value;
      && p.written == (if pending == "" then pin
        else if Find(pending, pin).Some? then pending
        else pending + ("\n" + pin))
      && InsertHosted(t, hosted, date, p.written, None) == Ok(p.changelog)
      && HostedNotes(p.changelog, hosted, date) == Ok(p.read)
  {
    hide Preamble, Strip, Render, Sections, Find, InsertHosted, HostedNotes;
    if ChangelogParts(t).Ok? { PartsExactly(t, ChangelogParts(t).value); }
  }
}
