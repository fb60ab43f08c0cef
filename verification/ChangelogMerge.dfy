/** scripts/prepare_release.py, generate for a version that was prepared before: pending
    notes are put in front of the notes of that version by replacing their first occurrence. */
module ChangelogMerge {
  import opened Outcomes
  import opened PythonStrings
  import opened Sequences
  import opened Changelog

  // ----- str.replace with a count of one -----

  /** str.find */
  function Find(s: string, x: string): (r: Option<nat>)
    ensures r.Some? ==> r.value + |x| <= |s| && s[r.value..r.value + |x|] == x
  {
    if x <= s then Some(0)
    else if s == "" then None
    else match Find(s[1..], x)
      case None => None
      case Some(i) =>
        assert s[1..][i..i + |x|] == s[1 + i..1 + i + |x|];
        Some(i + 1)
  }

  function ReplaceFirst(s: string, x: string, y: string): string
  {
    match Find(s, x)
    case None => s
    case Some(i) => s[..i] + y + s[i + |x|..]
  }

  /** No earlier occurrence than the first. */
  lemma {:induction false} FindIsFirst(s: string, x: string, k: nat)
    requires k + |x| <= |s| && s[k..k + |x|] == x
    ensures Find(s, x).Some? && Find(s, x).value <= k
  {
    if !(x <= s) {
      assert k > 0;
      assert s[1..][k - 1..k - 1 + |x|] == s[k..k + |x|];
      FindIsFirst(s[1..], x, k - 1);
    }
  }

  // ----- stripping -----

  predicate AllSpace(s: string)
  {
    forall i | 0 <= i < |s| :: IsSpace(s[i])
  }

  lemma {:induction false} StripLeftThrough(gap: string, s: string)
    requires AllSpace(gap) && s != "" && !IsSpace(s[0])
    ensures StripLeft(gap + s) == s
  {
    if gap == "" {
      assert gap + s == s;
    } else {
      assert (gap + s)[1..] == gap[1..] + s;
      StripLeftThrough(gap[1..], s);
    }
  }

  lemma {:induction false} StripRightThrough(s: string, trail: string)
    requires AllSpace(trail) && s != "" && !IsSpace(s[|s| - 1])
    ensures StripRight(s + trail) == s
  {
    if trail == "" {
      assert s + trail == s;
    } else {
      var n := |trail| - 1;
      assert (s + trail)[..|s| + n] == s + trail[..n];
      StripRightThrough(s, trail[..n]);
    }
  }

  lemma StripAround(gap: string, s: string, trail: string)
    requires AllSpace(gap) && AllSpace(trail) && Stripped(s)
    ensures Strip(gap + (s + trail)) == s
  {
    StripLeftThrough(gap, s + trail);
    StripRightThrough(s, trail);
  }

  lemma {:induction false} LeftIsSpace(t: string, i: nat)
    requires i < |t| - |StripLeft(t)|
    ensures IsSpace(t[i])
  {
    hide IsSpace;
    if i > 0 { LeftIsSpace(t[1..], i - 1); }
  }

  lemma {:induction false} RightIsSpace(t: string, i: nat)
    requires |StripRight(t)| <= i < |t|
    ensures IsSpace(t[i])
  {
    hide IsSpace;
    if i < |t| - 1 { RightIsSpace(t[..|t| - 1], i); }
  }

  lemma StripLeftGap(t: string) returns (gap: string)
    ensures AllSpace(gap) && t == gap + StripLeft(t)
  {
    hide IsSpace;
    gap := t[..|t| - |StripLeft(t)|];
    forall i | 0 <= i < |gap| ensures IsSpace(gap[i]) { LeftIsSpace(t, i); }
  }

  lemma StripRightTrail(t: string) returns (trail: string)
    ensures AllSpace(trail) && t == StripRight(t) + trail
  {
    hide IsSpace;
    trail := t[|StripRight(t)|..];
    forall i | 0 <= i < |trail| ensures IsSpace(trail[i]) { RightIsSpace(t, |StripRight(t)| + i); }
  }

  /** A body around its notes. */
  lemma BodyParts(body: string) returns (gap: string, trail: string)
    requires Strip(body) != ""
    ensures AllSpace(gap) && AllSpace(trail) && body == gap + (Strip(body) + trail) && Stripped(Strip(body))
  {
    gap := StripLeftGap(body);
    trail := StripRightTrail(StripLeft(body));
    StripEnds(StripLeft(body));
  }

  lemma StripEnds(t: string)
    requires StripRight(t) != "" && !IsSpace(t[0])
    ensures Stripped(StripRight(t))
  {
  }

  // ----- the merged text -----

  function Merged(pending: string, notes: string): string
  {
    if pending == "" then notes else Strip(pending + "\n\n" + notes)
  }

  /** The changelog generate writes for a version that has its notes already. */
  function Remerge(t: string, version: string, date: string): Result<string>
  {
    match ChangelogParts(t)
    case Refused => Refused
    case Ok(parts) =>
      match ReleasedNotes(t, version, date)
      case Refused => Refused
      case Ok(notes) => Ok(parts.prefix + "\n\n" + ReplaceFirst(parts.rest, notes, Merged(parts.pending, notes)))
  }

  lemma MergedText(pending: string, notes: string)
    requires Stripped(pending) && Stripped(notes)
    ensures Merged(pending, notes) == pending + ("\n\n" + notes) && Stripped(Merged(pending, notes))
  {
    hide Strip, IsSpace;
    Associates(pending, "\n\n", notes);
    JoinedIsStripped(pending, "\n\n", notes);
    StripOfStripped(pending + ("\n\n" + notes));
  }

  lemma JoinedIsStripped(a: string, gap: string, b: string)
    requires Stripped(a) && Stripped(b)
    ensures Stripped(a + (gap + b))
  {
    hide IsSpace;
    var s := a + (gap + b);
    assert s[0] == a[0] && s[|s| - 1] == b[|b| - 1];
  }

  lemma StripOfStripped(s: string)
    requires Stripped(s)
    ensures Strip(s) == s
  {
    hide Strip, Stripped;
    StripAround("", s, "");
    assert "" + (s + "") == s;
  }

  /** Where the section of this version starts in the text below Unreleased. */
  function StartOf(ss: seq<Section>, prefix: string): nat
  {
    if ss == [] || prefix <= ss[0].head then 0
    else |ss[0].head| + |ss[0].body| + StartOf(ss[1..], prefix)
  }

  /** The text before and after the first section with a prefix. */
  lemma {:induction false} CutAt(t: string, prefix: string) returns (x: string, own: Section, y: string)
    requires StartsSection(t) && WithPrefix(Sections(t), prefix) != []
    ensures t == x + (own.head + own.body + y) && |x| == StartOf(Sections(t), prefix)
    ensures StartsSection(x) && StartsSection(y) && ReadsAsSection(own) && prefix <= own.head
    ensures (x == "" || EndsLine(x)) && (y != "" ==> EndsLine(own.body))
    ensures Sections(t) == Sections(x) + ([own] + Sections(y)) && WithPrefix(Sections(x), prefix) == []
    decreases |t|
  {
    hide TakeToHeading, Line, NoHeading, IsHeading;
    var first, rest := FirstSection(t), AfterFirst(t);
    FirstFacts(t);
    if prefix <= first.head {
      x, own, y := "", first, rest;
      assert "" + t == t;
    } else {
      assert ([first] + Sections(rest))[1..] == Sections(rest);
      var z;
      z, own, y := CutAt(rest, prefix);
      x := first.head + first.body + z;
      CutStep(first, z, own, y, prefix);
    }
  }

  lemma CutStep(first: Section, z: string, own: Section, y: string, prefix: string)
    requires ReadsAsSection(first) && EndsLine(first.body) && StartsSection(z) && StartsSection(y)
    requires (z == "" || EndsLine(z)) && WithPrefix(Sections(z), prefix) == [] && !(prefix <= first.head)
    ensures var here := first.head + first.body; var tail := own.head + own.body + y;
      && here + (z + tail) == (here + z) + tail && StartsSection(here + z) && EndsLine(here + z)
      && Sections(here + z) == [first] + Sections(z) && WithPrefix(Sections(here + z), prefix) == []
      && [first] + (Sections(z) + ([own] + Sections(y))) == Sections(here + z) + ([own] + Sections(y))
  {
    var here := first.head + first.body;
    Associates(here, z, own.head + own.body + y);
    SectionFirst(first, z);
    SectionEndsLine(first);
    assert ([first] + Sections(z))[1..] == Sections(z);
    Associates([first], Sections(z), [own] + Sections(y));
    assert z != "" ==> (here + z)[|here + z| - 1] == z[|z| - 1];
    assert z == "" ==> here + z == here;
  }

  lemma RemergeNeeds(t: string, version: string, date: string)
    requires Remerge(t, version, date).Ok?
    ensures ChangelogParts(t).Ok? && ReleasedNotes(t, version, date).Ok?
  {
  }

  /** A changelog that can be merged into: the one section of the version, and its notes. */
  lemma OwnSection(t: string, version: string, date: string) returns (x: string, own: Section, y: string)
    requires IsVersion(version) && Remerge(t, version, date).Ok?
    ensures ChangelogParts(t).Ok? && ReleasedNotes(t, version, date).Ok?
    ensures StartsSection(x) && StartsSection(y) && ReadsAsSection(own) && own.head == EngineHead(version, date)
    ensures var rest := ChangelogParts(t).value.rest; var prefix := EnginePrefix(version);
      && rest == x + (own.head + own.body + y) && |x| == StartOf(Sections(rest), prefix)
      && Sections(rest) == Sections(x) + ([own] + Sections(y))
      && WithPrefix(Sections(x), prefix) == [] && WithPrefix(Sections(y), prefix) == []
    ensures (x == "" || EndsLine(x)) && (y != "" ==> EndsLine(own.body))
    ensures Ok(Strip(own.body)) == ReleasedNotes(t, version, date) && Strip(own.body) != ""
    ensures own.body == OwnBody(t, version, date)
  {
    hide StartOf, Strip, ReadsAsSection, EngineHead, EnginePrefix, Sections, WithPrefix, ReleasedNotes,
         Remerge, ChangelogParts, StartsSection, EndsLine;
    RemergeNeeds(t, version, date);
    var rest, prefix := ChangelogParts(t).value.rest, EnginePrefix(version);
    var only := OnlySection(t, version, date);
    x, own, y := CutAt(rest, prefix);
    WithPrefixConcat(Sections(x), [own] + Sections(y), prefix);
    OneCandidate(own, Sections(y), prefix);
    SameOnly(own, WithPrefix(Sections(y), prefix), only);
  }

  /** The body of the section the notes were read from. */
  function OwnBody(t: string, version: string, date: string): string
    requires ReleasedNotes(t, version, date).Ok?
  {
    WithPrefix(SectionsOf(t), EnginePrefix(version))[0].body
  }

  lemma SameOnly(own: Section, others: seq<Section>, only: Section)
    requires [] + ([own] + others) == [only]
    ensures own == only && others == []
  {
    assert ([] + ([own] + others))[0] == own;
    assert |[] + ([own] + others)| == 1 + |others|;
  }

  /** What reading the notes says about the sections below Unreleased. */
  lemma OnlySection(t: string, version: string, date: string) returns (only: Section)
    requires IsVersion(version) && Remerge(t, version, date).Ok?
    ensures WithPrefix(Sections(ChangelogParts(t).value.rest), EnginePrefix(version)) == [only]
    ensures only.head == EngineHead(version, date) && Strip(only.body) != ""
    ensures ReleasedNotes(t, version, date) == Ok(Strip(only.body)) && only.body == OwnBody(t, version, date)
  {
    hide Strip, EngineHead, EnginePrefix, Sections, SectionsOf, ChangelogParts, WithPrefix, Remerge;
    RemergeNeeds(t, version, date);
    var first := UnreleasedThen(t);
    UnreleasedIsNoRelease(version);
    FirstPrefixIgnored(first, Sections(ChangelogParts(t).value.rest), EnginePrefix(version));
    only := WithPrefix(SectionsOf(t), EnginePrefix(version))[0];
  }

  lemma OneCandidate(own: Section, others: seq<Section>, prefix: string)
    requires prefix <= own.head
    ensures WithPrefix([own] + others, prefix) == [own] + WithPrefix(others, prefix)
  {
    assert ([own] + others)[1..] == others;
  }

  // ----- where the notes are found -----

  lemma SliceAt(a: string, b: string, c: string)
    ensures (a + (b + c))[|a|..|a| + |b|] == b
  {
  }

  /** In the section itself, the notes are found where its body holds them. */
  lemma FoundInBody(x: string, head: string, gap: string, notes: string, trail: string, y: string)
    requires AllSpace(gap) && Stripped(notes)
    ensures var rest := x + (head + (gap + (notes + trail)) + y); var k := |x| + |head| + |gap|;
      Find(rest, notes).Some? && Find(rest, notes).value <= k
      && (Find(rest, notes).value >= |x| + |head| ==> Find(rest, notes).value == k)
  {
    hide Find;
    var rest, k := x + (head + (gap + (notes + trail)) + y), |x| + |head| + |gap|;
    InFront(x, head, gap, notes, trail, y);
    SliceAt(x + head + gap, notes, trail + y);
    FindIsFirst(rest, notes, k);
    var i := Find(rest, notes).value;
    assert rest[i..i + |notes|][0] == rest[i];
    forall j | |x| + |head| <= j < k ensures IsSpace(rest[j]) { SpaceThere(x + head, gap, notes + (trail + y), j); }
  }

  lemma InFront(x: string, head: string, gap: string, notes: string, trail: string, y: string)
    ensures x + (head + (gap + (notes + trail)) + y) == (x + head + gap) + (notes + (trail + y))
  {
  }

  lemma SpaceThere(a: string, gap: string, b: string, i: nat)
    requires AllSpace(gap) && |a| <= i < |a| + |gap|
    ensures IsSpace((a + gap + b)[i])
  {
    assert (a + gap + b)[i] == gap[i - |a|];
  }

  lemma ReplacedInBody(x: string, head: string, gap: string, notes: string, trail: string, y: string, other: string)
    ensures var rest := x + (head + (gap + (notes + trail)) + y); var k := |x| + |head| + |gap|;
      k + |notes| <= |rest| && rest[..k] + other + rest[k + |notes|..] == x + (head + (gap + (other + trail)) + y)
  {
    var front := x + head + gap;
    var rest := x + (head + (gap + (notes + trail)) + y);
    assert rest == front + (notes + (trail + y));
    assert rest[..|front|] == front && rest[|front| + |notes|..] == trail + y;
    assert x + (head + (gap + (other + trail)) + y) == front + (other + (trail + y));
    Associates(front, other, trail + y);
  }

  /** ... and replaced there. */
  lemma ReplacedThere(x: string, head: string, gap: string, notes: string, trail: string, y: string, other: string)
    requires AllSpace(gap) && Stripped(notes)
    requires var rest := x + (head + (gap + (notes + trail)) + y);
      Find(rest, notes).Some? ==> Find(rest, notes).value >= |x| + |head|
    ensures ReplaceFirst(x + (head + (gap + (notes + trail)) + y), notes, other)
         == x + (head + (gap + (other + trail)) + y)
  {
    hide Find, AllSpace, Stripped;
    FoundInBody(x, head, gap, notes, trail, y);
    ReplacedInBody(x, head, gap, notes, trail, y, other);
  }

  // ----- headings -----

  lemma {:induction false} NoHeadingThen(a: string, b: string, bol: bool)
    requires NoHeading(a, bol) && b != "" && b[0] == '\n' && NoHeading(b, false)
    ensures NoHeading(a + b, bol)
  {
    if a == "" {
      assert a + b == b;
    } else {
      assert (a + b)[1..] == a[1..] + b;
      assert TakeToHeading(a, bol)[1..] == TakeToHeading(a[1..], a[0] == '\n');
      assert a == [a[0]] + a[1..];
      NoHeadingThen(a[1..], b, a[0] == '\n');
      assert IsHeading(a + b) ==> IsHeading(a);
    }
  }

  lemma {:induction false} NoHeadingBehindSpace(gap: string, b: string, bol: bool)
    requires AllSpace(gap) && NoHeading(b, true)
    ensures NoHeading(gap + b, bol)
  {
    hide IsHeading, IsSpace;
    if gap == "" {
      assert gap + b == b;
      Unbroken(b, bol);
    } else {
      assert (gap + b)[1..] == gap[1..] + b;
      NoHeadingBehindSpace(gap[1..], b, gap[0] == '\n');
      SpaceStartsNoHeading(gap + b);
    }
  }

  lemma SpaceStartsNoHeading(t: string)
    requires t != "" && IsSpace(t[0])
    ensures !IsHeading(t)
  {
  }

  lemma Unbroken(b: string, bol: bool)
    requires NoHeading(b, true)
    ensures NoHeading(b, bol)
  {
    assert b != "" ==> !IsHeading(b);
  }

  /** Notes that start a heading wherever they start a line. */
  predicate StartsHeading(s: string) { IsHeading(s) || s == "##" }

  lemma NotesThenSpace(notes: string, trail: string)
    requires Stripped(notes) && AllSpace(trail) && !StartsHeading(notes)
    ensures !IsHeading(notes + trail)
  {
    var s := notes + trail;
    assert !IsSpace('#') && IsSpace(' ');
    assert forall j | 0 <= j < |notes| :: s[j] == notes[j];
    assert forall j | |notes| <= j < |s| :: s[j] == trail[j - |notes|];
  }

  /** Merging uncovers no heading unless pending or existing notes strip to one. */
  lemma MergedBody(gap: string, pending: string, notes: string, trail: string)
    requires NoHeading(gap + (notes + trail), false) && AllSpace(gap) && AllSpace(trail)
    requires Stripped(notes) && Stripped(pending) && NoHeading(pending, true) && !StartsHeading(notes)
    ensures NoHeading(gap + (Merged(pending, notes) + trail), false)
  {
    var given := notes + trail;
    TakeSuffix(gap, given, false);
    NotesThenSpace(notes, trail);
    StartOnly(given, if gap == "" then false else gap[|gap| - 1] == '\n');
    TakeAfterBlank(given);
    var blank := "\n\n" + given;
    NoHeadingThen(pending, blank, true);
    NoHeadingBehindSpace(gap, pending + blank, false);
    MergedText(pending, notes);
    Associates(pending, "\n\n" + notes, trail);
    Associates("\n\n", notes, trail);
  }

  lemma GapStarts(gap: string, notes: string, trail: string)
    requires Stripped(notes) && (gap + (notes + trail))[0] == '\n'
    ensures gap != "" && gap[0] == '\n'
  {
    assert (notes + trail)[0] == notes[0];
  }

  lemma LastOf(a: string, b: string)
    requires b != ""
    ensures a + b != "" && (a + b)[|a + b| - 1] == b[|b| - 1]
  {
  }

  lemma AddNothing(s: string)
    ensures s + "" == s
  {
  }

  lemma BodyEndsLine(gap: string, notes: string, trail: string, merged: string)
    requires EndsLine(gap + (notes + trail)) && Stripped(notes)
    ensures EndsLine(gap + (merged + trail))
  {
    LastOf(gap, notes + trail);
    if trail == "" {
      AddNothing(notes);
    } else {
      LastOf(notes, trail);
      LastOf(gap, merged + trail);
      LastOf(merged, trail);
    }
  }

  // ----- the merged changelog -----

  /** Everything below an emptied Unreleased section reads as it stands. */
  lemma RestSections(t: string, rest: string)
    requires ChangelogParts(t).Ok? && StartsSection(rest)
    ensures SectionsOf(ChangelogParts(t).value.prefix + "\n\n" + rest) == [EMPTY_UNRELEASED] + Sections(rest)
  {
    hide Sections, AfterPreamble, Preamble;
    PartsFacts(t);
    var p := Preamble(t);
    UnreleasedFirst(rest);
    SectionsAfterPreamble(p, UNRELEASED + "\n\n" + rest);
    Associates(p, UNRELEASED, "\n\n");
    Associates(p, UNRELEASED + "\n\n", rest);
  }

  lemma MiddleSection(x: string, own: Section, y: string)
    requires StartsSection(x) && StartsSection(y) && ReadsAsSection(own)
    requires (x == "" || EndsLine(x)) && (y != "" ==> EndsLine(own.body))
    ensures StartsSection(x + (own.head + own.body + y))
    ensures Sections(x + (own.head + own.body + y)) == Sections(x) + ([own] + Sections(y))
  {
    hide ReadsAsSection;
    SectionFirst(own, y);
    SectionsConcat(x, own.head + own.body + y);
  }

  /** generate takes this branch and writes a changelog. */
  predicate Mergeable(t: string, version: string, date: string)
  {
    IsVersion(version) && Remerge(t, version, date).Ok?
  }

  /** The offset of the first occurrence of the notes, and where the version's section
      starts, both in the text below Unreleased. */
  function Occurrence(t: string, version: string, date: string): Option<nat>
    requires Remerge(t, version, date).Ok?
  {
    Find(ChangelogParts(t).value.rest, ReleasedNotes(t, version, date).value)
  }

  function SectionStart(t: string, version: string): nat
    requires ChangelogParts(t).Ok?
  {
    StartOf(Sections(ChangelogParts(t).value.rest), EnginePrefix(version))
  }

  function WithPending(t: string, version: string, date: string): string
    requires Remerge(t, version, date).Ok?
  {
    Merged(ChangelogParts(t).value.pending, ReleasedNotes(t, version, date).value)
  }

  /** The notes are first found below the heading line of the version. */
  predicate Landed(t: string, version: string, date: string)
    requires Remerge(t, version, date).Ok?
  {
    Occurrence(t, version, date).Some?
    && Occurrence(t, version, date).value >= SectionStart(t, version) + |EngineHead(version, date)|
  }

  /** The body of the version's section with the merged notes in place. */
  function Spliced(t: string, version: string, date: string): string
    requires Remerge(t, version, date).Ok?
  {
    ReplaceFirst(OwnBody(t, version, date), ReleasedNotes(t, version, date).value, WithPending(t, version, date))
  }

  /** The merge reaches the version's own section and makes no new heading there. */
  predicate Merges(t: string, version: string, date: string)
    requires Remerge(t, version, date).Ok?
  {
    Landed(t, version, date) && NoHeading(Spliced(t, version, date), false)
  }

  /** What is merged, around which the body stays as it is. */
  lemma SplicedText(t: string, version: string, date: string, gap: string, trail: string)
    requires Remerge(t, version, date).Ok? && Stripped(ReleasedNotes(t, version, date).value) && AllSpace(gap)
    requires OwnBody(t, version, date) == gap + (ReleasedNotes(t, version, date).value + trail)
    ensures Spliced(t, version, date) == gap + (WithPending(t, version, date) + trail)
  {
    hide ReplaceFirst, Remerge, ReleasedNotes, OwnBody, WithPending, AllSpace, Stripped;
    RemergeNeeds(t, version, date);
    var notes, after := ReleasedNotes(t, version, date).value, WithPending(t, version, date);
    ReplacedThere("", "", gap, notes, trail, "", after);
    InNothing(gap + (notes + trail));
    InNothing(gap + (after + trail));
  }

  lemma InNothing(s: string)
    ensures "" + ("" + s + "") == s
  {
  }

  lemma WithPendingFacts(t: string, version: string, date: string)
    requires Remerge(t, version, date).Ok? && Stripped(ReleasedNotes(t, version, date).value)
    ensures Stripped(WithPending(t, version, date))
    ensures var parts, notes := ChangelogParts(t).value, ReleasedNotes(t, version, date).value;
      if parts.pending == "" then WithPending(t, version, date) == notes
      else WithPending(t, version, date) == parts.pending + ("\n\n" + notes)
  {
    hide ReleasedNotes;
    if ChangelogParts(t).value.pending != "" {
      PendingIsStripped(t);
      MergedText(ChangelogParts(t).value.pending, ReleasedNotes(t, version, date).value);
    }
  }

  /** When the merge reaches the version's own section and uncovers no heading, that
      section's body is what changes, and nothing else but the emptied Unreleased. */
  lemma MergeSections(t: string, version: string, date: string)
        returns (x: string, own: Section, merged: Section, y: string)
    requires Mergeable(t, version, date) && Merges(t, version, date)
    ensures StartsSection(x) && StartsSection(y) && own.head == merged.head == EngineHead(version, date)
    ensures ChangelogParts(t).Ok? && Sections(ChangelogParts(t).value.rest) == Sections(x) + ([own] + Sections(y))
    ensures WithPrefix(Sections(x), EnginePrefix(version)) == [] && WithPrefix(Sections(y), EnginePrefix(version)) == []
    ensures SectionsOf(Remerge(t, version, date).value) == [EMPTY_UNRELEASED] + (Sections(x) + ([merged] + Sections(y)))
    ensures Strip(merged.body) == WithPending(t, version, date) != ""
  {
    hide Strip, Sections, WithPrefix, EngineHead, EnginePrefix, ReleasedNotes, ChangelogParts, SectionsOf,
         IsVersion, Remerge, NoHeading;
    hide WithPending, Landed, Spliced;
    var gap, trail;
    x, own, gap, trail, y := LandedText(t, version, date);
    var after := WithPending(t, version, date);
    merged := Section(own.head, gap + (after + trail));
    MergedReads(own, gap, ReleasedNotes(t, version, date).value, trail, after);
    if y != "" { BodyEndsLine(gap, ReleasedNotes(t, version, date).value, trail, after); }
    MiddleSection(x, merged, y);
    RestSections(t, x + (merged.head + merged.body + y));
    StripAround(gap, after, trail);
  }

  lemma MergedReads(own: Section, gap: string, notes: string, trail: string, after: string)
    requires ReadsAsSection(own) && own.body == gap + (notes + trail) && Stripped(notes)
    requires NoHeading(gap + (after + trail), false)
    ensures ReadsAsSection(Section(own.head, gap + (after + trail)))
  {
    assert own.body[|gap|] == (notes + trail)[0] == notes[0];
    GapStarts(gap, notes, trail);
  }

  lemma RemergeIs(t: string, version: string, date: string)
    requires Remerge(t, version, date).Ok?
    ensures var parts, notes := ChangelogParts(t).value, ReleasedNotes(t, version, date).value;
      && Remerge(t, version, date).value
         == parts.prefix + "\n\n" + ReplaceFirst(parts.rest, notes, WithPending(t, version, date))
      && Occurrence(t, version, date) == Find(parts.rest, notes)
  {
    hide ReplaceFirst, Find, Merged, ChangelogParts, ReleasedNotes;
  }

  /** The text the merge writes when it reaches the version's own section. */
  lemma LandedText(t: string, version: string, date: string)
      returns (x: string, own: Section, gap: string, trail: string, y: string)
    requires Mergeable(t, version, date) && Landed(t, version, date)
    ensures ChangelogParts(t).Ok? && ReleasedNotes(t, version, date).Ok?
    ensures StartsSection(x) && StartsSection(y) && ReadsAsSection(own) && own.head == EngineHead(version, date)
    ensures var rest := ChangelogParts(t).value.rest;
      && Sections(rest) == Sections(x) + ([own] + Sections(y))
      && WithPrefix(Sections(x), EnginePrefix(version)) == [] && WithPrefix(Sections(y), EnginePrefix(version)) == []
    ensures (x == "" || EndsLine(x)) && (y != "" ==> EndsLine(own.body))
    ensures var notes, after := ReleasedNotes(t, version, date).value, WithPending(t, version, date);
      && own.body == gap + (notes + trail) && AllSpace(gap) && AllSpace(trail) && Stripped(notes) && Stripped(after)
      && Spliced(t, version, date) == gap + (after + trail)
      && Remerge(t, version, date).value == ChangelogParts(t).value.prefix + "\n\n"
        + (x + (own.head + (gap + (after + trail)) + y))
  {
    hide StartOf, Strip, StripLeft, StripRight, Find, Sections, WithPrefix, EngineHead, EnginePrefix,
         ReleasedNotes, ChangelogParts, SectionsOf, Merged, ReadsAsSection, IsVersion, OwnBody;
    hide StartsSection, EndsLine, Stripped, AllSpace, NotesOf, WithPending, Spliced, Remerge, ReplaceFirst,
         Landed, Occurrence;
    RemergeNeeds(t, version, date);
    x, own, y := OwnSection(t, version, date);
    gap, trail := BodyParts(own.body);
    var notes := ReleasedNotes(t, version, date).value;
    RemergeIs(t, version, date);
    LandedThere(t, version, date, own.head, x);
    ReplacedThere(x, own.head, gap, notes, trail, y, WithPending(t, version, date));
    WithPendingFacts(t, version, date);
    SplicedText(t, version, date, gap, trail);
  }

  lemma LandedThere(t: string, version: string, date: string, head: string, x: string)
    requires Remerge(t, version, date).Ok? && Landed(t, version, date) && head == EngineHead(version, date)
    requires |x| == StartOf(Sections(ChangelogParts(t).value.rest), EnginePrefix(version))
    ensures Occurrence(t, version, date).Some? && Occurrence(t, version, date).value >= |x| + |head|
  {
    hide Find, ReleasedNotes, ChangelogParts, Remerge, Sections, StartOf, EngineHead, EnginePrefix;
  }

  /** Then the version's notes read back with the pending notes in front. */
  lemma MergeReadsBack(t: string, version: string, date: string)
    requires Mergeable(t, version, date) && OneLine(date) && Merges(t, version, date)
    ensures ReleasedNotes(Remerge(t, version, date).value, version, date) == Ok(WithPending(t, version, date))
  {
    hide Strip, Sections, WithPrefix, EngineHead, EnginePrefix, ChangelogParts, SectionsOf, Remerge, Merges,
         WithPending;
    var x, own, merged, y := MergeSections(t, version, date);
    MergeCandidate(x, merged, y, version, date);
  }

  lemma MergeCandidate(x: string, merged: Section, y: string, version: string, date: string)
    requires IsVersion(version) && OneLine(date) && merged.head == EngineHead(version, date) && StartsSection(x)
      && StartsSection(y)
    requires WithPrefix(Sections(x), EnginePrefix(version)) == []
      && WithPrefix(Sections(y), EnginePrefix(version)) == []
    ensures WithPrefix([EMPTY_UNRELEASED] + (Sections(x) + ([merged] + Sections(y))), EnginePrefix(version)) == [merged]
  {
    hide Sections, EngineHead, EnginePrefix;
    var prefix := EnginePrefix(version);
    VersionHasNoBlank(version);
    HeadsAreLines(version, date);
    UnreleasedIsNoRelease(version);
    WithPrefixConcat(Sections(x), [merged] + Sections(y), prefix);
    OneCandidate(merged, Sections(y), prefix);
    var below := Sections(x) + ([merged] + Sections(y));
    assert ([EMPTY_UNRELEASED] + below)[1..] == below;
    WithPrefixTail([EMPTY_UNRELEASED] + below, prefix);
  }

  lemma FirstHeadIgnored(s: Section, b: seq<Section>, head: string)
    requires s.head != head
    ensures WithHead([s] + b, head) == WithHead(b, head)
  {
    assert ([s] + b)[1..] == b;
  }

  lemma FirstPrefixIgnored(s: Section, b: seq<Section>, prefix: string)
    requires !(prefix <= s.head)
    ensures WithPrefix([s] + b, prefix) == WithPrefix(b, prefix)
  {
    assert ([s] + b)[1..] == b;
  }

  /** ... and all other releases read as before. */
  lemma MergeKeepsOthers(t: string, version: string, date: string, v: string, d: string)
    requires Mergeable(t, version, date) && OneLine(date) && Merges(t, version, date)
    ensures IsVersion(v) && v != version ==>
      ReleasedNotes(Remerge(t, version, date).value, v, d) == ReleasedNotes(t, v, d)
    ensures HostedNotes(Remerge(t, version, date).value, v, d) == HostedNotes(t, v, d)
  {
    hide WithPrefix, WithHead, EngineHead, EnginePrefix, HostedHead, SectionsOf, Mergeable, Remerge, Merges,
         IsVersion, NotesOf, ChangelogParts;
    var first, a, own, merged, b := MergedBeside(t, version, date);
    if IsVersion(v) && v != version { SameCandidates(first, a, own, merged, b, version, date, v); }
    HostedHeadsDiffer(version, date, v, d);
    SameHosted(first, a, own, merged, b, HostedHead(v, d));
  }

  /** All sections before and after the merge. */
  lemma MergedBeside(t: string, version: string, date: string)
      returns (first: Section, a: seq<Section>, own: Section, merged: Section, b: seq<Section>)
    requires Mergeable(t, version, date) && Merges(t, version, date)
    ensures IsVersion(version) && first.head == UNRELEASED && own.head == merged.head == EngineHead(version, date)
    ensures SectionsOf(t) == [first] + (a + ([own] + b))
    ensures SectionsOf(Remerge(t, version, date).value) == [EMPTY_UNRELEASED] + (a + ([merged] + b))
  {
    hide Strip, Sections, WithPrefix, EngineHead, EnginePrefix, SectionsOf, Remerge, Merges, IsVersion,
         ChangelogParts, ReleasedNotes;
    var x, y;
    x, own, merged, y := MergeSections(t, version, date);
    first := UnreleasedThen(t);
    a, b := Sections(x), Sections(y);
  }

  lemma UnreleasedThen(t: string) returns (first: Section)
    requires ChangelogParts(t).Ok?
    ensures first.head == UNRELEASED && SectionsOf(t) == [first] + Sections(ChangelogParts(t).value.rest)
  {
    hide SectionsOf, Sections, ChangelogParts, Preamble, NoHeading, EndsLine, Strip;
    PartsFacts(t);
    first := SectionsOf(t)[0];
    FirstAndRest(SectionsOf(t));
  }

  lemma FirstAndRest<T>(s: seq<T>)
    requires s != []
    ensures s == [s[0]] + s[1..]
  {
  }

  lemma SameCandidates(first: Section, a: seq<Section>, own: Section, merged: Section, b: seq<Section>,
        version: string, date: string, v: string)
    requires IsVersion(v) && IsVersion(version) && v != version && first.head == UNRELEASED
    requires own.head == merged.head == EngineHead(version, date)
    ensures WithPrefix([first] + (a + ([own] + b)), EnginePrefix(v))
      == WithPrefix([EMPTY_UNRELEASED] + (a + ([merged] + b)), EnginePrefix(v))
  {
    hide IsVersion, EnginePrefix, EngineHead, WithPrefix;
    var prefix := EnginePrefix(v);
    UnreleasedIsNoRelease(v);
    OtherVersion(v, version, date);
    FirstPrefixIgnored(first, a + ([own] + b), prefix);
    FirstPrefixIgnored(EMPTY_UNRELEASED, a + ([merged] + b), prefix);
    MiddleIgnored(a, own, b, prefix);
    MiddleIgnored(a, merged, b, prefix);
  }

  lemma SameHosted(first: Section, a: seq<Section>, own: Section, merged: Section, b: seq<Section>, head: string)
    requires first.head == UNRELEASED != head && own.head == merged.head != head
    ensures WithHead([first] + (a + ([own] + b)), head) == WithHead([EMPTY_UNRELEASED] + (a + ([merged] + b)), head)
  {
    hide WithHead;
    FirstHeadIgnored(first, a + ([own] + b), head);
    FirstHeadIgnored(EMPTY_UNRELEASED, a + ([merged] + b), head);
    MiddleHeadIgnored(a, own, b, head);
    MiddleHeadIgnored(a, merged, b, head);
  }

  // ----- when the notes are found further up -----

  /** A section at the start of a line is read, whatever stands above it. */
  lemma SectionSurvives(above: string, own: Section, y: string)
    requires (above == "" || EndsLine(above)) && ReadsAsSection(own) && StartsSection(y)
      && (y != "" ==> EndsLine(own.body))
    ensures own in SectionsOf(above + (own.head + own.body + y))
  {
    hide Sections, TakeToHeading, ReadsAsSection, NoHeading;
    var body := own.head + own.body + y;
    SectionFirst(own, y);
    var p, a := Preamble(above), AfterPreamble(above);
    TakeFacts(above, true);
    TakeIdempotent(above, true);
    if a == "" {
      AddNothing(p);
      SectionsAfterPreamble(above, body);
    } else {
      AfterEndsLine(p, a);
      SectionsConcat(a, body);
      HeadingPrefix(a, body);
      Associates(p, a, body);
      SectionsAfterPreamble(p, a + body);
      assert own in Sections(a) + ([own] + Sections(y));
    }
  }

  lemma AfterEndsLine(p: string, a: string)
    requires a != "" && EndsLine(p + a)
    ensures EndsLine(a)
  {
    LastOf(p, a);
  }

  lemma Inserted(rest: string, i: nat, pending: string, notes: string)
    requires i + |notes| <= |rest| && rest[i..i + |notes|] == notes
    ensures rest[..i] + (pending + ("\n\n" + notes)) + rest[i + |notes|..]
      == (rest[..i] + (pending + "\n\n")) + rest[i..]
  {
    var a, c := rest[..i], rest[i + |notes|..];
    assert rest[i..] == notes + c;
    Associates(pending, "\n\n", notes);
    Associates(a, pending + "\n\n" + notes, c);
    Associates(pending + "\n\n", notes, c);
    Associates(a, pending + "\n\n", notes + c);
  }

  /** What stands above a section that starts at or after the replaced occurrence. */
  lemma MergedAbove(x: string, own: string, i: nat, q: string, prefix: string)
    requires i <= |x| && (x == "" || EndsLine(x)) && EndsLine(q)
    ensures var rest := x + own;
      var above := prefix + ((rest[..i] + q) + x[i..]);
      EndsLine(above) && prefix + ((rest[..i] + q) + rest[i..]) == above + own
  {
    var rest := x + own;
    assert rest[i..] == x[i..] + own;
    Associates(rest[..i] + q, x[i..], own);
    Associates(prefix, (rest[..i] + q) + x[i..], own);
    LastOf(rest[..i], q);
    if i == |x| {
      AddNothing(rest[..i] + q);
      assert x[i..] == "";
    } else {
      LastOf(rest[..i] + q, x[i..]);
      assert x[i..][|x[i..]| - 1] == x[|x| - 1];
    }
    LastOf(prefix, (rest[..i] + q) + x[i..]);
  }

  lemma EndsBlank(p: string)
    ensures EndsLine(p + "\n\n")
  {
  }

  /** The text the merge writes around a section that starts at or after the occurrence. */
  lemma ElsewhereText(t: string, version: string, date: string, x: string, ownText: string) returns (above: string)
    requires Remerge(t, version, date).Ok? && ChangelogParts(t).value.pending != ""
      && Stripped(ReleasedNotes(t, version, date).value)
    requires Occurrence(t, version, date).Some? && Occurrence(t, version, date).value <= |x|
    requires ChangelogParts(t).value.rest == x + ownText && (x == "" || EndsLine(x))
    ensures EndsLine(above) && Remerge(t, version, date).value == above + ownText
  {
    hide Find, ChangelogParts, ReleasedNotes, EndsLine, Stripped, Remerge, WithPending, Occurrence;
    RemergeNeeds(t, version, date);
    var parts, notes := ChangelogParts(t).value, ReleasedNotes(t, version, date).value;
    var q := parts.pending + "\n\n";
    RemergeIs(t, version, date);
    WithPendingFacts(t, version, date);
    EndsBlank(parts.pending);
    var i := Find(parts.rest, notes).value;
    Inserted(parts.rest, i, parts.pending, notes);
    MergedAbove(x, ownText, i, q, parts.prefix + "\n\n");
    above := parts.prefix + "\n\n" + ((parts.rest[..i] + q) + x[i..]);
  }

  /** Found further up, the notes of the version stay without the pending ones. */
  lemma MergedElsewhere(t: string, version: string, date: string)
    requires Mergeable(t, version, date) && Occurrence(t, version, date).Some? && ChangelogParts(t).value.pending != ""
    requires Occurrence(t, version, date).value <= SectionStart(t, version)
    ensures ReleasedNotes(Remerge(t, version, date).value, version, date) != Ok(WithPending(t, version, date))
  {
    hide StartOf, Strip, Sections, WithPrefix, EngineHead, EnginePrefix, ChangelogParts, SectionsOf, Merged,
         ReadsAsSection, IsVersion, ReleasedNotes, EndsLine, Remerge;
    hide StartsSection, Stripped, AllSpace, OwnBody, Occurrence, WithPending;
    var x, own, y := OwnSection(t, version, date);
    var gap, trail := BodyParts(own.body);
    WithPendingFacts(t, version, date);
    var above := ElsewhereText(t, version, date, x, own.head + own.body + y);
    SectionSurvives(above, own, y);
    OldNotesOnly(Remerge(t, version, date).value, own, version, date, WithPending(t, version, date));
  }

  // ----- when the merge uncovers a heading -----

  /** A heading inside a text ends it, whatever follows at the start of a line. */
  lemma {:induction false} TakeStopsInside(a: string, b: string, bol: bool)
    requires !NoHeading(a, bol) && (b == "" || EndsLine(a))
    ensures TakeToHeading(a + b, bol) == TakeToHeading(a, bol)
  {
    if b == "" {
      AddNothing(a);
    } else {
      HeadingInPrefix(a, b);
      if !(bol && IsHeading(a)) {
        assert (a + b)[1..] == a[1..] + b;
        assert TakeToHeading(a, bol) == [a[0]] + TakeToHeading(a[1..], a[0] == '\n');
        assert a == [a[0]] + a[1..];
        if |a| > 1 { assert a[1..][|a| - 2] == a[|a| - 1]; }
        TakeStopsInside(a[1..], b, a[0] == '\n');
      }
    }
  }

  lemma {:induction false} StripLeftShorter(gap: string, u: string)
    requires AllSpace(gap)
    ensures |StripLeft(gap + u)| <= |u|
  {
    hide IsSpace;
    if gap == "" {
      assert gap + u == u;
    } else {
      assert (gap + u)[1..] == gap[1..] + u;
      StripLeftShorter(gap[1..], u);
    }
  }

  /** What is taken of a body stops short of its notes when a heading is uncovered. */
  lemma CutIsShorter(gap: string, notes: string, trail: string)
    requires AllSpace(gap) && AllSpace(trail) && !NoHeading(gap + (notes + trail), false) && notes != ""
    ensures |Strip(TakeToHeading(gap + (notes + trail), false))| < |notes|
  {
    hide StripLeft, StripRight, NoHeading;
    var body := gap + (notes + trail);
    var cut := TakeToHeading(body, false);
    HeadingInside(body);
    var n := |cut|;
    assert !IsSpace('#');
    assert forall j | |gap| + |notes| <= j < |body| :: body[j] == trail[j - |gap| - |notes|];
    assert n < |gap| + |notes|;
    if n <= |gap| {
      assert cut == gap[..n] + "";
      StripLeftShorter(gap[..n], "");
    } else {
      assert cut == gap + notes[..n - |gap|];
      StripLeftShorter(gap, notes[..n - |gap|]);
    }
  }

  lemma HeadingInside(body: string)
    requires !NoHeading(body, false)
    ensures var cut := TakeToHeading(body, false); cut <= body && |cut| < |body| && body[|cut|] == '#'
  {
    TakeFacts(body, false);
  }

  lemma MergedCut(t: string, version: string, date: string)
    requires Mergeable(t, version, date) && Landed(t, version, date) && !NoHeading(Spliced(t, version, date), false)
    ensures ReleasedNotes(Remerge(t, version, date).value, version, date) != Ok(WithPending(t, version, date))
  {
    hide Strip, Sections, WithPrefix, EngineHead, EnginePrefix, ReleasedNotes, ChangelogParts, SectionsOf,
         IsVersion, Remerge, NoHeading;
    hide WithPending, Landed, Spliced, TakeToHeading;
    var x, own, gap, trail, y := LandedText(t, version, date);
    var after, prefix := WithPending(t, version, date), ChangelogParts(t).value.prefix;
    var body := gap + (after + trail);
    var first, rest := CutSectionOf(own, body, y, gap, ReleasedNotes(t, version, date).value, trail, after);
    CutIsShorter(gap, after, trail);
    AboveEndsLine(prefix, x);
    Associates(prefix + "\n\n", x, own.head + body + y);
    SectionSurvives(prefix + "\n\n" + x, first, rest);
    OldNotesOnly(Remerge(t, version, date).value, first, version, date, after);
  }

  lemma AboveEndsLine(prefix: string, x: string)
    requires x == "" || EndsLine(x)
    ensures EndsLine(prefix + "\n\n" + x)
  {
    if x == "" {
      AddNothing(prefix + "\n\n");
      EndsBlank(prefix);
    } else {
      LastOf(prefix + "\n\n", x);
    }
  }

  /** The section that is read where a heading stands in its body. */
  lemma CutSectionOf(own: Section, body: string, y: string, gap: string, notes: string, trail: string, after: string)
      returns (first: Section, rest: string)
    requires ReadsAsSection(own) && own.body == gap + (notes + trail) && Stripped(notes) && AllSpace(gap)
    requires body == gap + (after + trail) && !NoHeading(body, false) && StartsSection(y)
      && (y != "" ==> EndsLine(own.body))
    ensures own.head + body + y == first.head + first.body + rest && ReadsAsSection(first) && StartsSection(rest)
    ensures (rest != "" ==> EndsLine(first.body)) && first.head == own.head && first.body == TakeToHeading(body, false)
  {
    GapStarts(gap, notes, trail);
    if y != "" { BodyEndsLine(gap, notes, trail, after); }
    var u := own.head + body + y;
    Associates(own.head, body, y);
    HeadingPrefix(own.head, body + y);
    LineAppend(own.head, body + y);
    assert u[|own.head|..] == body + y;
    TakeStopsInside(body, y, false);
    first, rest := FirstSection(u), AfterFirst(u);
    FirstFacts(u);
  }

  lemma OldNotesOnly(after: string, own: Section, version: string, date: string, notes: string)
    requires own in SectionsOf(after) && own.head == EngineHead(version, date) && |Strip(own.body)| < |notes|
    ensures ReleasedNotes(after, version, date) != Ok(notes)
  {
    HeadStartsWithPrefix(version, date);
    if ReleasedNotes(after, version, date) == Ok(notes) {
      OnlyCandidate(SectionsOf(after), own, EnginePrefix(version), EngineHead(version, date), notes);
    }
  }

  lemma HeadStartsWithPrefix(version: string, date: string)
    ensures EnginePrefix(version) <= EngineHead(version, date)
  {
  }

  /** Without pending notes the sections below Unreleased stay as they are. */
  lemma NothingMerged(t: string, version: string, date: string)
    requires Mergeable(t, version, date) && ChangelogParts(t).value.pending == ""
    ensures ReleasedNotes(Remerge(t, version, date).value, version, date) == ReleasedNotes(t, version, date)
  {
    hide Find, Sections, EnginePrefix, EngineHead, Strip, ChangelogParts, SectionsOf;
    var rest := ChangelogParts(t).value.rest;
    SameReplaced(rest, ReleasedNotes(t, version, date).value);
    StartsRest(t);
    RestSections(t, rest);
    var first := UnreleasedThen(t);
    UnreleasedIsNoRelease(version);
    FirstPrefixIgnored(first, Sections(rest), EnginePrefix(version));
    FirstPrefixIgnored(EMPTY_UNRELEASED, Sections(rest), EnginePrefix(version));
  }

  lemma StartsRest(t: string)
    requires ChangelogParts(t).Ok?
    ensures StartsSection(ChangelogParts(t).value.rest)
  {
  }

  lemma SameReplaced(s: string, x: string)
    ensures ReplaceFirst(s, x, x) == s
  {
    if Find(s, x).Some? {
      var i := Find(s, x).value;
      assert s == s[..i] + s[i..i + |x|] + s[i + |x|..];
    }
  }

  /** The notes are first found strictly inside the heading line of their own version. */
  predicate FoundInHeading(t: string, version: string, date: string)
    requires Remerge(t, version, date).Ok?
  {
    Occurrence(t, version, date).Some?
    && SectionStart(t, version) < Occurrence(t, version, date).value
    && Occurrence(t, version, date).value < SectionStart(t, version) + |EngineHead(version, date)|
  }

  /** With something pending and outside that heading line, the merged notes read back if
      and only if their first occurrence is in the version's own section, not in an earlier
      one, and putting the pending notes there uncovers no heading line. */
  lemma MergeOutsideHeading(t: string, version: string, date: string)
    requires Mergeable(t, version, date) && OneLine(date)
    ensures ChangelogParts(t).Ok? && (ChangelogParts(t).value.pending == "" || !FoundInHeading(t, version, date) ==>
      (ReleasedNotes(Remerge(t, version, date).value, version, date) == Ok(WithPending(t, version, date))
       <==> ChangelogParts(t).value.pending == "" || Merges(t, version, date)))
  {
    hide StartOf, Strip, Find, Sections, WithPrefix, EngineHead, EnginePrefix, ChangelogParts, ReleasedNotes,
         ReadsAsSection, IsVersion, Remerge, NoHeading, Spliced;
    RemergeNeeds(t, version, date);
    if ChangelogParts(t).value.pending == "" {
      NothingMerged(t, version, date);
    } else if !FoundInHeading(t, version, date) {
      OccursSomewhere(t, version, date);
      if Merges(t, version, date) {
        MergeReadsBack(t, version, date);
      } else if Landed(t, version, date) {
        MergedCut(t, version, date);
      } else {
        MergedElsewhere(t, version, date);
      }
    }
  }

  /** Pending and existing notes that strip to no heading never uncover one. */
  lemma PlainNotesMerge(t: string, version: string, date: string)
    requires Mergeable(t, version, date) && Landed(t, version, date)
    requires !IsHeading(ChangelogParts(t).value.pending) && !StartsHeading(ReleasedNotes(t, version, date).value)
    ensures Merges(t, version, date)
  {
    hide Strip, Sections, WithPrefix, EngineHead, EnginePrefix, ReleasedNotes, ChangelogParts, SectionsOf,
         IsVersion, Remerge, Landed, Spliced, IsHeading;
    var x, own, gap, trail, y := LandedText(t, version, date);
    if ChangelogParts(t).value.pending != "" {
      PendingFacts(t);
      MergedBody(gap, ChangelogParts(t).value.pending, ReleasedNotes(t, version, date).value, trail);
    }
  }

  lemma PendingFacts(t: string)
    requires ChangelogParts(t).Ok? && ChangelogParts(t).value.pending != ""
      && !IsHeading(ChangelogParts(t).value.pending)
    ensures var pending := ChangelogParts(t).value.pending; Stripped(pending) && NoHeading(pending, true)
  {
    PartsFacts(t);
    PendingIsStripped(t);
    StrippedBody(SectionsOf(t)[0].body);
  }

  lemma OccursSomewhere(t: string, version: string, date: string)
    requires Mergeable(t, version, date)
    ensures Occurrence(t, version, date).Some?
  {
    hide StartOf, Strip, StripLeft, StripRight, Find, Sections, WithPrefix, EngineHead, EnginePrefix,
         ChangelogParts, ReleasedNotes, ReadsAsSection, IsVersion;
    var x, own, y := OwnSection(t, version, date);
    var gap, trail := BodyParts(own.body);
    FoundInBody(x, own.head, gap, ReleasedNotes(t, version, date).value, trail, y);
  }

  // ----- changelogs that show it -----

  /** A changelog without preamble: what is pending, and the sections below. */
  function OverPending(pending: string, below: string): string
  {
    Block(UNRELEASED, pending) + below
  }

  lemma OverPendingReads(pending: string, below: string)
    requires NoHeading(pending, true) && StartsSection(below) && CountHead(Sections(below), UNRELEASED) == 0
    ensures var t := OverPending(pending, below);
      && SectionsOf(t) == [Section(UNRELEASED, Padded(pending))] + Sections(below)
      && ChangelogParts(t) == Ok(Parts(UNRELEASED, Strip(Padded(pending)), below))
  {
    hide NoHeading, Padded, Block, Strip, Sections, FirstSection, AfterFirst, AfterPreamble;
    var t, first := OverPending(pending, below), Section(UNRELEASED, Padded(pending));
    UnreleasedIsHeading();
    BlockSections(UNRELEASED, pending, below);
    HeadsItself(t, first, Sections(below));
    StartsAtOnce(t);
    FirstOfSections(t, first, Sections(below));
    BlockIs(UNRELEASED, pending, below);
    FirstIs(t, first, below);
    assert ([first] + Sections(below))[1..] == Sections(below);
    assert "" + UNRELEASED == UNRELEASED;
  }

  lemma HeadsItself(t: string, s: Section, others: seq<Section>)
    requires StartsSection(t) && Sections(t) == [s] + others
    ensures IsHeading(t)
  {
    assert ([s] + others)[0] == s;
  }

  lemma UnreleasedIsHeading()
    ensures IsHeading(UNRELEASED) && OneLine(UNRELEASED)
  {
  }

  lemma StartsAtOnce(t: string)
    requires IsHeading(t)
    ensures Preamble(t) == "" && AfterPreamble(t) == t
  {
  }

  lemma FirstOfSections(t: string, s: Section, others: seq<Section>)
    requires IsHeading(t) && Sections(t) == [s] + others
    ensures FirstSection(t) == s
  {
    assert Sections(t)[0] == s;
  }

  lemma BlockIs(head: string, notes: string, rest: string)
    ensures Block(head, notes) + rest == head + Padded(notes) + rest
  {
  }

  lemma StripsPadding(notes: string)
    requires Stripped(notes)
    ensures Strip(Padded(notes)) == notes
  {
    StripPadded(notes);
  }

  lemma OneSection(s: Section)
    ensures forall head :: WithHead([s], head) == if s.head == head then [s] else []
    ensures forall head :: CountHead([s], head) == if s.head == head then 1 else 0
    ensures forall prefix :: WithPrefix([s], prefix) == if prefix <= s.head then [s] else []
  {
    assert [s][1..] == [];
  }

  /** The only release of a changelog. */
  function OneRelease(version: string, date: string, notes: string): string
  {
    Block(EngineHead(version, date), notes) + ""
  }

  lemma OneReleaseReads(version: string, date: string, notes: string)
    requires IsVersion(version) && OneLine(date) && NoHeading(notes, true)
    ensures var rest := OneRelease(version, date, notes);
      && StartsSection(rest)
      && Sections(rest) == [Section(EngineHead(version, date), Padded(notes))]
      && CountHead(Sections(rest), UNRELEASED) == 0 && StartOf(Sections(rest), EnginePrefix(version)) == 0
  {
    hide IsVersion, NoHeading, Padded, Block, EngineHead, EnginePrefix;
    var own := Section(EngineHead(version, date), Padded(notes));
    HeadIsFit(version, date);
    HeadStartsWithPrefix(version, date);
    BlockSections(own.head, notes, "");
    OneSection(own);
    assert Sections("") == [] && [own] + [] == [own];
  }

  /** ... below something pending. */
  lemma OneReleaseOver(version: string, date: string, raw: string, notes: string)
    requires IsVersion(version) && OneLine(date)
    requires NoHeading(raw, true) && Stripped(notes) && NoHeading(notes, true)
    ensures var t, rest := OverPending(raw, OneRelease(version, date, notes)), OneRelease(version, date, notes);
      && ChangelogParts(t) == Ok(Parts(UNRELEASED, Strip(Padded(raw)), rest))
      && ReleasedNotes(t, version, date) == Ok(notes) && OwnBody(t, version, date) == Padded(notes)
      && Remerge(t, version, date).Ok? && Mergeable(t, version, date)
      && SectionStart(t, version) == 0 && Occurrence(t, version, date) == Find(rest, notes)
      && WithPending(t, version, date) == Merged(Strip(Padded(raw)), notes)
      && Remerge(t, version, date).value
         == UNRELEASED + "\n\n" + ReplaceFirst(rest, notes, Merged(Strip(Padded(raw)), notes))
  {
    hide IsVersion, NoHeading, Padded, OneRelease, EngineHead, EnginePrefix, Strip, Sections, SectionsOf,
         OverPending, WithPrefix, CountHead;
    hide Find, ReplaceFirst, Merged, StartOf, ChangelogParts;
    var rest, own := OneRelease(version, date, notes), Section(EngineHead(version, date), Padded(notes));
    OneReleaseReads(version, date, notes);
    OverPendingReads(raw, rest);
    UnreleasedIsNoRelease(version);
    HeadStartsWithPrefix(version, date);
    FirstPrefixIgnored(Section(UNRELEASED, Padded(raw)), [own], EnginePrefix(version));
    OneSection(own);
    StripsPadding(notes);
  }

  // ----- a pending heading that is indented -----

  lemma {:induction false} OneLineHasNoHeading(s: string)
    requires OneLine(s)
    ensures NoHeading(s, false) && (NoHeading(s, true) <==> !IsHeading(s))
  {
    if s != "" {
      OneLineHasNoHeading(s[1..]);
      assert TakeToHeading(s, false) == [s[0]] + TakeToHeading(s[1..], false);
    }
  }

  lemma Indented(title: string)
    requires OneLine(title) && Stripped(title)
    ensures NoHeading("  " + title, true) && Strip(Padded("  " + title)) == title
  {
    hide Strip;
    var raw := "  " + title;
    assert OneLine(raw) && raw[0] == ' ';
    OneLineHasNoHeading(raw);
    assert Padded(raw) == "\n\n  " + (title + "\n\n");
    StripAround("\n\n  ", title, "\n\n");
  }

  /** Where the notes start with a character the text above lacks. */
  lemma FoundBelow(above: string, rest: string, notes: string)
    requires notes != "" && notes[0] !in above && Find(above + rest, notes).Some?
    ensures Find(above + rest, notes).value >= |above|
  {
    hide Find;
    var i := Find(above + rest, notes).value;
    assert (above + rest)[i..i + |notes|][0] == (above + rest)[i];
    assert forall j | 0 <= j < |above| :: (above + rest)[j] == above[j];
  }

  lemma PaddedParts(notes: string)
    ensures Padded(notes) == "\n\n" + (notes + "\n\n")
  {
  }

  lemma HeadingAfterBlank(title: string, more: string)
    requires IsHeading(title)
    ensures !NoHeading("\n\n" + (title + more), false)
  {
    HeadingPrefix(title, more);
    TakeAfterBlank(title + more);
    assert TakeToHeading(title + more, true) == "";
  }

  /** An indented pending heading is no heading until it is stripped: the merged notes are
      then cut where they start. */
  lemma IndentedHeading(version: string, date: string, title: string, notes: string)
    requires IsVersion(version) && OneLine(date) && OneLine(title) && Stripped(title) && IsHeading(title)
    requires Stripped(notes) && NoHeading(notes, true) && notes[0] !in EngineHead(version, date)
    ensures var t := OverPending("  " + title, OneRelease(version, date, notes));
      && Mergeable(t, version, date) && !FoundInHeading(t, version, date)
      && ReleasedNotes(Remerge(t, version, date).value, version, date) != Ok(WithPending(t, version, date))
  {
    hide IsVersion, NoHeading, Padded, EngineHead, OneRelease, Strip, ReleasedNotes, OverPending, OwnBody,
         Remerge, Merged, ChangelogParts, Stripped, Spliced;
    hide Occurrence, SectionStart, Find, Mergeable, IsHeading, WithPending;
    var t, rest := OverPending("  " + title, OneRelease(version, date, notes)), OneRelease(version, date, notes);
    Indented(title);
    OneReleaseOver(version, date, "  " + title, notes);
    NotInHeading(version, date, notes);
    PaddedParts(notes);
    SplicedText(t, version, date, "\n\n", "\n\n");
    MergedText(title, notes);
    Associates(title, "\n\n" + notes, "\n\n");
    HeadingAfterBlank(title, "\n\n" + notes + "\n\n");
    TitleIsPending(title);
    MergeOutsideHeading(t, version, date);
  }

  lemma TitleIsPending(title: string)
    requires IsHeading(title)
    ensures title != ""
  {
  }

  lemma NotInHeading(version: string, date: string, notes: string)
    requires Stripped(notes) && notes[0] !in EngineHead(version, date)
    ensures Find(OneRelease(version, date, notes), notes).Some?
      ==> Find(OneRelease(version, date, notes), notes).value >= |EngineHead(version, date)|
  {
    hide Find, EngineHead;
    var head := EngineHead(version, date);
    assert OneRelease(version, date, notes) == head + Padded(notes);
    if Find(head + Padded(notes), notes).Some? { FoundBelow(head, Padded(notes), notes); }
  }

  // ----- notes that occur in their own heading line -----

  lemma ReplacedBelow(above: string, notes: string, below: string, other: string)
    requires notes != "" && notes[0] !in above
    ensures var s := above + (notes + below);
      && Find(s, notes) == Some(|above|) && ReplaceFirst(s, notes, other) == above + (other + below)
  {
    hide Find;
    SliceAt(above, notes, below);
    FindIsFirst(above + (notes + below), notes, |above|);
    FoundBelow(above, notes + below, notes);
    Cut(above, notes, below);
    Associates(above, other, below);
  }

  lemma Cut(a: string, b: string, c: string)
    ensures var s := a + (b + c); s[..|a|] == a && s[|a| + |b|..] == c
  {
  }

  lemma TwoParagraphs(a: string, b: string)
    requires NoHeading(a, true) && NoHeading(b, true)
    ensures NoHeading(a + ("\n\n" + b), true)
  {
    hide NoHeading, IsHeading;
    NoHeadingAfterBlank(b);
    NoHeadingThen(a, "\n\n" + b, true);
  }

  lemma NoHeadingAfterBlank(b: string)
    requires NoHeading(b, true)
    ensures NoHeading("\n\n" + b, false)
  {
    TakeAfterBlank(b);
  }

  /** What a changelog with one release reads as after the merge. */
  lemma AfterMerge(version: string, date: string, raw: string, notes: string, head: string, body: string)
    requires IsVersion(version) && OneLine(date) && NoHeading(raw, true) && Stripped(notes) && NoHeading(notes, true)
    requires IsHeading(head) && OneLine(head) && NoHeading(body, true)
    requires ReplaceFirst(OneRelease(version, date, notes), notes, Merged(Strip(Padded(raw)), notes))
      == Block(head, body)
    ensures var t := OverPending(raw, OneRelease(version, date, notes));
      && Remerge(t, version, date).Ok?
      && ReleasedNotes(Remerge(t, version, date).value, version, date)
         == NotesOf(if EnginePrefix(version) <= head then [Section(head, Padded(body))] else [],
             EngineHead(version, date))
  {
    hide IsVersion, NoHeading, Padded, EngineHead, EnginePrefix, OneRelease, Strip, OverPending, Merged,
         ChangelogParts, ReplaceFirst, Block, Sections, WithPrefix, NotesOf, SectionsOf;
    hide IsHeading, Remerge;
    var t := OverPending(raw, OneRelease(version, date, notes));
    OneReleaseOver(version, date, raw, notes);
    BlockSections(head, body, "");
    AddNothing(Block(head, body));
    RestSections(t, Block(head, body));
    var s := Section(head, Padded(body));
    assert Sections("") == [] by { NoSections(); }
    assert [s] + [] == [s];
    UnreleasedIsNoRelease(version);
    FirstPrefixIgnored(EMPTY_UNRELEASED, [s], EnginePrefix(version));
    OneSection(s);
  }

  lemma NoSections()
    ensures Sections("") == []
  {
  }

  /** Notes equal to the date of their release: the merge changes the heading line, and the
      text comes out as if it had changed the notes. */
  lemma DateIsNotes(version: string, date: string)
    requires IsVersion(version) && OneLine(date) && Stripped(date) && !IsHeading(date)
    requires date[0] !in EnginePrefix(version)
    ensures var t := OverPending(date, OneRelease(version, date, date));
      && Mergeable(t, version, date) && FoundInHeading(t, version, date)
      && ReleasedNotes(Remerge(t, version, date).value, version, date) == Ok(WithPending(t, version, date))
  {
    hide IsVersion, NoHeading, Padded, Strip, ReleasedNotes, OverPending, OwnBody, Remerge, ChangelogParts,
         Stripped, Find, ReplaceFirst, EngineHead, EnginePrefix, OneRelease, Block, SectionStart;
    hide IsHeading;
    var head, both := EngineHead(version, date), date + ("\n\n" + date);
    OneLineHasNoHeading(date);
    OneReleaseOver(version, date, date, date);
    StripsPadding(date);
    MergedText(date, date);
    DateReplaced(version, date);
    TwoParagraphs(date, date);
    HeadIsFit(version, date);
    HeadStartsWithPrefix(version, date);
    AfterMerge(version, date, date, date, head, both);
    StripsPadding(both);
    BothNotEmpty(date);
    LengthOfHead(version, date);
  }

  lemma BothNotEmpty(date: string)
    requires Stripped(date)
    ensures date != "" && date + ("\n\n" + date) != ""
  {
  }

  lemma LengthOfHead(version: string, date: string)
    ensures |EngineHead(version, date)| == |EnginePrefix(version)| + |date| && |EnginePrefix(version)| > 0
  {
  }

  lemma DateReplaced(version: string, date: string)
    requires date != "" && date[0] !in EnginePrefix(version)
    ensures var rest, both := OneRelease(version, date, date), date + ("\n\n" + date);
      && Find(rest, date) == Some(|EnginePrefix(version)|)
      && ReplaceFirst(rest, date, both) == Block(EngineHead(version, date), both)
  {
    hide Find, ReplaceFirst, EnginePrefix, EngineHead, OneRelease, Block;
    var above, below, both := EnginePrefix(version), Padded(date), date + ("\n\n" + date);
    DateInside(version, date);
    ReplacedBelow(above, date, below, both);
  }

  lemma DateInside(version: string, date: string)
    ensures OneRelease(version, date, date) == EnginePrefix(version) + (date + Padded(date))
    ensures var both := date + ("\n\n" + date);
      Block(EngineHead(version, date), both) == EnginePrefix(version) + (both + Padded(date))
  {
    hide EnginePrefix, EngineHead;
    HeadIs(version, date);
  }

  lemma HeadIs(version: string, date: string)
    ensures EngineHead(version, date) == EnginePrefix(version) + date
  {
  }

  /** Notes equal to the version of their release: the merge breaks the heading line. */
  lemma VersionIsNotes(version: string, date: string, pending: string)
    requires IsVersion(version) && OneLine(date)
    requires OneLine(pending) && Stripped(pending) && !IsHeading(pending) && pending[0] != version[0]
    ensures var t := OverPending(pending, OneRelease(version, date, version));
      && Mergeable(t, version, date) && FoundInHeading(t, version, date)
      && ReleasedNotes(Remerge(t, version, date).value, version, date).Refused?
  {
    hide NoHeading, Padded, Strip, ReleasedNotes, OverPending, OwnBody, Remerge, ChangelogParts, Find,
         ReplaceFirst, EngineHead, EnginePrefix, OneRelease, Block, SectionStart;
    hide IsHeading;
    var line := version + " - " + date;
    VersionIsPlain(version, date);
    OneLineHasNoHeading(version);
    OneLineHasNoHeading(line);
    OneLineHasNoHeading(pending);
    OneReleaseOver(version, date, pending, version);
    StripsPadding(pending);
    MergedText(pending, version);
    VersionReplaced(version, date, pending);
    TwoParagraphs(line, version);
    BrokenHead(version, pending);
    AfterMerge(version, date, pending, version, "## " + pending, line + ("\n\n" + version));
  }

  lemma VersionIsPlain(version: string, date: string)
    requires IsVersion(version) && OneLine(date)
    ensures Stripped(version) && OneLine(version) && !IsHeading(version)
    ensures var line := version + " - " + date; OneLine(line) && !IsHeading(line)
    ensures |EngineHead(version, date)| > 3 && version[0] !in "## "
  {
    VersionHasNoBlank(version);
    assert version[0] in version && version[|version| - 1] in version;
  }

  lemma BrokenHead(version: string, pending: string)
    requires version != "" && Stripped(pending) && OneLine(pending) && pending[0] != version[0]
    ensures var head := "## " + pending; IsHeading(head) && OneLine(head) && !(EnginePrefix(version) <= head)
  {
    assert EnginePrefix(version)[3] == version[0] && ("## " + pending)[3] == pending[0];
  }

  lemma VersionReplaced(version: string, date: string, pending: string)
    requires version != "" && version[0] !in "## "
    ensures var rest, both := OneRelease(version, date, version), pending + ("\n\n" + version);
      var line := version + " - " + date;
      && Find(rest, version) == Some(3)
      && ReplaceFirst(rest, version, both) == Block("## " + pending, line + ("\n\n" + version))
  {
    hide Find, ReplaceFirst, OneRelease, Block;
    var below, both := " - " + date + Padded(version), pending + ("\n\n" + version);
    VersionInside(version, date);
    ReplacedBelow("## ", version, below, both);
    BrokenBlock(version, date, pending);
  }

  lemma VersionInside(version: string, date: string)
    ensures OneRelease(version, date, version) == "## " + (version + (" - " + date + Padded(version)))
  {
  }

  lemma BrokenBlock(version: string, date: string, pending: string)
    ensures Block("## " + pending, version + " - " + date + ("\n\n" + version))
         == "## " + (pending + ("\n\n" + version) + (" - " + date + Padded(version)))
  {
  }

  // ----- the same notes further up -----

  /** Two releases with the same notes: a hosted one above the version's own. */
  function Below(version: string, date: string, hosted: string, notes: string): string
  {
    Block(HostedHead(hosted, date), notes) + OneRelease(version, date, notes)
  }

  lemma BelowReads(version: string, date: string, hosted: string, notes: string)
    requires IsVersion(version) && OneLine(date) && OneLine(hosted) && NoHeading(notes, true)
    ensures var rest, body := Below(version, date, hosted, notes), Padded(notes);
      && StartsSection(rest)
      && Sections(rest) == [Section(HostedHead(hosted, date), body)] + [Section(EngineHead(version, date), body)]
      && CountHead(Sections(rest), UNRELEASED) == 0
      && StartOf(Sections(rest), EnginePrefix(version)) == |HostedHead(hosted, date)| + |body|
      && WithPrefix(Sections(rest), EnginePrefix(version)) == [Section(EngineHead(version, date), body)]
  {
    hide IsVersion, NoHeading, Padded, Block, OneRelease, HostedHead, EngineHead, EnginePrefix;
    var h, e := Section(HostedHead(hosted, date), Padded(notes)), Section(EngineHead(version, date), Padded(notes));
    OneReleaseReads(version, date, notes);
    HostedHeadIsFit(hosted, date);
    BlockSections(h.head, notes, OneRelease(version, date, notes));
    HostedIsNoRelease(version, hosted, date);
    HeadStartsWithPrefix(version, date);
    OneSection(e);
    assert ([h] + [e])[1..] == [e];
  }

  lemma TwinsRead(version: string, date: string, hosted: string, pending: string, notes: string)
    requires IsVersion(version) && OneLine(date) && OneLine(hosted)
    requires Stripped(pending) && NoHeading(pending, true) && Stripped(notes) && NoHeading(notes, true)
    ensures var t, rest := OverPending(pending, Below(version, date, hosted, notes)),
        Below(version, date, hosted, notes);
      && ChangelogParts(t) == Ok(Parts(UNRELEASED, pending, rest)) && ReleasedNotes(t, version, date) == Ok(notes)
  {
    hide IsVersion, NoHeading, Padded, Below, HostedHead, EngineHead, EnginePrefix, Strip, Sections,
         SectionsOf, OverPending, WithPrefix, CountHead, StartOf, ChangelogParts;
    BelowReads(version, date, hosted, notes);
    OverPendingReads(pending, Below(version, date, hosted, notes));
    StripsPadding(pending);
    StripsPadding(notes);
    UnreleasedIsNoRelease(version);
    FirstPrefixIgnored(Section(UNRELEASED, Padded(pending)), Sections(Below(version, date, hosted, notes)),
        EnginePrefix(version));
  }

  /** A hosted release with the same notes above takes the pending notes: the version's
      own notes do not gain them. */
  lemma HostedTakesPending(version: string, date: string, hosted: string, pending: string, notes: string)
    requires IsVersion(version) && OneLine(date) && OneLine(hosted)
    requires Stripped(pending) && NoHeading(pending, true) && Stripped(notes) && NoHeading(notes, true)
    ensures var t := OverPending(pending, Below(version, date, hosted, notes));
      && Mergeable(t, version, date) && ReleasedNotes(t, version, date) == Ok(notes)
      && ReleasedNotes(Remerge(t, version, date).value, version, date) != Ok(WithPending(t, version, date))
  {
    hide IsVersion, Padded, HostedHead, EngineHead, EnginePrefix, Strip, Sections, Below, OverPending,
         SectionsOf, ChangelogParts, ReleasedNotes, Find, StartOf, Merged;
    TwinsRead(version, date, hosted, pending, notes);
    BelowReads(version, date, hosted, notes);
    TwinOccurrence(version, date, hosted, notes);
    MergedElsewhere(OverPending(pending, Below(version, date, hosted, notes)), version, date);
  }

  lemma TwinOccurrence(version: string, date: string, hosted: string, notes: string)
    ensures var rest := Below(version, date, hosted, notes);
      Find(rest, notes).Some? && Find(rest, notes).value <= |HostedHead(hosted, date)| + |Padded(notes)|
  {
    hide Find, OneRelease, HostedHead;
    var above, below := HostedHead(hosted, date) + "\n\n", "\n\n" + OneRelease(version, date, notes);
    assert Below(version, date, hosted, notes) == above + (notes + below);
    SliceAt(above, notes, below);
    FindIsFirst(above + (notes + below), notes, |above|);
  }
}
