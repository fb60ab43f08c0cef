/** scripts/prepare_release.py, generate for a version that was prepared before: what happens
    when the notes are first found inside the heading line of their own version.

    The pending notes and a blank line are then put into that heading line. */
module ChangelogHeading {
  import opened Outcomes
  import opened PythonStrings
  import opened Sequences
  import opened Changelog
  import opened ChangelogMerge

  // ----- the text below the blank line -----

  lemma {:induction false} NoHeadingJoin(a: string, b: string, bol: bool)
    requires NoHeading(a, bol) && EndsLine(a) && NoHeading(b, true)
    ensures NoHeading(a + b, bol)
  {
    hide NoHeading;
    HeadingInPrefix(a, b);
    FirstTaken(a, bol);
    if |a| == 1 {
      assert a[1..] == "" && "" + b == b;
    } else {
      assert a[1..][|a| - 2] == a[|a| - 1];
      NoHeadingJoin(a[1..], b, a[0] == '\n');
    }
    assert (a + b)[1..] == a[1..] + b && (a + b)[0] == a[0];
    TakenFirst(a + b, bol);
  }

  lemma FirstTaken(a: string, bol: bool)
    requires a != "" && NoHeading(a, bol)
    ensures !(bol && IsHeading(a)) && NoHeading(a[1..], a[0] == '\n')
  {
    hide IsHeading;
    assert a == [a[0]] + a[1..];
    assert TakeToHeading(a, bol) == [a[0]] + TakeToHeading(a[1..], a[0] == '\n');
  }

  lemma TakenFirst(a: string, bol: bool)
    requires a != "" && !(bol && IsHeading(a)) && NoHeading(a[1..], a[0] == '\n')
    ensures NoHeading(a, bol)
  {
    hide IsHeading;
    assert a == [a[0]] + a[1..];
  }

  /** Stripping a body uncovers no heading where no line starts. */
  lemma StrippedMidLine(body: string)
    requires NoHeading(body, false)
    ensures NoHeading(Strip(body), false)
  {
    hide Strip;
    var gap, trail := StripParts(body);
    var core := Strip(body);
    var bol := if gap == "" then false else gap[|gap| - 1] == '\n';
    TakeSuffix(gap, core + trail, false);
    TakePrefix(core, trail, bol);
    if bol { Unbroken(core, false); }
  }

  /** The rest of the pending notes after their first line. */
  lemma BehindFirstLine(pending: string)
    requires Stripped(pending) && NoHeading(pending, false)
    ensures var line := Line(pending); var more := pending[|line|..];
      && pending == line + more && line != "" && OneLine(line)
      && (more == "" || more[0] == '\n') && NoHeading(more, false)
  {
    hide TakeToHeading;
    LineFacts(pending);
    var line := Line(pending);
    assert pending == line + pending[|line|..];
    assert line != "" by { assert IsSpace('\n'); }
    TakeSuffix(line, pending[|line|..], false);
    assert line[|line| - 1] != '\n';
  }

  /** What is left of the heading line starts a section, or belongs to the lines above. */
  function Tail(more: string, rest: string, body: string): string
  {
    if IsHeading(rest) then more + "\n\n" else more + ("\n\n" + (rest + body))
  }

  function Below(rest: string, body: string, y: string): string
  {
    if IsHeading(rest) then rest + body + y else y
  }

  lemma TailFacts(more: string, rest: string, body: string, y: string)
    requires (more == "" || more[0] == '\n') && NoHeading(more, false) && OneLine(rest)
    requires body != "" && body[0] == '\n' && NoHeading(body, false) && StartsSection(y) && (y != "" ==> EndsLine(body))
    ensures var tail := Tail(more, rest, body);
      && tail != "" && tail[0] == '\n' && NoHeading(tail, false)
      && (Below(rest, body, y) != "" ==> EndsLine(tail))
    ensures StartsSection(Below(rest, body, y))
    ensures Sections(Below(rest, body, y)) == (if IsHeading(rest) then [Section(rest, body)] else []) + Sections(y)
    ensures more + ("\n\n" + (rest + (body + y))) == Tail(more, rest, body) + Below(rest, body, y)
  {
    hide NoHeading, Sections;
    Associates(rest, body, y);
    Associates("\n\n", rest + body, y);
    Associates(more, "\n\n" + (rest + body), y);
    Associates(more, "\n\n", rest + body + y);
    assert [] + Sections(y) == Sections(y);
    if IsHeading(rest) {
      TrailingNewlinesOf(more);
      SectionFirst(Section(rest, body), y);
    } else {
      OneLineHasNoHeading(rest);
      NoHeadingThen(rest, body, true);
      NoHeadingAfterBlank(rest + body);
      NoHeadingThen(more, "\n\n" + (rest + body), false);
      if y != "" {
        LastOf(rest, body);
        LastOf("\n\n", rest + body);
        LastOf(more, "\n\n" + (rest + body));
      }
    }
  }

  lemma TrailingNewlinesOf(more: string)
    requires NoHeading(more, false)
    ensures NoHeading(more + "\n\n", false) && EndsLine(more + "\n\n")
    ensures (more == "" || more[0] == '\n') ==> (more + "\n\n")[0] == '\n'
  {
    hide IsHeading, TakeToHeading;
    TrailingNewlines(more, false);
    LastOf(more, "\n\n");
  }

  // ----- the new first line, as a heading and otherwise -----

  /** As a heading it starts the version's section anew. */
  lemma HeadingRead(line: string, tail: string, below: string)
    requires IsHeading(line) && OneLine(line) && tail != "" && tail[0] == '\n' && NoHeading(tail, false)
    requires StartsSection(below) && (below != "" ==> EndsLine(tail))
    ensures IsHeading(line + (tail + below))
    ensures Sections(line + (tail + below)) == [Section(line, tail)] + Sections(below)
  {
    hide IsHeading, NoHeading, Sections;
    Associates(line, tail, below);
    SectionFirst(Section(line, tail), below);
  }

  /** Otherwise it continues the section above, and makes no section of its own. */
  lemma {:induction false} GluedKeepsHeads(x: string, g: string, z: string, head: string)
    requires IsHeading(x) && EndsLine(x) && NoHeading(g, true) && StartsSection(z) && (z != "" ==> EndsLine(g))
    requires WithHead(Sections(x), head) == [] && WithHead(Sections(z), head) == []
    ensures IsHeading(x + (g + z)) && WithHead(Sections(x + (g + z)), head) == []
    decreases |x|
  {
    hide IsHeading, EndsLine, ReadsAsSection, FirstSection, TakeToHeading, Line, NoHeading, WithHead;
    var first, rest := FirstSection(x), AfterFirst(x);
    FirstFacts(x);
    FirstRest(x);
    LastLine(x);
    FirstHeadGone(first, Sections(rest), head);
    if rest == "" {
      GluedLast(first, g, z);
      AddNothing(first.head + first.body);
      FirstHeadAdded(Section(first.head, first.body + g), Sections(z), head);
    } else {
      GluedKeepsHeads(rest, g, z, head);
      SectionFirst(first, rest + (g + z));
      Associates(first.head + first.body, rest, g + z);
      FirstHeadAdded(first, Sections(rest + (g + z)), head);
    }
  }

  lemma FirstHeadGone(s: Section, others: seq<Section>, head: string)
    requires WithHead([s] + others, head) == []
    ensures s.head != head && WithHead(others, head) == []
  {
    assert ([s] + others)[1..] == others;
  }

  lemma FirstHeadAdded(s: Section, others: seq<Section>, head: string)
    requires s.head != head && WithHead(others, head) == []
    ensures WithHead([s] + others, head) == []
  {
    assert ([s] + others)[1..] == others;
  }

  lemma GluedLast(first: Section, g: string, z: string)
    requires ReadsAsSection(first) && EndsLine(first.body) && NoHeading(g, true) && StartsSection(z)
    requires z != "" ==> EndsLine(g)
    ensures var t := first.head + first.body + (g + z);
      IsHeading(t) && Sections(t) == [Section(first.head, first.body + g)] + Sections(z)
  {
    hide NoHeading, IsHeading, Sections;
    NoHeadingJoin(first.body, g, false);
    if z != "" { LastOf(first.body, g); }
    Associates(first.head + first.body, g, z);
    Associates(first.head, first.body, g);
    SectionFirst(Section(first.head, first.body + g), z);
  }

  // ----- the merged changelog -----

  /** The notes are found in the heading line at this offset. */
  function HeadingOffset(t: string, version: string, date: string): (j: nat)
    requires Remerge(t, version, date).Ok? && FoundInHeading(t, version, date)
    ensures 0 < j < |EngineHead(version, date)|
  {
    Occurrence(t, version, date).value - SectionStart(t, version)
  }

  /** The first pending line completes the heading line it is put into, without being a
      heading itself, and the text below strips to the merged notes. */
  predicate Completes(t: string, version: string, date: string)
    requires Remerge(t, version, date).Ok?
  {
    && FoundInHeading(t, version, date)
    && var pending := ChangelogParts(t).value.pending;
    var line := Line(pending);
    && line == EngineHead(version, date)[HeadingOffset(t, version, date)..] && !IsHeading(pending)
    && Strip(pending[|line|..] + ("\n\n" + (line + OwnBody(t, version, date)))) == WithPending(t, version, date)
  }

  /** The text the merge writes. */
  lemma HeadingText(x: string, head: string, body: string, y: string, j: nat, line: string, more: string, notes: string)
    requires j < |head| && var rest := x + (head + body + y);
      |x| + j + |notes| <= |rest| && rest[|x| + j..|x| + j + |notes|] == notes
    ensures var rest, i := x + (head + body + y), |x| + j;
      rest[..i] + (line + more + ("\n\n" + notes)) + rest[i + |notes|..]
        == x + ((head[..j] + line) + (more + ("\n\n" + (head[j..] + (body + y)))))
  {
    var rest, i := x + (head + body + y), |x| + j;
    Inserted(rest, i, line + more, notes);
    CutRest(x, head, body + y, j);
    Associates(head, body, y);
    HeadingParts(x, head[..j], line, more, head[j..] + (body + y));
  }

  lemma CutRest(x: string, head: string, below: string, j: nat)
    requires j < |head|
    ensures (x + (head + below))[..|x| + j] == x + head[..j]
    ensures (x + (head + below))[|x| + j..] == head[j..] + below
  {
  }

  lemma HeadingParts(x: string, a: string, line: string, more: string, c: string)
    ensures ((x + a) + (line + more + "\n\n")) + c == x + ((a + line) + (more + ("\n\n" + c)))
  {
    Associates(x + a, line + more + "\n\n", c);
    Associates(line + more, "\n\n", c);
    Associates(line, more, "\n\n" + c);
    Associates(x, a, line + (more + ("\n\n" + c)));
    Associates(a, line, more + ("\n\n" + c));
  }

  /** Everything that is known about a merge into a heading line. */
  lemma HeadingMerge(t: string, version: string, date: string)
      returns (x: string, own: Section, y: string, line: string, more: string)
    requires Mergeable(t, version, date) && FoundInHeading(t, version, date) && ChangelogParts(t).value.pending != ""
    ensures ChangelogParts(t).Ok? && ReleasedNotes(t, version, date) == Ok(Strip(own.body)) && Strip(own.body) != ""
    ensures StartsSection(x) && StartsSection(y) && ReadsAsSection(own) && own.head == EngineHead(version, date)
    ensures own.body == OwnBody(t, version, date) && own.body != ""
    ensures WithPrefix(Sections(x), EnginePrefix(version)) == [] && WithPrefix(Sections(y), EnginePrefix(version)) == []
    ensures (x == "" || EndsLine(x)) && (y != "" ==> EndsLine(own.body))
    ensures line == Line(ChangelogParts(t).value.pending) && ChangelogParts(t).value.pending == line + more
    ensures line != "" && OneLine(line) && (more == "" || more[0] == '\n') && NoHeading(more, false)
    ensures HeadingOffset(t, version, date) < |own.head|
    ensures Remerge(t, version, date).value == ChangelogParts(t).value.prefix + "\n\n"
      + (x + ((own.head[..HeadingOffset(t, version, date)] + line)
      + (more + ("\n\n" + (own.head[HeadingOffset(t, version, date)..] + (own.body + y))))))
  {
    hide StartOf, Strip, Find, Sections, WithPrefix, EngineHead, EnginePrefix, ChangelogParts, ReleasedNotes,
         ReadsAsSection, IsVersion, Remerge, NoHeading, WithPending, StartsSection, EndsLine, SectionsOf, OwnBody;
    x, own, y := OwnSection(t, version, date);
    NothingStrips();
    line, more := PendingLines(t);
    HeadingWrites(t, version, date, x, own, y, line, more);
  }

  lemma PendingLines(t: string) returns (line: string, more: string)
    requires ChangelogParts(t).Ok? && ChangelogParts(t).value.pending != ""
    ensures line == Line(ChangelogParts(t).value.pending) && ChangelogParts(t).value.pending == line + more
    ensures line != "" && OneLine(line) && (more == "" || more[0] == '\n') && NoHeading(more, false)
  {
    hide Strip, ChangelogParts, NoHeading, SectionsOf, Stripped, OneLine;
    PendingIsStripped(t);
    PartsFacts(t);
    StrippedMidLine(SectionsOf(t)[0].body);
    var pending := ChangelogParts(t).value.pending;
    BehindFirstLine(pending);
    line, more := Line(pending), pending[|Line(pending)|..];
  }

  lemma HeadingWrites(t: string, version: string, date: string, x: string, own: Section, y: string, line: string,
      more: string)
    requires Remerge(t, version, date).Ok? && FoundInHeading(t, version, date) && own.head == EngineHead(version, date)
    requires |x| == StartOf(Sections(ChangelogParts(t).value.rest), EnginePrefix(version))
    requires ChangelogParts(t).value.rest == x + (own.head + own.body + y)
    requires ReleasedNotes(t, version, date) == Ok(Strip(own.body)) && Strip(own.body) != ""
    requires ChangelogParts(t).value.pending == line + more && line != ""
    ensures Remerge(t, version, date).value == ChangelogParts(t).value.prefix + "\n\n"
      + (x + ((own.head[..HeadingOffset(t, version, date)] + line)
      + (more + ("\n\n" + (own.head[HeadingOffset(t, version, date)..] + (own.body + y))))))
  {
    hide StartOf, Strip, Find, Sections, EngineHead, EnginePrefix, ChangelogParts, ReleasedNotes, Remerge,
         WithPending, HeadingOffset, FoundInHeading, Stripped, ReplaceFirst;
    NotesAreStripped(own.body);
    RemergeIs(t, version, date);
    WithPendingFacts(t, version, date);
    FoundThere(t, version, date, x);
    var j, notes := HeadingOffset(t, version, date), ReleasedNotes(t, version, date).value;
    HeadingText(x, own.head, own.body, y, j, line, more, notes);
  }

  lemma NothingStrips()
    ensures Strip("") == ""
  {
  }

  lemma NotesAreStripped(body: string)
    requires Strip(body) != ""
    ensures Stripped(Strip(body))
  {
    hide Strip;
    var gap, trail := BodyParts(body);
  }

  lemma FoundThere(t: string, version: string, date: string, x: string)
    requires Remerge(t, version, date).Ok? && FoundInHeading(t, version, date)
    requires |x| == StartOf(Sections(ChangelogParts(t).value.rest), EnginePrefix(version))
    ensures var rest, notes := ChangelogParts(t).value.rest, ReleasedNotes(t, version, date).value;
      var i := |x| + HeadingOffset(t, version, date);
      && Find(rest, notes) == Some(i) && i + |notes| <= |rest| && rest[i..i + |notes|] == notes
      && ReplaceFirst(rest, notes, WithPending(t, version, date))
         == rest[..i] + WithPending(t, version, date) + rest[i + |notes|..]
  {
    hide Find, ReleasedNotes, ChangelogParts, Remerge, Sections, StartOf, EngineHead, EnginePrefix, WithPending;
    RemergeNeeds(t, version, date);
  }

  // ----- when the new first line is no heading -----

  /** Then no section of the version is left. */
  lemma HeadingLost(t: string, x: string, line: string, tail: string, below: string, head: string)
    requires ChangelogParts(t).Ok? && StartsSection(x) && (x == "" || EndsLine(x))
    requires !IsHeading(line) && OneLine(line) && tail != "" && tail[0] == '\n' && NoHeading(tail, false)
    requires StartsSection(below) && (below != "" ==> EndsLine(tail)) && head != UNRELEASED
    requires WithHead(Sections(x), head) == [] && WithHead(Sections(below), head) == []
    ensures WithHead(SectionsOf(ChangelogParts(t).value.prefix + "\n\n" + (x + (line + (tail + below)))), head) == []
  {
    hide NoHeading, Sections, IsHeading, WithHead, ChangelogParts, SectionsOf, Preamble;
    OneLineHasNoHeading(line);
    NoHeadingThen(line, tail, true);
    if below != "" { LastOf(line, tail); }
    UnreleasedFirst(x);
    FirstHeadAdded(EMPTY_UNRELEASED, Sections(x), head);
    var front := UNRELEASED + "\n\n" + x;
    FrontEndsLine(x);
    GluedKeepsHeads(front, line + tail, below, head);
    Associates(line, tail, below);
    PartsFacts(t);
    SectionsAfterPreamble(Preamble(t), front + (line + tail + below));
    FrontText(Preamble(t), x, line + tail + below);
  }

  lemma FrontEndsLine(x: string)
    requires x == "" || EndsLine(x)
    ensures EndsLine(UNRELEASED + "\n\n" + x)
  {
    hide EndsLine;
    AboveEndsLine(UNRELEASED, x);
  }

  lemma FrontText(p: string, x: string, more: string)
    ensures p + UNRELEASED + "\n\n" + (x + more) == p + ((UNRELEASED + "\n\n" + x) + more)
  {
    Associates(UNRELEASED + "\n\n", x, more);
    Associates(p + UNRELEASED, "\n\n", x + more);
    Associates(p, UNRELEASED, "\n\n" + (x + more));
    Associates(UNRELEASED, "\n\n", x + more);
  }

  /** Notes are read only where the heading stands. */
  lemma {:induction false} ReadNeedsHead(ss: seq<Section>, prefix: string, head: string)
    requires NotesOf(WithPrefix(ss, prefix), head).Ok?
    ensures WithHead(ss, head) != []
  {
    hide Strip;
    var c := WithPrefix(ss, prefix)[0];
    CandidateIsSection(ss, prefix, c);
    InWithHead(ss, c);
  }

  lemma {:induction false} CandidateIsSection(ss: seq<Section>, prefix: string, c: Section)
    requires c in WithPrefix(ss, prefix)
    ensures c in ss
  {
    if ss != [] && c in WithPrefix(ss[1..], prefix) { CandidateIsSection(ss[1..], prefix, c); }
  }

  lemma NoneWithHead(ss: seq<Section>, version: string, date: string)
    requires WithPrefix(ss, EnginePrefix(version)) == []
    ensures WithHead(ss, EngineHead(version, date)) == []
  {
    HeadStartsWithPrefix(version, date);
    HeadAmongPrefix(ss, EngineHead(version, date), EnginePrefix(version));
  }

  // ----- when it is one -----

  /** The merge into a heading line, as sections. */
  lemma HeadingSections(t: string, x: string, line: string, tail: string, below: string)
    requires ChangelogParts(t).Ok? && StartsSection(x) && (x == "" || EndsLine(x))
    requires IsHeading(line) && OneLine(line) && tail != "" && tail[0] == '\n' && NoHeading(tail, false)
    requires StartsSection(below) && (below != "" ==> EndsLine(tail))
    ensures SectionsOf(ChangelogParts(t).value.prefix + "\n\n" + (x + (line + (tail + below))))
      == [EMPTY_UNRELEASED] + (Sections(x) + ([Section(line, tail)] + Sections(below)))
  {
    hide NoHeading, Sections, IsHeading, ChangelogParts, SectionsOf;
    HeadingRead(line, tail, below);
    SectionsConcat(x, line + (tail + below));
    RestSections(t, x + (line + (tail + below)));
  }

  lemma NoHeadAround(x: seq<Section>, s: Section, below: seq<Section>, head: string)
    requires WithHead(x, head) == [] && WithHead(below, head) == [] && s.head != head && head != UNRELEASED
    ensures WithHead([EMPTY_UNRELEASED] + (x + ([s] + below)), head) == []
  {
    hide WithHead;
    FirstHeadAdded(s, below, head);
    WithHeadConcat(x, [s] + below, head);
    FirstHeadAdded(EMPTY_UNRELEASED, x + ([s] + below), head);
  }

  /** What is left of the heading line is shorter than the heading. */
  lemma BelowLacksHead(rest: string, body: string, y: string, head: string)
    requires |rest| < |head| && StartsSection(y) && WithHead(Sections(y), head) == []
    requires StartsSection(Below(rest, body, y))
    requires Sections(Below(rest, body, y)) == (if IsHeading(rest) then [Section(rest, body)] else []) + Sections(y)
    ensures WithHead(Sections(Below(rest, body, y)), head) == []
  {
    hide WithHead, Sections, Below;
    if IsHeading(rest) {
      FirstHeadAdded(Section(rest, body), Sections(y), head);
    } else {
      assert [] + Sections(y) == Sections(y);
    }
  }

  /** Cut at what is left of the heading line, the section holds too little. */
  lemma TooShort(more: string, line: string, notes: string)
    requires line != "" && notes != ""
    ensures |Strip(more + "\n\n")| < |line + more + ("\n\n" + notes)|
  {
    hide StripLeft, StripRight;
    StripShorter(more + "\n\n");
  }

  lemma InMiddle(x: seq<Section>, s: Section, below: seq<Section>)
    ensures s in [EMPTY_UNRELEASED] + (x + ([s] + below))
  {
    assert ([EMPTY_UNRELEASED] + (x + ([s] + below)))[1 + |x|] == s;
  }

  /** Where the new line is the version's heading again. */
  lemma HeadingKept(x: string, s: Section, rest: string, body: string, y: string, version: string, date: string,
      merged: string)
    requires IsVersion(version) && OneLine(date) && s.head == EngineHead(version, date)
    requires StartsSection(x) && StartsSection(y) && StartsSection(Below(rest, body, y)) && merged != ""
    requires WithPrefix(Sections(x), EnginePrefix(version)) == []
      && WithPrefix(Sections(y), EnginePrefix(version)) == []
    requires Sections(Below(rest, body, y)) == (if IsHeading(rest) then [Section(rest, body)] else []) + Sections(y)
    requires IsHeading(rest) ==> |Strip(s.body)| < |merged|
    ensures var ss := [EMPTY_UNRELEASED] + (Sections(x) + ([s] + Sections(Below(rest, body, y))));
      NotesOf(WithPrefix(ss, EnginePrefix(version)), EngineHead(version, date)) == Ok(merged) <==>
        !IsHeading(rest) && Strip(s.body) == merged
  {
    hide IsVersion, Strip, Sections, WithPrefix, EngineHead, EnginePrefix, Below;
    var ss := [EMPTY_UNRELEASED] + (Sections(x) + ([s] + Sections(Below(rest, body, y))));
    var prefix, head := EnginePrefix(version), EngineHead(version, date);
    if IsHeading(rest) {
      HeadStartsWithPrefix(version, date);
      InMiddle(Sections(x), s, Sections(Below(rest, body, y)));
      if NotesOf(WithPrefix(ss, prefix), head) == Ok(merged) { OnlyCandidate(ss, s, prefix, head, merged); }
    } else {
      assert [] + Sections(y) == Sections(y);
      MergeCandidate(x, s, y, version, date);
    }
  }

  // ----- both together -----

  lemma LineCompletes(head: string, j: nat, line: string)
    requires 0 < j < |head|
    ensures head[..j] + line == head <==> line == head[j..]
    ensures |head[j..]| < |head|
  {
    assert head == head[..j] + head[j..];
    if head[..j] + line == head { assert line == (head[..j] + line)[j..]; }
  }

  lemma LineIsHeading(line: string, more: string)
    requires more == "" || more[0] == '\n'
    ensures line != "" ==> (IsHeading(line + more) <==> IsHeading(line))
  {
    if more == "" { AddNothing(line); } else if line != "" { SameHeading(line, more); }
  }

  /** With the notes first found inside the heading line, the merge reads back if and only if
      the first pending line completes that line again and the text below strips to the
      merged notes. */
  lemma MergeInHeading(t: string, version: string, date: string)
    requires Mergeable(t, version, date) && OneLine(date) && FoundInHeading(t, version, date)
    requires ChangelogParts(t).value.pending != ""
    ensures ReleasedNotes(Remerge(t, version, date).value, version, date) == Ok(WithPending(t, version, date))
      <==> Completes(t, version, date)
  {
    hide StartOf, Strip, Find, Sections, WithPrefix, WithHead, EngineHead, EnginePrefix, ChangelogParts,
         IsVersion, Remerge, NoHeading, WithPending, SectionsOf, FoundInHeading, Tail, Below, IsHeading, NotesOf,
             OwnBody;
    var x, own, y, line, more := HeadingMerge(t, version, date);
    var j, head := HeadingOffset(t, version, date), EngineHead(version, date);
    var rest, first, merged := head[j..], head[..j] + line, WithPending(t, version, date);
    var tail, below := Tail(more, rest, own.body), Below(rest, own.body, y);
    HeadIsFit(version, date);
    TailFacts(more, rest, own.body, y);
    LineCompletes(head, j, line);
    NoneWithHead(Sections(x), version, date);
    NoneWithHead(Sections(y), version, date);
    BelowLacksHead(rest, own.body, y, head);
    if !IsHeading(first) {
      HeadingLost(t, x, first, tail, below, head);
      NotReadable(Remerge(t, version, date).value, version, date);
    } else {
      HeadingSections(t, x, first, tail, below);
      if first != head {
        NoHeadAround(Sections(x), Section(first, tail), Sections(below), head);
        NotReadable(Remerge(t, version, date).value, version, date);
      } else {
        LineIsHeading(line, more);
        RestOfPending(line, more, rest, own.body);
        MergedIs(t, version, date, own.body, line, more, rest);
        HeadingKept(x, Section(first, tail), rest, own.body, y, version, date, merged);
      }
    }
  }

  lemma RestOfPending(line: string, more: string, rest: string, body: string)
    ensures (line + more)[|line|..] == more
    ensures !IsHeading(rest) ==> Tail(more, rest, body) == more + ("\n\n" + (rest + body))
  {
  }

  lemma NotReadable(after: string, version: string, date: string)
    requires WithHead(SectionsOf(after), EngineHead(version, date)) == []
    ensures ReleasedNotes(after, version, date).Refused?
  {
    hide SectionsOf, WithHead, EngineHead, EnginePrefix, NotesOf;
    if ReleasedNotes(after, version, date).Ok? {
      ReadNeedsHead(SectionsOf(after), EnginePrefix(version), EngineHead(version, date));
    }
  }

  lemma MergedIs(t: string, version: string, date: string, body: string, line: string, more: string, rest: string)
    requires Remerge(t, version, date).Ok? && body == OwnBody(t, version, date)
    requires ReleasedNotes(t, version, date) == Ok(Strip(body)) && Strip(body) != ""
    requires ChangelogParts(t).value.pending == line + more && line != ""
    ensures WithPending(t, version, date) != ""
    ensures IsHeading(rest) ==> |Strip(Tail(more, rest, body))| < |WithPending(t, version, date)|
  {
    hide Strip, ReleasedNotes, ChangelogParts, Remerge, WithPending;
    NotesAreStripped(body);
    WithPendingFacts(t, version, date);
    TooShort(more, line, Strip(body));
  }

  /** The merged notes read back if and only if nothing is pending, or the merge reaches the
      version's own section and makes no new heading there, or it goes into the heading line
      and the first pending line completes that line. */
  lemma MergeReadsBackExactly(t: string, version: string, date: string)
    requires Mergeable(t, version, date) && OneLine(date)
    ensures ChangelogParts(t).Ok?
    ensures ReleasedNotes(Remerge(t, version, date).value, version, date) == Ok(WithPending(t, version, date))
      <==> ChangelogParts(t).value.pending == "" || Merges(t, version, date) || Completes(t, version, date)
  {
    hide ReleasedNotes, ChangelogParts, Remerge, WithPending, FoundInHeading, EngineHead, Find, Sections, Strip;
    MergeOutsideHeading(t, version, date);
    InHeadingIsNotLanded(t, version, date);
    if ChangelogParts(t).value.pending != "" && FoundInHeading(t, version, date) {
      MergeInHeading(t, version, date);
    }
  }

  lemma InHeadingIsNotLanded(t: string, version: string, date: string)
    requires Remerge(t, version, date).Ok?
    ensures FoundInHeading(t, version, date) ==> !Landed(t, version, date)
  {
  }
}
