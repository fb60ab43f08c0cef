/** scripts/prepare_release.py: reading the changelog by its headings, moving pending notes
    into a release section, and inserting a hosted release section. */
module Changelog {
  import opened Outcomes
  import opened PythonStrings
  import opened Sequences

  // ----- headings -----

  /** The text starts with a match of ^## [^\n]+$ */
  predicate IsHeading(t: string)
  {
    |t| > 3 && t[0] == '#' && t[1] == '#' && t[2] == ' ' && t[3] != '\n'
  }

  /** The text up to its first heading.  bol: the text starts at the beginning of a line. */
  function TakeToHeading(t: string, bol: bool): (r: string)
    ensures |r| <= |t|
  {
    if t == "" || (bol && IsHeading(t)) then "" else [t[0]] + TakeToHeading(t[1..], t[0] == '\n')
  }

  lemma {:induction false} TakeFacts(t: string, bol: bool)
    ensures var r := TakeToHeading(t, bol);
      && r == t[..|r|] && t == r + t[|r|..]
      && StartsSection(t[|r|..])
      && (|r| < |t| ==> if r == "" then bol else r[|r| - 1] == '\n')
  {
    if t != "" && !(bol && IsHeading(t)) {
      var r := TakeToHeading(t, bol);
      TakeFacts(t[1..], t[0] == '\n');
      assert t[1..][|r| - 1..] == t[|r|..];
    }
  }

  predicate NoHeading(t: string, bol: bool)
  {
    TakeToHeading(t, bol) == t
  }

  /** The rest of the line. */
  function Line(t: string): (r: string)
    ensures |r| <= |t|
  {
    if t == "" || t[0] == '\n' then "" else [t[0]] + Line(t[1..])
  }

  predicate OneLine(t: string)
  {
    forall i | 0 <= i < |t| :: t[i] != '\n'
  }

  lemma {:induction false} LineFacts(t: string)
    ensures var r := Line(t);
      && r == t[..|r|] && OneLine(r) && (|r| < |t| ==> t[|r|] == '\n')
      && (IsHeading(t) ==> IsHeading(r))
  {
    if t != "" && t[0] != '\n' {
      LineFacts(t[1..]);
      if IsHeading(t) {
        assert t[1..][0] == t[1] && t[1..][1..][0] == t[2] && t[1..][1..][1..][0] == t[3];
        assert |Line(t[1..][1..][1..])| > 0;
      }
    }
  }

  /** A heading line and everything up to the next heading. */
  datatype Section = Section(head: string, body: string)

  predicate EndsLine(t: string)
  {
    t != "" && t[|t| - 1] == '\n'
  }

  predicate StartsSection(t: string)
  {
    t == "" || IsHeading(t)
  }

  function Sections(t: string): seq<Section>
    requires StartsSection(t)
    decreases |t|
  {
    if t == "" then [] else [FirstSection(t)] + Sections(AfterFirst(t))
  }

  function FirstSection(t: string): Section
    requires IsHeading(t)
  {
    Section(Line(t), TakeToHeading(t[|Line(t)|..], false))
  }

  function AfterFirst(t: string): (rest: string)
    requires IsHeading(t)
    ensures |rest| < |t| && StartsSection(rest)
  {
    FirstFacts(t);
    var after := t[|Line(t)|..];
    after[|TakeToHeading(after, false)|..]
  }

  /** A section the scripts can read: one heading line, and a body without headings. */
  ghost predicate ReadsAsSection(s: Section)
  {
    IsHeading(s.head) && OneLine(s.head) && (s.body == "" || s.body[0] == '\n') && NoHeading(s.body, false)
  }

  lemma FirstFacts(t: string)
    requires IsHeading(t)
    ensures var first := FirstSection(t);
      var after := t[|Line(t)|..];
      var rest := after[|first.body|..];
      && ReadsAsSection(first) && |rest| < |t| && StartsSection(rest)
      && t == first.head + first.body + rest
      && (rest != "" ==> EndsLine(first.body))
  {
    hide TakeToHeading, Line;
    LineFacts(t);
    var after := t[|Line(t)|..];
    TakeFacts(after, false);
    TakeIdempotent(after, false);
    Reassembled(t, |Line(t)|, |TakeToHeading(after, false)|);
  }

  lemma Reassembled(t: string, n: nat, m: nat)
    requires n + m <= |t|
    ensures t == t[..n] + t[n..][..m] + t[n..][m..]
  {
  }

  function Preamble(t: string): string
  {
    TakeToHeading(t, true)
  }

  function SectionsOf(t: string): seq<Section>
  {
    Sections(AfterPreamble(t))
  }

  function AfterPreamble(t: string): (r: string)
    ensures StartsSection(r) && t == Preamble(t) + r
  {
    TakeFacts(t, true);
    t[|Preamble(t)|..]
  }

  // ----- notes -----

  /** Notes as the scripts hold them: stripped and not empty. */
  ghost predicate Stripped(notes: string)
  {
    notes != "" && !IsSpace(notes[0]) && !IsSpace(notes[|notes| - 1])
  }

  lemma StripLeftOne(c: char, t: string)
    requires IsSpace(c)
    ensures StripLeft([c] + t) == StripLeft(t)
  {
    assert ([c] + t)[1..] == t;
  }

  lemma NewlineIsSpace()
    ensures IsSpace('\n')
  {
  }

  lemma StartsUnstripped(t: string)
    requires t != "" && !IsSpace(t[0])
    ensures StripLeft(t) == t
  {
  }

  lemma StripLeftNewlines(t: string)
    requires t != "" && !IsSpace(t[0])
    ensures StripLeft("\n\n" + t) == t
  {
    hide IsSpace, StripLeft;
    assert "\n\n" + t == ['\n'] + (['\n'] + t);
    NewlineIsSpace();
    StripLeftOne('\n', ['\n'] + t);
    StripLeftOne('\n', t);
    StartsUnstripped(t);
  }

  lemma StripRightNewlines(t: string)
    requires t != "" && !IsSpace(t[|t| - 1])
    ensures StripRight(t + "\n\n") == t
  {
    assert (t + "\n\n")[..|t| + 1] == t + "\n" && (t + "\n")[..|t|] == t;
    assert StripRight(t + "\n") == StripRight(t);
  }

  /** Stripping the padding the scripts put around notes gives the notes back. */
  lemma StripPadded(notes: string)
    requires Stripped(notes)
    ensures Strip("\n\n" + notes + "\n\n") == notes
  {
    assert "\n\n" + notes + "\n\n" == "\n\n" + (notes + "\n\n");
    StripLeftNewlines(notes + "\n\n");
    StripRightNewlines(notes);
  }

  // ----- reading -----

  const UNRELEASED := "## Unreleased"

  datatype Parts = Parts(prefix: string, pending: string, rest: string)

  /** How many sections have exactly this heading. */
  function CountHead(ss: seq<Section>, head: string): nat
  {
    if ss == [] then 0 else (if ss[0].head == head then 1 else 0) + CountHead(ss[1..], head)
  }

  /** The sections whose heading starts with this prefix. */
  function WithPrefix(ss: seq<Section>, prefix: string): seq<Section>
  {
    if ss == [] then [] else (if prefix <= ss[0].head then [ss[0]] else []) + WithPrefix(ss[1..], prefix)
  }

  function WithHead(ss: seq<Section>, head: string): seq<Section>
  {
    if ss == [] then [] else (if ss[0].head == head then [ss[0]] else []) + WithHead(ss[1..], head)
  }

  function ChangelogParts(t: string): (r: Result<Parts>)
    ensures r.Ok? ==> StartsSection(r.value.rest)
  {
    var body := AfterPreamble(t);
    var ss := Sections(body);
    if ss == [] || ss[0].head != UNRELEASED || CountHead(ss, UNRELEASED) != 1 then Refused
    else Ok(Parts(Preamble(t) + ss[0].head, Strip(ss[0].body), AfterFirst(body)))
  }

  function EngineHead(version: string, date: string): string
  {
    "## " + version + " - " + date
  }

  function EnginePrefix(version: string): string
  {
    "## " + version + " - "
  }

  function HostedHead(version: string, date: string): string
  {
    "## review-sensei-github " + version + " - " + date
  }

  /** The stripped body of the only candidate, if it carries the expected heading. */
  function NotesOf(matching: seq<Section>, head: string): Result<string>
  {
    if |matching| != 1 || matching[0].head != head then Refused
    else
      var notes := Strip(matching[0].body);
      if notes == "" then Refused else Ok(notes)
  }

  function ReleasedNotes(t: string, version: string, date: string): Result<string>
  {
    NotesOf(WithPrefix(SectionsOf(t), EnginePrefix(version)), EngineHead(version, date))
  }

  function HostedNotes(t: string, version: string, date: string): Result<string>
  {
    NotesOf(WithHead(SectionsOf(t), HostedHead(version, date)), HostedHead(version, date))
  }

  // ----- writing -----

  function Padded(notes: string): string
  {
    "\n\n" + notes + "\n\n"
  }

  function Block(head: string, notes: string): string
  {
    head + "\n\n" + notes + "\n\n"
  }

  /** The changelog with a section added below an emptied Unreleased. */
  function WithRelease(parts: Parts, head: string, notes: string): string
  {
    parts.prefix + "\n\n" + Block(head, notes) + parts.rest
  }

  /** The changelog part of generate for a new version; fallback are the notes rendered
      from history when nothing is pending. */
  function Generate(t: string, version: string, date: string, fallback: string): Result<string>
  {
    match ChangelogParts(t)
    case Refused => Refused
    case Ok(parts) =>
      if WithPrefix(Sections(parts.rest), EnginePrefix(version)) != [] then Refused
      else
        Ok(WithRelease(parts, EngineHead(version, date), if parts.pending != "" then parts.pending else fallback))
  }

  // ----- how sections compose -----

  function Render(ss: seq<Section>): string
  {
    if ss == [] then "" else ss[0].head + ss[0].body + Render(ss[1..])
  }

  /** Reading a text into sections loses nothing. */
  lemma {:induction false} RenderSections(t: string)
    requires StartsSection(t)
    ensures Render(Sections(t)) == t
    decreases |t|
  {
    if t != "" {
      FirstFacts(t);
      RenderSections(AfterFirst(t));
    }
  }

  /** The text with a block put right after the section with this heading. */
  function InsertAfter(t: string, engineHead: string, head: string, notes: string): string
  {
    var at := |Preamble(t)| + EndOfHead(SectionsOf(t), engineHead);
    EndOfHeadFits(t, engineHead);
    t[..at] + Block(head, notes) + t[at..]
  }

  /** insert_hosted_release.  Without an engine release the pending notes are replaced. */
  function InsertHosted(t: string, version: string, date: string, notes: string,
        afterEngine: Option<string>): Result<string>
  {
    var head := HostedHead(version, date);
    if WithHead(SectionsOf(t), head) != [] then Refused
    else
      match afterEngine
      case None =>
        (match ChangelogParts(t)
         case Refused => Refused
         case Ok(parts) => Ok(WithRelease(parts, head, notes)))
      case Some(engine) =>
        if CountHead(SectionsOf(t), EngineHead(engine, date)) != 1 then Refused
        else Ok(InsertAfter(t, EngineHead(engine, date), head, notes))
  }

  /** Where the first section with this heading ends, counted from the first heading. */
  function EndOfHead(ss: seq<Section>, head: string): nat
  {
    if ss == [] then 0
    else
      var here := |ss[0].head| + |ss[0].body|;
      if ss[0].head == head then here else here + EndOfHead(ss[1..], head)
  }

  lemma {:induction false} EndWithinRender(ss: seq<Section>, head: string)
    ensures EndOfHead(ss, head) <= |Render(ss)|
  {
    if ss != [] { EndWithinRender(ss[1..], head); }
  }

  lemma EndOfHeadFits(t: string, head: string)
    ensures |Preamble(t)| + EndOfHead(SectionsOf(t), head) <= |t|
  {
    EndWithinRender(SectionsOf(t), head);
    RenderSections(AfterPreamble(t));
  }

  lemma HeadingInPrefix(t: string, u: string)
    requires EndsLine(t)
    ensures IsHeading(t + u) <==> IsHeading(t)
  {
  }

  /** Text without a heading, followed by a heading or nothing, is taken whole. */
  lemma {:induction false} TakeAppend(t: string, u: string, bol: bool)
    requires NoHeading(t, bol) && StartsSection(u)
    requires u == "" || EndsLine(t) || (t == "" && bol)
    ensures TakeToHeading(t + u, bol) == t
  {
    if t == "" {
      assert t + u == u;
    } else {
      if u == "" {
        assert t + u == t;
      } else {
        HeadingInPrefix(t, u);
        assert (t + u)[1..] == t[1..] + u;
        if |t| == 1 { assert t[1..] == "" && t[0] == '\n'; }
        TakeAppend(t[1..], u, t[0] == '\n');
      }
    }
  }

  lemma {:induction false} LineAppend(head: string, u: string)
    requires OneLine(head) && (u == "" || u[0] == '\n')
    ensures Line(head + u) == head
  {
    if head != "" {
      assert (head + u)[1..] == head[1..] + u;
      LineAppend(head[1..], u);
    } else {
      assert head + u == u;
    }
  }

  lemma HeadingPrefix(head: string, u: string)
    requires IsHeading(head)
    ensures IsHeading(head + u)
  {
  }

  /** A section, and what follows it. */
  lemma SectionFirst(s: Section, u: string)
    requires ReadsAsSection(s) && StartsSection(u) && (u == "" || EndsLine(s.body))
    ensures IsHeading(s.head + s.body + u)
    ensures FirstSection(s.head + s.body + u) == s
    ensures Sections(s.head + s.body + u) == [s] + Sections(u)
  {
    var t := s.head + s.body + u;
    Associates(s.head, s.body, u);
    HeadingPrefix(s.head, s.body + u);
    LineAppend(s.head, s.body + u);
    TakeAppend(s.body, u, false);
    assert t[|s.head|..] == s.body + u && (s.body + u)[|s.body|..] == u;
  }

  lemma LastLine(t: string)
    requires IsHeading(t) && EndsLine(t)
    ensures AfterFirst(t) == "" ==> EndsLine(FirstSection(t).body)
    ensures AfterFirst(t) != "" ==> EndsLine(AfterFirst(t))
  {
    FirstFacts(t);
    var first, rest := FirstSection(t), AfterFirst(t);
    if rest != "" {
      assert rest[|rest| - 1] == t[|t| - 1];
    } else {
      assert t == first.head + first.body;
      assert first.body != "" ==> first.body[|first.body| - 1] == '\n';
      assert first.body == "" ==> first.head == t;
      assert t[|t| - 1] in t;
    }
  }

  /** Sections of a text made of two parts, the second starting with a heading. */
  lemma {:induction false} SectionsConcat(t: string, u: string)
    requires StartsSection(t) && StartsSection(u) && (t == "" || u == "" || EndsLine(t))
    ensures StartsSection(t + u)
    ensures Sections(t + u) == Sections(t) + Sections(u)
    decreases |t|
  {
    hide IsHeading, EndsLine, ReadsAsSection, FirstSection, TakeToHeading, Line;
    if t == "" {
      assert t + u == u;
    } else if u == "" {
      assert t + u == t;
    } else {
      var first, rest := FirstSection(t), AfterFirst(t);
      FirstFacts(t);
      FirstRest(t);
      LastLine(t);
      SectionsConcat(rest, u);
      ConcatStep(first, rest, t, u);
    }
  }

  lemma FirstRest(t: string)
    requires IsHeading(t)
    ensures var first := FirstSection(t);
      && t == first.head + first.body + AfterFirst(t) && (AfterFirst(t) != "" ==> EndsLine(first.body))
  {
    FirstFacts(t);
  }

  lemma ConcatStep(first: Section, rest: string, t: string, u: string)
    requires ReadsAsSection(first) && StartsSection(rest) && StartsSection(t) && StartsSection(u)
    requires t == first.head + first.body + rest && Sections(t) == [first] + Sections(rest)
    requires StartsSection(rest + u) && Sections(rest + u) == Sections(rest) + Sections(u)
    requires EndsLine(first.body)
    ensures StartsSection(t + u) && Sections(t + u) == Sections(t) + Sections(u)
  {
    SectionFirst(first, rest + u);
    Associates(first.head + first.body, rest, u);
    Associates([first], Sections(rest), Sections(u));
  }

  lemma {:induction false} TakeIdempotent(t: string, bol: bool)
    ensures NoHeading(TakeToHeading(t, bol), bol)
  {
    var r := TakeToHeading(t, bol);
    if r != "" {
      TakeIdempotent(t[1..], t[0] == '\n');
      assert r[1..] == TakeToHeading(t[1..], t[0] == '\n');
      TakeFacts(t, bol);
    }
  }

  // ----- releasing pending notes -----

  /** head + "\n\n" + notes + "\n\n" reads back as one section when the notes hold no
      heading. */
  lemma BlockSections(head: string, notes: string, u: string)
    requires IsHeading(head) && OneLine(head) && NoHeading(notes, true) && StartsSection(u)
    ensures StartsSection(Block(head, notes) + u)
    ensures Sections(Block(head, notes) + u) == [Section(head, Padded(notes))] + Sections(u)
  {
    var body := Padded(notes);
    PaddedHasNoHeading(notes);
    assert body[|body| - 1] == '\n';
    assert Block(head, notes) + u == head + body + u;
    SectionFirst(Section(head, body), u);
  }

  lemma SameHeading(t: string, u: string)
    requires t != "" && u != "" && u[0] == '\n'
    ensures IsHeading(t + u) <==> IsHeading(t)
  {
  }

  lemma {:induction false} TrailingNewlines(t: string, bol: bool)
    requires NoHeading(t, bol)
    ensures NoHeading(t + "\n\n", bol)
  {
    var u := t + "\n\n";
    if t == "" {
      assert u[1..] == "\n" && "\n"[1..] == "";
    } else {
      hide IsHeading;
      assert u[1..] == t[1..] + "\n\n";
      assert t[1..] == TakeToHeading(t[1..], t[0] == '\n');
      TrailingNewlines(t[1..], t[0] == '\n');
      SameHeading(t, "\n\n");
    }
  }

  lemma PaddedHasNoHeading(notes: string)
    requires NoHeading(notes, true)
    ensures NoHeading(Padded(notes), false)
  {
    TrailingNewlines(notes, true);
    TakeAfterBlank(notes + "\n\n");
    Associates("\n\n", notes, "\n\n");
  }

  // ----- a released changelog -----

  /** X.Y.Z and the like: digits and dots only. */
  predicate IsVersion(v: string)
  {
    v != "" && forall c | c in v :: '0' <= c <= '9' || c == '.'
  }

  /** Sections of preamble + body, when the body starts with a heading. */
  lemma SectionsAfterPreamble(preamble: string, body: string)
    requires NoHeading(preamble, true) && (preamble == "" || EndsLine(preamble)) && IsHeading(body)
    ensures Preamble(preamble + body) == preamble
    ensures AfterPreamble(preamble + body) == body
    ensures SectionsOf(preamble + body) == Sections(body)
  {
    TakeAppend(preamble, body, true);
  }

  lemma PreambleFacts(t: string)
    ensures NoHeading(Preamble(t), true)
    ensures AfterPreamble(t) != "" ==> Preamble(t) == "" || EndsLine(Preamble(t))
  {
    hide TakeToHeading, IsHeading;
    TakeFacts(t, true);
    TakeIdempotent(t, true);
  }

  /** What the parts say about the text they came from. */
  lemma PartsFacts(t: string)
    requires ChangelogParts(t).Ok?
    ensures var parts := ChangelogParts(t).value;
      && parts.prefix == Preamble(t) + UNRELEASED
      && SectionsOf(t) != [] && SectionsOf(t)[0].head == UNRELEASED && SectionsOf(t)[1..] == Sections(parts.rest)
      && parts.pending == Strip(SectionsOf(t)[0].body) && NoHeading(SectionsOf(t)[0].body, false)
      && NoHeading(Preamble(t), true) && (Preamble(t) == "" || EndsLine(Preamble(t)))
  {
    hide Preamble, NoHeading, EndsLine, IsHeading, Strip, FirstSection;
    PreambleFacts(t);
    FirstFacts(AfterPreamble(t));
    assert Sections(AfterPreamble(t)) == [FirstSection(AfterPreamble(t))] + Sections(AfterFirst(AfterPreamble(t)));
  }

  /** The released text from its first heading on. */
  function ReleaseBody(head: string, notes: string, rest: string): string
  {
    UNRELEASED + "\n\n" + (Block(head, notes) + rest)
  }

  const EMPTY_UNRELEASED := Section(UNRELEASED, "\n\n")

  lemma UnreleasedFirst(released: string)
    requires StartsSection(released)
    ensures var body := UNRELEASED + "\n\n" + released;
      IsHeading(body) && Sections(body) == [EMPTY_UNRELEASED] + Sections(released) && AfterFirst(body) == released
  {
    EmptyUnreleased();
    SectionFirst(EMPTY_UNRELEASED, released);
    FirstIs(UNRELEASED + "\n\n" + released, EMPTY_UNRELEASED, released);
  }

  lemma ReleaseBodySections(head: string, notes: string, rest: string)
    requires IsHeading(head) && OneLine(head) && NoHeading(notes, true) && StartsSection(rest)
    ensures IsHeading(ReleaseBody(head, notes, rest))
    ensures Sections(ReleaseBody(head, notes, rest)) == Added(head, notes, Sections(rest))
    ensures AfterFirst(ReleaseBody(head, notes, rest)) == Block(head, notes) + rest
  {
    BlockSections(head, notes, rest);
    UnreleasedFirst(Block(head, notes) + rest);
    Associates([EMPTY_UNRELEASED], [Section(head, Padded(notes))], Sections(rest));
  }

  lemma FirstIs(t: string, first: Section, rest: string)
    requires IsHeading(t) && FirstSection(t) == first && t == first.head + first.body + rest
    ensures AfterFirst(t) == rest
  {
    FirstFacts(t);
  }

  lemma ReleaseText(t: string, head: string, notes: string)
    requires ChangelogParts(t).Ok?
    ensures var parts := ChangelogParts(t).value;
      WithRelease(parts, head, notes) == Preamble(t) + ReleaseBody(head, notes, parts.rest)
  {
    var parts := ChangelogParts(t).value;
    PartsFacts(t);
    var p, b := Preamble(t), Block(head, notes);
    Associates(p + UNRELEASED + "\n\n", b, parts.rest);
    Associates(p + UNRELEASED, "\n\n", b + parts.rest);
    Associates(p, UNRELEASED, "\n\n" + (b + parts.rest));
    Associates(UNRELEASED, "\n\n", b + parts.rest);
  }

  /** Adding a section below Unreleased: the new section holds the notes, Unreleased is
      empty, and every other section is as it was. */
  lemma ReleaseSections(t: string, head: string, notes: string)
    requires ChangelogParts(t).Ok? && IsHeading(head) && OneLine(head) && NoHeading(notes, true)
    ensures var parts := ChangelogParts(t).value;
      var after := WithRelease(parts, head, notes);
      && Preamble(after) == Preamble(t)
      && AfterPreamble(after) == ReleaseBody(head, notes, parts.rest)
      && SectionsOf(after) == Added(head, notes, SectionsOf(t)[1..])
  {
    var parts := ChangelogParts(t).value;
    PartsFacts(t);
    ReleaseBodySections(head, notes, parts.rest);
    SectionsAfterPreamble(Preamble(t), ReleaseBody(head, notes, parts.rest));
    ReleaseText(t, head, notes);
  }

  lemma EmptyUnreleased()
    ensures ReadsAsSection(Section(UNRELEASED, "\n\n")) && Strip("\n\n") == ""
  {
    assert "\n\n"[1..] == "\n" && "\n"[1..] == "";
    assert StripLeft("\n") == StripLeft("");
  }

  lemma {:induction false} CountAsWith(ss: seq<Section>, head: string)
    ensures CountHead(ss, head) == |WithHead(ss, head)|
  {
    if ss != [] { CountAsWith(ss[1..], head); }
  }

  lemma {:induction false} WithHeadConcat(a: seq<Section>, b: seq<Section>, head: string)
    ensures WithHead(a + b, head) == WithHead(a, head) + WithHead(b, head)
  {
    if a == [] { assert a + b == b; } else {
      assert (a + b)[1..] == a[1..] + b;
      WithHeadConcat(a[1..], b, head);
      Associates(if a[0].head == head then [a[0]] else [], WithHead(a[1..], head), WithHead(b, head));
    }
  }

  lemma {:induction false} WithPrefixConcat(a: seq<Section>, b: seq<Section>, prefix: string)
    ensures WithPrefix(a + b, prefix) == WithPrefix(a, prefix) + WithPrefix(b, prefix)
  {
    if a == [] { assert a + b == b; } else {
      assert (a + b)[1..] == a[1..] + b;
      WithPrefixConcat(a[1..], b, prefix);
    }
  }

  lemma UnreleasedIsNoRelease(version: string)
    requires IsVersion(version)
    ensures !(EnginePrefix(version) <= UNRELEASED)
  {
    assert EnginePrefix(version)[3] == version[0] && version[0] in version && UNRELEASED[3] == 'U';
  }

  lemma HeadsAreLines(version: string, date: string)
    requires OneLine(version) && OneLine(date)
    ensures EnginePrefix(version) <= EngineHead(version, date)
    ensures IsHeading(HostedHead(version, date)) && OneLine(HostedHead(version, date))
    ensures version != "" ==> IsHeading(EngineHead(version, date)) && OneLine(EngineHead(version, date))
  {
    assert EngineHead(version, date) == EnginePrefix(version) + date;
    assert version != "" ==> version[0] in version;
  }

  predicate NoBlank(v: string)
  {
    forall i | 0 <= i < |v| :: v[i] != ' '
  }

  /** Different versions never claim each other's sections. */
  lemma VersionsDiffer(v: string, w: string, date: string)
    requires NoBlank(v) && NoBlank(w) && EnginePrefix(v) <= EngineHead(w, date)
    ensures v == w
  {
    var p, h := EnginePrefix(v), EngineHead(w, date);
    assert h[3 + |w|] == ' ' && p[3 + |v|] == ' ';
    assert forall i | 0 <= i < |w| :: h[3 + i] == w[i];
    assert forall i | 0 <= i < |v| :: p[3 + i] == v[i];
    assert h[3 + |v|] == p[3 + |v|];
    assert |v| >= |w|;
    assert |v| == |w|;
    forall i | 0 <= i < |v| ensures v[i] == w[i] {
      assert p[3 + i] == h[3 + i];
    }
  }

  lemma VersionHasNoBlank(v: string)
    requires IsVersion(v)
    ensures NoBlank(v) && OneLine(v)
  {
    forall i | 0 <= i < |v| ensures v[i] != ' ' && v[i] != '\n' { assert v[i] in v; }
  }

  lemma HostedIsNoRelease(v: string, hosted: string, date: string)
    requires IsVersion(v)
    ensures !(EnginePrefix(v) <= HostedHead(hosted, date))
  {
    assert EnginePrefix(v)[3] == v[0] && v[0] in v && HostedHead(hosted, date)[3] == 'r';
  }

  /** The sections of a changelog with a release added. */
  function Added(head: string, notes: string, others: seq<Section>): seq<Section>
  {
    [EMPTY_UNRELEASED] + [Section(head, Padded(notes))] + others
  }

  lemma AddedWithPrefix(head: string, notes: string, others: seq<Section>, prefix: string)
    ensures WithPrefix(Added(head, notes, others), prefix) ==
      (if prefix <= UNRELEASED then [EMPTY_UNRELEASED] else [])
      + (if prefix <= head then [Section(head, Padded(notes))] else []) + WithPrefix(others, prefix)
  {
    hide Padded;
    var first, added := [EMPTY_UNRELEASED], [Section(head, Padded(notes))];
    assert first[1..] == [] && added[1..] == [];
    WithPrefixConcat(first + added, others, prefix);
    WithPrefixConcat(first, added, prefix);
  }

  lemma AddedWithHead(head: string, notes: string, others: seq<Section>, wanted: string)
    ensures WithHead(Added(head, notes, others), wanted) ==
      (if UNRELEASED == wanted then [EMPTY_UNRELEASED] else [])
      + (if head == wanted then [Section(head, Padded(notes))] else []) + WithHead(others, wanted)
  {
    var first, added := [EMPTY_UNRELEASED], [Section(head, Padded(notes))];
    assert first[1..] == [] && added[1..] == [];
    WithHeadConcat(first + added, others, wanted);
    WithHeadConcat(first, added, wanted);
  }

  /** Round trip of generate, on the text it writes: the notes of the new version read
      back, and every other release reads as before. */
  lemma ReleaseReadsBack(t: string, version: string, date: string, notes: string)
    requires IsVersion(version) && OneLine(date) && ChangelogParts(t).Ok?
    requires WithPrefix(Sections(ChangelogParts(t).value.rest), EnginePrefix(version)) == []
    requires Stripped(notes) && NoHeading(notes, true)
    ensures ReleasedNotes(WithRelease(ChangelogParts(t).value, EngineHead(version, date), notes), version, date)
      == Ok(notes)
  {
    var head := EngineHead(version, date);
    VersionHasNoBlank(version);
    HeadsAreLines(version, date);
    ReleaseSections(t, head, notes);
    PartsFacts(t);
    UnreleasedIsNoRelease(version);
    AddedWithPrefix(head, notes, SectionsOf(t)[1..], EnginePrefix(version));
    StripPadded(notes);
  }

  lemma OtherReleasesUnchanged(t: string, version: string, date: string, notes: string, v: string, d: string)
    requires IsVersion(version) && OneLine(date) && ChangelogParts(t).Ok? && NoHeading(notes, true)
    requires IsVersion(v) && v != version
    ensures ReleasedNotes(WithRelease(ChangelogParts(t).value, EngineHead(version, date), notes), v, d)
      == ReleasedNotes(t, v, d)
  {
    hide IsVersion, EnginePrefix, EngineHead, SectionsOf, WithPrefix, IsHeading, WithRelease, ChangelogParts, NoHeading;
    HeadIsFit(version, date);
    UnreleasedIsNoRelease(v);
    OtherVersion(v, version, date);
    ReleaseKeepsCandidates(t, EngineHead(version, date), notes, EnginePrefix(v));
  }

  lemma OtherVersion(v: string, version: string, date: string)
    requires IsVersion(v) && IsVersion(version) && v != version
    ensures !(EnginePrefix(v) <= EngineHead(version, date))
  {
    hide IsVersion, EnginePrefix, EngineHead;
    VersionHasNoBlank(v);
    VersionHasNoBlank(version);
    if EnginePrefix(v) <= EngineHead(version, date) { VersionsDiffer(v, version, date); }
  }

  lemma HostedReleasesUnchanged(t: string, version: string, date: string, notes: string, v: string, d: string)
    requires IsVersion(version) && OneLine(date) && ChangelogParts(t).Ok? && NoHeading(notes, true)
    ensures HostedNotes(WithRelease(ChangelogParts(t).value, EngineHead(version, date), notes), v, d)
      == HostedNotes(t, v, d)
  {
    hide IsVersion, EngineHead, HostedHead, SectionsOf, WithHead, IsHeading, WithRelease, ChangelogParts, NoHeading;
    HeadIsFit(version, date);
    HostedHeadsDiffer(version, date, v, d);
    ReleaseKeepsHeading(t, EngineHead(version, date), notes, HostedHead(v, d));
  }

  lemma HostedHeadsDiffer(version: string, date: string, v: string, d: string)
    requires IsVersion(version)
    ensures EngineHead(version, date) != HostedHead(v, d) && UNRELEASED != HostedHead(v, d)
  {
    assert EngineHead(version, date)[3] == version[0] && version[0] in version;
    assert HostedHead(v, d)[3] == 'r' && UNRELEASED[3] == 'U';
  }

  /** After adding a section nothing is pending. */
  lemma NothingPending(t: string, head: string, notes: string)
    requires ChangelogParts(t).Ok? && IsHeading(head) && OneLine(head) && NoHeading(notes, true) && head != UNRELEASED
    ensures var parts := ChangelogParts(t).value;
      ChangelogParts(WithRelease(parts, head, notes)) == Ok(Parts(parts.prefix, "", Block(head, notes) + parts.rest))
  {
    var parts := ChangelogParts(t).value;
    var after := WithRelease(parts, head, notes);
    ReleaseSections(t, head, notes);
    PartsFacts(t);
    EmptyUnreleased();
    UnreleasedOnce(t, head, notes);
    ReleaseBodySections(head, notes, parts.rest);
  }

  lemma UnreleasedOnce(t: string, head: string, notes: string)
    requires ChangelogParts(t).Ok? && head != UNRELEASED
    ensures CountHead(Added(head, notes, SectionsOf(t)[1..]), UNRELEASED) == 1
  {
    PartsFacts(t);
    CountAsWith(SectionsOf(t), UNRELEASED);
    CountAsWith(Added(head, notes, SectionsOf(t)[1..]), UNRELEASED);
    AddedWithHead(head, notes, SectionsOf(t)[1..], UNRELEASED);
  }

  // ----- notes that hold a heading -----

  /** A heading inside the notes ends them, whatever is appended. */
  lemma {:induction false} TakeStops(notes: string, x: string, bol: bool)
    requires !NoHeading(notes, bol) && x != "" && x[0] == '\n'
    ensures TakeToHeading(notes + x, bol) == TakeToHeading(notes, bol)
    ensures |TakeToHeading(notes, bol)| < |notes|
  {
    assert IsHeading(notes + x) <==> IsHeading(notes);
    if !(bol && IsHeading(notes)) {
      assert (notes + x)[1..] == notes[1..] + x;
      assert TakeToHeading(notes, bol) == [notes[0]] + TakeToHeading(notes[1..], notes[0] == '\n');
      TakeStops(notes[1..], x, notes[0] == '\n');
    }
  }

  lemma {:induction false} StripShorter(t: string)
    ensures |StripRight(t)| <= |t| && |StripLeft(t)| <= |t| && |Strip(t)| <= |t|
    ensures |t| >= 2 && IsSpace(t[0]) && IsSpace(t[1]) ==> |Strip(t)| <= |t| - 2
  {
    if |t| >= 2 && IsSpace(t[0]) && IsSpace(t[1]) {
      assert StripLeft(t) == StripLeft(t[1..]) == StripLeft(t[1..][1..]);
    }
  }

  lemma {:induction false} InWithPrefix(ss: seq<Section>, s: Section, prefix: string)
    requires s in ss && prefix <= s.head
    ensures s in WithPrefix(ss, prefix)
  {
    if ss[0] != s { InWithPrefix(ss[1..], s, prefix); }
  }

  lemma TakeAfterBlank(u: string)
    ensures TakeToHeading("\n\n" + u, false) == "\n\n" + TakeToHeading(u, true)
  {
    var t := "\n\n" + u;
    assert t[1..] == "\n" + u && ("\n" + u)[1..] == u;
    assert TakeToHeading("\n" + u, true) == "\n" + TakeToHeading(u, true);
  }

  /** The notes of a section that is a candidate are the notes read, if any are. */
  lemma OnlyCandidate(ss: seq<Section>, s: Section, prefix: string, head: string, notes: string)
    requires s in ss && prefix <= s.head && NotesOf(WithPrefix(ss, prefix), head) == Ok(notes)
    ensures notes == Strip(s.body)
  {
    InWithPrefix(ss, s, prefix);
  }

  lemma BlockText(head: string, notes: string, rest: string)
    ensures Block(head, notes) + rest == head + ("\n\n" + (notes + ("\n\n" + rest)))
  {
    Associates(head + "\n\n" + notes, "\n\n", rest);
    Associates(head + "\n\n", notes, "\n\n" + rest);
    Associates(head, "\n\n", notes + ("\n\n" + rest));
  }

  /** The section read back when the notes hold a heading stops short of them. */
  lemma CutSection(head: string, notes: string, rest: string)
    requires IsHeading(head) && OneLine(head) && !NoHeading(notes, true)
    ensures IsHeading(Block(head, notes) + rest)
    ensures var s := FirstSection(Block(head, notes) + rest);
      s.head == head && |Strip(s.body)| < |notes| && (IsHeading(notes) ==> Strip(s.body) == "")
  {
    var x := "\n\n" + rest;
    var released, tail := Block(head, notes) + rest, "\n\n" + (notes + x);
    BlockText(head, notes, rest);
    HeadingPrefix(head, tail);
    LineAppend(head, tail);
    assert released[|head|..] == tail;
    CutBody(notes, x);
  }

  lemma CutBody(notes: string, x: string)
    requires !NoHeading(notes, true) && x != "" && x[0] == '\n'
    ensures |Strip(TakeToHeading("\n\n" + (notes + x), false))| < |notes|
    ensures IsHeading(notes) ==> Strip(TakeToHeading("\n\n" + (notes + x), false)) == ""
  {
    hide Strip, IsHeading, NoHeading, TakeToHeading;
    var taken := TakeToHeading(notes, true);
    TakeStops(notes, x, true);
    TakeAfterBlank(notes + x);
    BlankThenShorter(taken);
    if IsHeading(notes) {
      TakeNothing(notes);
      EmptyUnreleased();
      assert "\n\n" + "" == "\n\n";
    }
  }

  lemma BlankThenShorter(s: string)
    ensures |Strip("\n\n" + s)| <= |s|
  {
    hide StripLeft, StripRight;
    StripShorter("\n\n" + s);
  }

  lemma TakeNothing(t: string)
    requires IsHeading(t)
    ensures TakeToHeading(t, true) == ""
  {
  }

  lemma SecondSection(t: string, head: string, notes: string)
    requires ChangelogParts(t).Ok? && IsHeading(Block(head, notes) + ChangelogParts(t).value.rest)
    ensures var rest := ChangelogParts(t).value.rest;
      FirstSection(Block(head, notes) + rest) in SectionsOf(WithRelease(ChangelogParts(t).value, head, notes))
  {
    var parts := ChangelogParts(t).value;
    var released := Block(head, notes) + parts.rest;
    PartsFacts(t);
    UnreleasedFirst(released);
    ReleaseText(t, head, notes);
    SectionsAfterPreamble(Preamble(t), ReleaseBody(head, notes, parts.rest));
    SecondOf(EMPTY_UNRELEASED, FirstSection(released), Sections(AfterFirst(released)));
  }

  lemma SecondOf(a: Section, b: Section, rest: seq<Section>)
    ensures b in [a] + ([b] + rest)
  {
    assert ([a] + ([b] + rest))[1] == b;
  }

  /** generate reads its own notes back if and only if they hold no heading line. */
  lemma ReadsBackExactly(t: string, version: string, date: string, notes: string)
    requires IsVersion(version) && OneLine(date) && ChangelogParts(t).Ok? && Stripped(notes)
    requires WithPrefix(Sections(ChangelogParts(t).value.rest), EnginePrefix(version)) == []
    ensures ReleasedNotes(WithRelease(ChangelogParts(t).value, EngineHead(version, date), notes), version, date)
      == Ok(notes)
      <==> NoHeading(notes, true)
  {
    if NoHeading(notes, true) {
      ReleaseReadsBack(t, version, date, notes);
    } else {
      var head := EngineHead(version, date);
      var after := WithRelease(ChangelogParts(t).value, head, notes);
      VersionHasNoBlank(version);
      HeadsAreLines(version, date);
      var s := CutCandidate(t, head, notes);
      if ReleasedNotes(after, version, date) == Ok(notes) {
        OnlyCandidate(SectionsOf(after), s, EnginePrefix(version), head, notes);
      }
    }
  }

  // ----- when pending notes hold a heading -----

  lemma {:induction false} TakeSuffix(a: string, b: string, bol: bool)
    requires NoHeading(a + b, bol)
    ensures NoHeading(b, if a == "" then bol else a[|a| - 1] == '\n')
  {
    var t := a + b;
    if a == "" {
      assert t == b;
    } else {
      assert t[1..] == a[1..] + b;
      assert TakeToHeading(t, bol) == [t[0]] + TakeToHeading(t[1..], t[0] == '\n');
      assert TakeToHeading(t, bol)[1..] == t[1..];
      TakeSuffix(a[1..], b, t[0] == '\n');
    }
  }

  lemma {:induction false} TakePrefix(a: string, b: string, bol: bool)
    requires NoHeading(a + b, bol)
    ensures NoHeading(a, bol)
  {
    var t := a + b;
    if a != "" {
      assert t[1..] == a[1..] + b;
      assert TakeToHeading(t, bol) == [t[0]] + TakeToHeading(t[1..], t[0] == '\n');
      assert TakeToHeading(t, bol)[1..] == t[1..];
      TakePrefix(a[1..], b, t[0] == '\n');
      assert IsHeading(a) ==> IsHeading(t);
    }
  }

  /** Stripping a body without headings can uncover a heading only at its very start. */
  lemma StrippedBody(body: string)
    requires NoHeading(body, false)
    ensures NoHeading(Strip(body), true) <==> !IsHeading(Strip(body))
  {
    var gap, trail := StripParts(body);
    var core := Strip(body);
    var bol := if gap == "" then false else gap[|gap| - 1] == '\n';
    TakeSuffix(gap, core + trail, false);
    TakePrefix(core, trail, bol);
    StartOnly(core, bol);
  }

  lemma StripParts(t: string) returns (gap: string, trail: string)
    ensures t == gap + (Strip(t) + trail)
  {
    hide StripLeft, StripRight;
    var left := StripLeft(t);
    gap, trail := t[..|t| - |left|], left[|StripRight(left)|..];
    assert t == gap + left;
    assert left == StripRight(left) + trail;
  }

  /** Whether the text starts a line matters only for a heading at its very start. */
  lemma StartOnly(t: string, bol: bool)
    requires NoHeading(t, bol)
    ensures NoHeading(t, true) <==> !IsHeading(t)
  {
    if t != "" {
      assert TakeToHeading(t, bol) == [t[0]] + TakeToHeading(t[1..], t[0] == '\n');
    }
  }

  lemma PendingIsStripped(t: string)
    requires ChangelogParts(t).Ok? && ChangelogParts(t).value.pending != ""
    ensures Stripped(ChangelogParts(t).value.pending)
  {
    PartsFacts(t);
    var body := SectionsOf(t)[0].body;
    assert StripLeft(body)[0] == Strip(body)[0];
  }

  /** Round trip of generate for pending notes: they read back exactly when the pending
      text, once stripped, does not begin with a heading. */
  lemma PendingReadsBackExactly(t: string, version: string, date: string, fallback: string)
    requires IsVersion(version) && OneLine(date)
    requires ChangelogParts(t).Ok? && ChangelogParts(t).value.pending != "" && Generate(t, version, date, fallback).Ok?
    ensures var pending := ChangelogParts(t).value.pending;
      ReleasedNotes(Generate(t, version, date, fallback).value, version, date) == Ok(pending) <==> !IsHeading(pending)
  {
    PartsFacts(t);
    PendingIsStripped(t);
    StrippedBody(SectionsOf(t)[0].body);
    ReadsBackExactly(t, version, date, ChangelogParts(t).value.pending);
  }

  /** The notes generate releases. */
  function ReleasableNotes(t: string, fallback: string): string
    requires ChangelogParts(t).Ok?
  {
    if ChangelogParts(t).value.pending != "" then ChangelogParts(t).value.pending else fallback
  }

  lemma ReleasableFacts(t: string, fallback: string)
    requires ChangelogParts(t).Ok? && Stripped(fallback) && NoHeading(fallback, true)
    requires !IsHeading(ChangelogParts(t).value.pending)
    ensures Stripped(ReleasableNotes(t, fallback)) && NoHeading(ReleasableNotes(t, fallback), true)
  {
    if ChangelogParts(t).value.pending != "" {
      PartsFacts(t);
      PendingIsStripped(t);
      StrippedBody(SectionsOf(t)[0].body);
    }
  }

  /** generate on any changelog it accepts, for notes without a heading line. */
  lemma GenerateRoundTrip(t: string, version: string, date: string, fallback: string)
    requires IsVersion(version) && OneLine(date) && Generate(t, version, date, fallback).Ok?
    requires Stripped(fallback) && NoHeading(fallback, true) && !IsHeading(ChangelogParts(t).value.pending)
    ensures var after := Generate(t, version, date, fallback).value;
      && ReleasedNotes(after, version, date) == Ok(ReleasableNotes(t, fallback))
      && ChangelogParts(after).Ok? && ChangelogParts(after).value.pending == ""
  {
    ReleasableFacts(t, fallback);
    ReleaseReadsBack(t, version, date, ReleasableNotes(t, fallback));
    HeadIsFit(version, date);
    NothingPending(t, EngineHead(version, date), ReleasableNotes(t, fallback));
  }

  lemma HeadIsFit(version: string, date: string)
    requires IsVersion(version) && OneLine(date)
    ensures var head := EngineHead(version, date); IsHeading(head) && OneLine(head) && head != UNRELEASED
  {
    VersionHasNoBlank(version);
    HeadsAreLines(version, date);
    assert EngineHead(version, date)[3] == version[0] && version[0] in version && UNRELEASED[3] == 'U';
  }

  /** generate leaves every other release of either package readable as before. */
  lemma GenerateKeepsOthers(t: string, version: string, date: string, fallback: string, v: string, d: string)
    requires IsVersion(version) && OneLine(date) && Generate(t, version, date, fallback).Ok?
    requires Stripped(fallback) && NoHeading(fallback, true) && !IsHeading(ChangelogParts(t).value.pending)
    ensures var after := Generate(t, version, date, fallback).value;
      && (IsVersion(v) && v != version ==> ReleasedNotes(after, v, d) == ReleasedNotes(t, v, d))
      && HostedNotes(after, v, d) == HostedNotes(t, v, d)
  {
    ReleasableFacts(t, fallback);
    if IsVersion(v) && v != version { OtherReleasesUnchanged(t, version, date, ReleasableNotes(t, fallback), v, d); }
    HostedReleasesUnchanged(t, version, date, ReleasableNotes(t, fallback), v, d);
  }

  // ----- hosted releases -----

  lemma HostedHeadIsFit(version: string, date: string)
    requires OneLine(version) && OneLine(date)
    ensures var head := HostedHead(version, date); IsHeading(head) && OneLine(head) && head != UNRELEASED
  {
    HeadsAreLines(version, date);
    assert HostedHead(version, date)[3] == 'r' && UNRELEASED[3] == 'U';
  }

  /** Adding a section changes the candidates of no other heading or prefix. */
  lemma ReleaseKeepsCandidates(t: string, head: string, notes: string, prefix: string)
    requires ChangelogParts(t).Ok? && IsHeading(head) && OneLine(head) && NoHeading(notes, true)
    requires !(prefix <= head) && !(prefix <= UNRELEASED)
    ensures WithPrefix(SectionsOf(WithRelease(ChangelogParts(t).value, head, notes)), prefix)
      == WithPrefix(SectionsOf(t), prefix)
  {
    ReleaseSections(t, head, notes);
    PartsFacts(t);
    AddedWithPrefix(head, notes, SectionsOf(t)[1..], prefix);
    WithPrefixTail(SectionsOf(t), prefix);
  }

  lemma ReleaseKeepsHeading(t: string, head: string, notes: string, wanted: string)
    requires ChangelogParts(t).Ok? && IsHeading(head) && OneLine(head) && NoHeading(notes, true)
    requires head != wanted && wanted != UNRELEASED
    ensures WithHead(SectionsOf(WithRelease(ChangelogParts(t).value, head, notes)), wanted)
      == WithHead(SectionsOf(t), wanted)
  {
    hide SectionsOf, WithRelease, ChangelogParts, NoHeading, IsHeading;
    ReleaseSections(t, head, notes);
    PartsFacts(t);
    AddedWithHead(head, notes, SectionsOf(t)[1..], wanted);
    assert WithHead(SectionsOf(t), wanted) == WithHead(SectionsOf(t)[1..], wanted);
  }

  lemma WithPrefixTail(ss: seq<Section>, prefix: string)
    requires ss != [] && !(prefix <= ss[0].head)
    ensures WithPrefix(ss, prefix) == WithPrefix(ss[1..], prefix)
  {
  }

  lemma CandidateSection(t: string, head: string, notes: string)
    requires ChangelogParts(t).Ok? && IsHeading(head) && OneLine(head) && NoHeading(notes, true)
    requires head != UNRELEASED && WithHead(SectionsOf(t), head) == []
    ensures WithHead(SectionsOf(WithRelease(ChangelogParts(t).value, head, notes)), head)
      == [Section(head, Padded(notes))]
  {
    hide WithRelease, Strip, Padded, IsHeading, Sections, AfterPreamble;
    ReleaseSections(t, head, notes);
    PartsFacts(t);
    AddedWithHead(head, notes, SectionsOf(t)[1..], head);
  }

  lemma ReleaseAddsCandidate(t: string, head: string, notes: string)
    requires ChangelogParts(t).Ok? && IsHeading(head) && OneLine(head) && NoHeading(notes, true) && Stripped(notes)
    requires head != UNRELEASED && WithHead(SectionsOf(t), head) == []
    ensures NotesOf(WithHead(SectionsOf(WithRelease(ChangelogParts(t).value, head, notes)), head), head) == Ok(notes)
  {
    hide WithRelease, Strip, IsHeading, SectionsOf, WithHead;
    CandidateSection(t, head, notes);
    StripPadded(notes);
  }

  lemma {:induction false} InWithHead(ss: seq<Section>, s: Section)
    requires s in ss
    ensures s in WithHead(ss, s.head)
  {
    if ss[0] != s { InWithHead(ss[1..], s); }
  }

  /** The notes read under a heading are those of any section that has it. */
  lemma OnlyWithHead(ss: seq<Section>, s: Section)
    requires s in ss
    ensures var r := NotesOf(WithHead(ss, s.head), s.head);
      r == Refused || r == Ok(Strip(s.body))
    ensures Strip(s.body) == "" ==> NotesOf(WithHead(ss, s.head), s.head) == Refused
  {
    hide Strip;
    InWithHead(ss, s);
  }

  /** insert_hosted_release without an engine release reads its own notes back if and only if
      they hold no heading line, and then nothing is pending. */
  lemma HostedOnlyReadsBack(t: string, version: string, date: string, notes: string)
    requires OneLine(version) && OneLine(date) && Stripped(notes)
    requires InsertHosted(t, version, date, notes, None).Ok?
    ensures var after := InsertHosted(t, version, date, notes, None).value;
      && (HostedNotes(after, version, date) == Ok(notes) <==> NoHeading(notes, true))
      && (NoHeading(notes, true) ==> ChangelogParts(after).Ok? && ChangelogParts(after).value.pending == "")
  {
    hide HostedHead, IsHeading, NoHeading, WithHead, SectionsOf, ChangelogParts, WithRelease, Strip, Block;
    HostedHeadIsFit(version, date);
    var head := HostedHead(version, date);
    if NoHeading(notes, true) {
      ReleaseAddsCandidate(t, head, notes);
      NothingPending(t, head, notes);
    } else {
      var s := CutCandidate(t, head, notes);
      OnlyWithHead(SectionsOf(WithRelease(ChangelogParts(t).value, head, notes)), s);
    }
  }

  /** What is read of a section whose notes hold a heading line. */
  lemma CutCandidate(t: string, head: string, notes: string) returns (s: Section)
    requires ChangelogParts(t).Ok? && IsHeading(head) && OneLine(head) && !NoHeading(notes, true)
    ensures s in SectionsOf(WithRelease(ChangelogParts(t).value, head, notes)) && s.head == head
    ensures |Strip(s.body)| < |notes| && (IsHeading(notes) ==> Strip(s.body) == "")
  {
    hide SectionsOf, ChangelogParts, WithRelease, Strip, Block;
    var rest := ChangelogParts(t).value.rest;
    CutSection(head, notes, rest);
    SecondSection(t, head, notes);
    s := FirstSection(Block(head, notes) + rest);
  }

  /** ... and engine releases and all other hosted releases read as before. */
  lemma HostedOnlyKeepsOthers(t: string, version: string, date: string, notes: string, v: string, d: string)
    requires OneLine(version) && OneLine(date) && NoHeading(notes, true)
    requires InsertHosted(t, version, date, notes, None).Ok?
    ensures var after := InsertHosted(t, version, date, notes, None).value;
      && (IsVersion(v) ==> ReleasedNotes(after, v, d) == ReleasedNotes(t, v, d))
      && (HostedHead(v, d) != HostedHead(version, date) ==> HostedNotes(after, v, d) == HostedNotes(t, v, d))
  {
    hide IsVersion, EnginePrefix, HostedHead, SectionsOf, WithPrefix, WithHead, IsHeading, WithRelease,
         ChangelogParts, NoHeading;
    HostedHeadIsFit(version, date);
    if IsVersion(v) {
      UnreleasedIsNoRelease(v);
      HostedIsNoRelease(v, version, date);
      ReleaseKeepsCandidates(t, HostedHead(version, date), notes, EnginePrefix(v));
    }
    HostedIsNotUnreleased(v, d);
    if HostedHead(v, d) != HostedHead(version, date) {
      ReleaseKeepsHeading(t, HostedHead(version, date), notes, HostedHead(v, d));
    }
  }

  lemma HostedIsNotUnreleased(v: string, d: string)
    ensures HostedHead(v, d) != UNRELEASED
  {
    assert HostedHead(v, d)[3] == 'r' && UNRELEASED[3] == 'U';
  }

  /** A text cut at the end of its first section with this heading. */
  lemma {:induction false} CutAfterHead(t: string, head: string) returns (x: string, y: string)
    requires StartsSection(t) && CountHead(Sections(t), head) > 0
    ensures t == x + y && |x| == EndOfHead(Sections(t), head) && x != ""
    ensures StartsSection(x) && StartsSection(y) && Sections(t) == Sections(x) + Sections(y)
    ensures y != "" ==> EndsLine(x)
    decreases |t|
  {
    var first, rest := FirstSection(t), AfterFirst(t);
    FirstFacts(t);
    if first.head == head {
      x, y := first.head + first.body, rest;
      CutHere(first, rest);
    } else {
      var x', y' := CutAfterHead(rest, head);
      x, y := first.head + first.body + x', y';
      PrependCut(first, x', y');
    }
  }

  lemma CutHere(first: Section, rest: string)
    requires ReadsAsSection(first) && StartsSection(rest)
    ensures var x := first.head + first.body;
      StartsSection(x) && x != "" && [first] + Sections(rest) == Sections(x) + Sections(rest)
      && (EndsLine(first.body) ==> EndsLine(x))
  {
    var x := first.head + first.body;
    SectionFirst(first, "");
    assert x + "" == x;
    assert Sections("") == [] && [first] + [] == [first];
    assert first.body != "" ==> x[|x| - 1] == first.body[|first.body| - 1];
  }

  lemma PrependCut(first: Section, x: string, y: string)
    requires ReadsAsSection(first) && EndsLine(first.body) && StartsSection(x) && StartsSection(y) && x != ""
    ensures var here := first.head + first.body;
      && StartsSection(here + x) && here + x != "" && here + (x + y) == (here + x) + y
      && [first] + (Sections(x) + Sections(y)) == Sections(here + x) + Sections(y)
      && (EndsLine(x) ==> EndsLine(here + x))
  {
    var here := first.head + first.body;
    SectionFirst(first, x);
    Associates(here, x, y);
    Associates([first], Sections(x), Sections(y));
    assert (here + x)[|here + x| - 1] == x[|x| - 1];
  }

  /** The text before and after the insertion point. */
  lemma InsertionPoint(t: string, engineHead: string) returns (x: string, y: string)
    requires CountHead(SectionsOf(t), engineHead) > 0
    ensures AfterPreamble(t) == x + y && x != "" && StartsSection(x) && StartsSection(y) && (y != "" ==> EndsLine(x))
    ensures SectionsOf(t) == Sections(x) + Sections(y)
    ensures |y| == |t| - |Preamble(t)| - EndOfHead(SectionsOf(t), engineHead)
    ensures forall head, notes ::
      InsertAfter(t, engineHead, head, notes) == Preamble(t) + (x + (Block(head, notes) + y))
  {
    x, y := CutAfterHead(AfterPreamble(t), engineHead);
    var p := Preamble(t);
    Associates(p, x, y);
    var at := |p + x|;
    assert t == (p + x) + y;
    assert t[..at] == p + x && t[at..] == y;
    forall head, notes ensures InsertAfter(t, engineHead, head, notes) == p + (x + (Block(head, notes) + y)) {
      InsertText(p, x, Block(head, notes), y);
    }
  }

  lemma InsertText(p: string, x: string, b: string, y: string)
    ensures p + x + b + y == p + (x + (b + y))
  {
    Associates(p + x, b, y);
    Associates(p, x, b + y);
  }

  lemma InsertedSections(x: string, y: string, head: string, notes: string)
    requires StartsSection(x) && StartsSection(y) && x != "" && EndsLine(x)
    requires IsHeading(head) && OneLine(head) && NoHeading(notes, true)
    ensures IsHeading(x + (Block(head, notes) + y))
    ensures Sections(x + (Block(head, notes) + y)) == Sections(x) + ([Section(head, Padded(notes))] + Sections(y))
  {
    BlockSections(head, notes, y);
    SectionsConcat(x, Block(head, notes) + y);
    HeadingPrefix(x, Block(head, notes) + y);
  }

  lemma SameLastChar(t: string)
    requires AfterPreamble(t) != "" && EndsLine(t)
    ensures EndsLine(AfterPreamble(t))
  {
    var b := AfterPreamble(t);
    assert t[|t| - 1] == b[|b| - 1];
  }

  lemma AfterPreambleText(t: string, body: string)
    requires IsHeading(body) && AfterPreamble(t) != ""
    ensures SectionsOf(Preamble(t) + body) == Sections(body)
  {
    hide Preamble, NoHeading, EndsLine, IsHeading;
    PreambleFacts(t);
    SectionsAfterPreamble(Preamble(t), body);
  }

  /** The named section is not the last one, or the text ends with a newline. */
  predicate InsertableAfter(t: string, engineHead: string)
  {
    EndsLine(t) || |Preamble(t)| + EndOfHead(SectionsOf(t), engineHead) < |t|
  }

  /** Then the hosted section is inserted between complete sections. */
  lemma InsertSections(t: string, engineHead: string, head: string, notes: string)
        returns (a: seq<Section>, b: seq<Section>)
    requires IsHeading(head) && OneLine(head) && NoHeading(notes, true)
    requires CountHead(SectionsOf(t), engineHead) > 0 && InsertableAfter(t, engineHead)
    ensures SectionsOf(t) == a + b
    ensures SectionsOf(InsertAfter(t, engineHead, head, notes)) == a + ([Section(head, Padded(notes))] + b)
  {
    var x, y := InsertionPoint(t, engineHead);
    if y == "" { SameLastChar(t); assert x + "" == x; }
    InsertedSections(x, y, head, notes);
    AfterPreambleText(t, x + (Block(head, notes) + y));
    a, b := Sections(x), Sections(y);
  }

  lemma InsertAddsCandidate(t: string, engineHead: string, head: string, notes: string)
    requires IsHeading(head) && OneLine(head) && NoHeading(notes, true) && Stripped(notes)
    requires CountHead(SectionsOf(t), engineHead) > 0 && InsertableAfter(t, engineHead)
    requires WithHead(SectionsOf(t), head) == []
    ensures NotesOf(WithHead(SectionsOf(InsertAfter(t, engineHead, head, notes)), head), head) == Ok(notes)
  {
    var a, b := InsertSections(t, engineHead, head, notes);
    var added := [Section(head, Padded(notes))];
    WithHeadConcat(a, added + b, head);
    WithHeadConcat(added, b, head);
    WithHeadConcat(a, b, head);
    assert added[1..] == [];
    StripPadded(notes);
  }

  lemma InsertKeepsCandidates(t: string, engineHead: string, head: string, notes: string, prefix: string)
    requires IsHeading(head) && OneLine(head) && NoHeading(notes, true) && !(prefix <= head)
    requires CountHead(SectionsOf(t), engineHead) > 0 && InsertableAfter(t, engineHead)
    ensures WithPrefix(SectionsOf(InsertAfter(t, engineHead, head, notes)), prefix) == WithPrefix(SectionsOf(t), prefix)
  {
    var a, b := InsertSections(t, engineHead, head, notes);
    MiddleIgnored(a, Section(head, Padded(notes)), b, prefix);
  }

  lemma MiddleIgnored(a: seq<Section>, s: Section, b: seq<Section>, prefix: string)
    requires !(prefix <= s.head)
    ensures WithPrefix(a + ([s] + b), prefix) == WithPrefix(a + b, prefix)
  {
    WithPrefixConcat(a, [s] + b, prefix);
    WithPrefixConcat([s], b, prefix);
    WithPrefixConcat(a, b, prefix);
    assert [s][1..] == [];
  }

  /** Round trip of insert_hosted_release after an engine release. */
  lemma InsertReadsBack(t: string, version: string, date: string, notes: string, engine: string)
    requires OneLine(version) && OneLine(date) && Stripped(notes) && NoHeading(notes, true)
    requires InsertHosted(t, version, date, notes, Some(engine)).Ok? && InsertableAfter(t, EngineHead(engine, date))
    ensures HostedNotes(InsertHosted(t, version, date, notes, Some(engine)).value, version, date) == Ok(notes)
  {
    HostedHeadIsFit(version, date);
    InsertAddsCandidate(t, EngineHead(engine, date), HostedHead(version, date), notes);
  }

  /** ... and engine releases, the one it follows included, and all other hosted releases
      read as before. */
  lemma InsertKeepsOthers(t: string, version: string, date: string, notes: string, engine: string, v: string, d: string)
    requires OneLine(version) && OneLine(date) && NoHeading(notes, true)
    requires InsertHosted(t, version, date, notes, Some(engine)).Ok? && InsertableAfter(t, EngineHead(engine, date))
    ensures var after := InsertHosted(t, version, date, notes, Some(engine)).value;
      && (IsVersion(v) ==> ReleasedNotes(after, v, d) == ReleasedNotes(t, v, d))
      && (HostedHead(v, d) != HostedHead(version, date) ==> HostedNotes(after, v, d) == HostedNotes(t, v, d))
  {
    hide IsVersion, EnginePrefix, EngineHead, HostedHead, SectionsOf, WithPrefix, WithHead, IsHeading,
         InsertAfter, InsertableAfter, NoHeading;
    HostedHeadIsFit(version, date);
    if IsVersion(v) {
      HostedIsNoRelease(v, version, date);
      InsertKeepsCandidates(t, EngineHead(engine, date), HostedHead(version, date), notes, EnginePrefix(v));
    }
    if HostedHead(v, d) != HostedHead(version, date) {
      InsertKeepsHeading(t, EngineHead(engine, date), HostedHead(version, date), notes, HostedHead(v, d));
    }
  }

  lemma InsertKeepsHeading(t: string, engineHead: string, head: string, notes: string, wanted: string)
    requires IsHeading(head) && OneLine(head) && NoHeading(notes, true) && head != wanted
    requires CountHead(SectionsOf(t), engineHead) > 0 && InsertableAfter(t, engineHead)
    ensures WithHead(SectionsOf(InsertAfter(t, engineHead, head, notes)), wanted) == WithHead(SectionsOf(t), wanted)
  {
    hide SectionsOf, WithHead, IsHeading, InsertAfter, InsertableAfter, NoHeading;
    var a, b := InsertSections(t, engineHead, head, notes);
    MiddleHeadIgnored(a, Section(head, Padded(notes)), b, wanted);
  }

  lemma MiddleHeadIgnored(a: seq<Section>, s: Section, b: seq<Section>, head: string)
    requires s.head != head
    ensures WithHead(a + ([s] + b), head) == WithHead(a + b, head)
  {
    WithHeadConcat(a, [s] + b, head);
    WithHeadConcat(a, b, head);
    assert ([s] + b)[1..] == b;
  }

  // ----- the insertion that is lost -----

  /** A whole line of t, at position i, equal to head. */
  ghost predicate LineAt(t: string, i: nat, head: string)
  {
    && i + |head| <= |t| && t[i..i + |head|] == head
    && (i == 0 || t[i - 1] == '\n')
    && (i + |head| == |t| || t[i + |head|] == '\n')
  }

  lemma {:induction false} NoHeadingInside(t: string, bol: bool, i: nat)
    requires NoHeading(t, bol) && i < |t| && (if i == 0 then bol else t[i - 1] == '\n')
    ensures !IsHeading(t[i..])
  {
    assert TakeToHeading(t, bol) == t;
    if i > 0 {
      assert TakeToHeading(t, bol) == [t[0]] + TakeToHeading(t[1..], t[0] == '\n');
      assert TakeToHeading(t[1..], t[0] == '\n') == t[1..];
      NoHeadingInside(t[1..], t[0] == '\n', i - 1);
      assert t[1..][i - 1..] == t[i..];
    }
  }

  /** The heading of a section is a line of the text. */
  lemma {:induction false} HeadIsLine(t: string, head: string) returns (i: nat)
    requires StartsSection(t) && WithHead(Sections(t), head) != []
    ensures LineAt(t, i, head)
    decreases |t|
  {
    hide LineAt, ReadsAsSection;
    var first, rest := FirstSection(t), AfterFirst(t);
    if first.head == head {
      i := 0;
      FirstLine(t);
    } else {
      var j := HeadIsLine(rest, head);
      i := |first.head + first.body| + j;
      FirstFacts(t);
      SectionEndsLine(first);
      LineShift(first.head + first.body, rest, j, head);
    }
  }

  lemma FirstLine(t: string)
    requires IsHeading(t)
    ensures LineAt(t, 0, FirstSection(t).head)
  {
    LineFacts(t);
  }

  lemma SectionEndsLine(s: Section)
    ensures EndsLine(s.body) ==> EndsLine(s.head + s.body)
  {
    assert s.body != "" ==> (s.head + s.body)[|s.head + s.body| - 1] == s.body[|s.body| - 1];
  }

  lemma LineShift(here: string, rest: string, j: nat, head: string)
    requires EndsLine(here) && LineAt(rest, j, head)
    ensures LineAt(here + rest, |here| + j, head)
  {
    var t, i := here + rest, |here| + j;
    assert t[i..i + |head|] == rest[j..j + |head|];
    assert t[i - 1] == if j == 0 then here[|here| - 1] else rest[j - 1];
  }

  lemma LineBehind(here: string, rest: string, i: nat, head: string)
    requires |here| <= i && LineAt(here + rest, i, head)
    ensures LineAt(rest, i - |here|, head)
  {
    var t, j := here + rest, i - |here|;
    assert rest[j..j + |head|] == t[i..i + |head|];
    assert j > 0 ==> rest[j - 1] == t[i - 1];
  }

  lemma LaterHead(t: string, head: string)
    requires IsHeading(t) && WithHead(Sections(AfterFirst(t)), head) != []
    ensures WithHead(Sections(t), head) != []
  {
    assert ([FirstSection(t)] + Sections(AfterFirst(t)))[1..] == Sections(AfterFirst(t));
  }

  lemma FirstHead(t: string)
    requires IsHeading(t)
    ensures WithHead(Sections(t), FirstSection(t).head) != []
  {
  }

  lemma LineNeedsText(t: string, i: nat, head: string)
    requires StartsSection(t) && IsHeading(head) && LineAt(t, i, head)
    ensures IsHeading(t)
  {
  }

  /** A line that is a heading is the heading of a section. */
  lemma {:induction false} LineIsHead(t: string, i: nat, head: string)
    requires StartsSection(t) && IsHeading(head) && OneLine(head) && LineAt(t, i, head)
    ensures WithHead(Sections(t), head) != []
    decreases |t|
  {
    hide Sections, WithHead, LineAt, TakeToHeading, Line, StartsSection;
    LineNeedsText(t, i, head);
    var here, rest := FirstSection(t).head + FirstSection(t).body, AfterFirst(t);
    if i < |here| || rest == "" {
      LineIsFirst(t, i, head);
      FirstHead(t);
    } else {
      FirstFacts(t);
      LineBehind(here, rest, i, head);
      LineIsHead(rest, i - |here|, head);
      LaterHead(t, head);
    }
  }

  lemma LineIsFirst(t: string, i: nat, head: string)
    requires IsHeading(t) && IsHeading(head) && OneLine(head) && LineAt(t, i, head)
    requires i < |FirstSection(t).head + FirstSection(t).body| || AfterFirst(t) == ""
    ensures FirstSection(t).head == head
  {
    if i > 0 { InsideFirst(t, i, head); }
    WholeLine(t, head);
  }

  lemma {:induction false} WholeLine(t: string, head: string)
    requires OneLine(head) && LineAt(t, 0, head)
    ensures Line(t) == head
  {
    assert t == head + t[|head|..];
    LineAppend(head, t[|head|..]);
  }

  /** A later line starts behind a first line. */
  lemma LineBehindLine(here: string, rest: string, i: nat, head: string)
    requires OneLine(here) && 0 < i && LineAt(here + rest, i, head)
    ensures i > |here| && LineAt(rest, i - |here|, head)
  {
    assert forall j | 0 <= j < |here| :: (here + rest)[j] == here[j];
    LineBehind(here, rest, i, head);
  }

  lemma LineInBody(body: string, rest: string, b: nat, head: string)
    requires 0 < b < |body| || rest == ""
    requires 0 < b && IsHeading(head) && OneLine(head) && (rest != "" ==> EndsLine(body))
      && LineAt(body + rest, b, head)
    ensures b < |body| && body[b - 1] == '\n' && IsHeading(body[b..])
  {
    assert rest == "" ==> body + rest == body;
    assert body[b - 1] == (body + rest)[b - 1];
    HeadFitsBody(body, rest, b, head);
  }

  lemma InsideFirst(t: string, i: nat, head: string)
    requires IsHeading(t) && IsHeading(head) && OneLine(head)
    requires 0 < i < |FirstSection(t).head| + |FirstSection(t).body| || AfterFirst(t) == ""
    ensures i > 0 ==> !LineAt(t, i, head)
  {
    if i > 0 && LineAt(t, i, head) {
      var first, rest := FirstSection(t), AfterFirst(t);
      FirstFacts(t);
      Associates(first.head, first.body, rest);
      LineBehindLine(first.head, first.body + rest, i, head);
      var b := i - |first.head|;
      LineInBody(first.body, rest, b, head);
      NoHeadingInside(first.body, false, b);
      assert false;
    }
  }

  lemma HeadFitsBody(body: string, rest: string, b: nat, head: string)
    requires 0 < b < |body| && IsHeading(head) && OneLine(head) && (rest != "" ==> EndsLine(body))
    requires b + |head| <= |body + rest| && (body + rest)[b..b + |head|] == head
    ensures IsHeading(body[b..])
  {
    var u := body + rest;
    assert forall j | 0 <= j < |head| :: u[b + j] == head[j];
    assert rest != "" ==> u[|body| - 1] == '\n';
    assert b + |head| <= |body|;
    assert forall j | 0 <= j < 4 :: body[b..][j] == u[b + j] == head[j];
  }

  /** A heading line of the whole text is the heading of a section. */
  lemma LineIsHeadOf(t: string, i: nat, head: string)
    requires IsHeading(head) && OneLine(head) && LineAt(t, i, head)
    ensures WithHead(SectionsOf(t), head) != []
  {
    hide TakeToHeading, NoHeading, IsHeading, WithHead, Sections;
    var p, body := Preamble(t), AfterPreamble(t);
    PreambleFacts(t);
    if i < |p| {
      HeadingStarts(t, i, head);
      PreambleLine(t, i);
    }
    LineBehind(p, body, i, head);
    LineIsHead(body, i - |p|, head);
  }

  lemma HeadingStarts(t: string, i: nat, head: string)
    requires IsHeading(head) && i + |head| <= |t| && t[i..i + |head|] == head
    ensures IsHeading(t[i..])
  {
    assert forall j | 0 <= j < 4 :: t[i..][j] == t[i..i + |head|][j];
  }

  lemma {:induction false} TakeReaches(t: string, bol: bool, i: nat)
    requires i < |TakeToHeading(t, bol)| && (if i == 0 then bol else t[i - 1] == '\n')
    ensures !IsHeading(t[i..])
  {
    if i > 0 {
      TakeReaches(t[1..], t[0] == '\n', i - 1);
      assert t[1..][i - 1..] == t[i..];
    }
  }

  lemma PreambleLine(t: string, i: nat)
    requires i < |Preamble(t)| && (i == 0 || t[i - 1] == '\n')
    ensures !IsHeading(t[i..])
  {
    TakeReaches(t, true, i);
  }

  lemma LineBefore(t: string, v: string, head: string, i: nat)
    requires i + |head| <= |t| && LineAt(t + v, i, head)
    ensures LineAt(t, i, head)
  {
    assert t[i..i + |head|] == (t + v)[i..i + |head|];
    assert forall j | 0 <= j < |t| :: (t + v)[j] == t[j];
  }

  lemma LineAcross(t: string, head: string, v: string, i: nat)
    requires t != "" && !EndsLine(t) && head != "" && OneLine(head)
    requires i < |t| + |head| && i + |head| > |t|
    ensures !LineAt(t + (head + v), i, head)
  {
    var n, h := |t|, |head|;
    var u := t + (head + v);
    assert forall j | 0 <= j < n :: u[j] == t[j];
    assert forall j | 0 <= j < h :: u[n + j] == head[j];
    assert i < n ==> u[n + (i + h - n)] == head[i + h - n];
    assert i > n ==> u[n + (i - n - 1)] == head[i - n - 1];
  }

  lemma LineAfter(w: string, v: string, head: string, i: nat)
    requires i > |w| && IsHeading(head) && NoHeading(v, false)
    ensures !LineAt(w + v, i, head)
  {
    if LineAt(w + v, i, head) {
      var b := i - |w|;
      assert v[b..b + |head|] == (w + v)[i..i + |head|];
      HeadingStarts(v, b, head);
      assert v[b - 1] == (w + v)[i - 1];
      NoHeadingInside(v, false, b);
      assert false;
    }
  }

  /** Appending a block to a text whose last line is open glues its heading to that line:
      the heading is then no line of the result. */
  lemma GluedHeadIsNoLine(t: string, head: string, notes: string, i: nat)
    requires t != "" && !EndsLine(t) && IsHeading(head) && OneLine(head) && NoHeading(notes, true)
    requires LineAt(t + Block(head, notes), i, head)
    ensures LineAt(t, i, head)
  {
    GluedText(t, head, notes);
    PaddedHasNoHeading(notes);
    if i + |head| <= |t| {
      LineBefore(t, Block(head, notes), head, i);
    } else if i < |t| + |head| {
      Associates(t, head, Padded(notes));
      LineAcross(t, head, Padded(notes), i);
    } else if i == |t| + |head| {
      NewlineStarts(t + head, notes, head);
    } else {
      LineAfter(t + head, Padded(notes), head, i);
    }
  }

  lemma NewlineStarts(w: string, notes: string, head: string)
    requires IsHeading(head)
    ensures !LineAt(w + Padded(notes), |w|, head)
  {
    var u := w + Padded(notes);
    assert u[|w|] == '\n';
    assert |w| + |head| <= |u| ==> u[|w|..|w| + |head|][0] == '\n';
  }

  lemma GluedText(t: string, head: string, notes: string)
    ensures t + Block(head, notes) == t + head + Padded(notes)
  {
    Associates(head, "\n\n", notes);
    Associates(head, "\n\n" + notes, "\n\n");
    Associates(t, head, Padded(notes));
  }

  /** insert_hosted_release after an engine release reads its own notes back if and only if
      that release is not the last section of a text without a final newline. */
  lemma InsertReadsBackExactly(t: string, version: string, date: string, notes: string, engine: string)
    requires OneLine(version) && OneLine(date) && Stripped(notes) && NoHeading(notes, true)
    requires InsertHosted(t, version, date, notes, Some(engine)).Ok?
    ensures HostedNotes(InsertHosted(t, version, date, notes, Some(engine)).value, version, date) == Ok(notes)
      <==> InsertableAfter(t, EngineHead(engine, date))
  {
    if InsertableAfter(t, EngineHead(engine, date)) {
      InsertReadsBack(t, version, date, notes, engine);
    } else {
      HostedHeadIsFit(version, date);
      InsertLost(t, EngineHead(engine, date), HostedHead(version, date), notes);
    }
  }

  lemma InsertLost(t: string, engineHead: string, head: string, notes: string)
    requires IsHeading(head) && OneLine(head) && NoHeading(notes, true)
    requires CountHead(SectionsOf(t), engineHead) > 0 && !InsertableAfter(t, engineHead)
    requires WithHead(SectionsOf(t), head) == []
    ensures WithHead(SectionsOf(InsertAfter(t, engineHead, head, notes)), head) == []
  {
    var x, y := InsertionPoint(t, engineHead);
    var u := InsertAfter(t, engineHead, head, notes);
    assert y == "" && Block(head, notes) + y == Block(head, notes) && x + y == x;
    Associates(Preamble(t), x, Block(head, notes));
    if WithHead(SectionsOf(u), head) != [] {
      var i := HeadIsLineOf(u, head);
      GluedHeadIsNoLine(t, head, notes, i);
      LineIsHeadOf(t, i, head);
    }
  }

  lemma HeadIsLineOf(t: string, head: string) returns (i: nat)
    requires WithHead(SectionsOf(t), head) != []
    ensures LineAt(t, i, head)
  {
    hide WithHead, Sections, LineAt, TakeToHeading, NoHeading;
    var p, a := Preamble(t), AfterPreamble(t);
    NonEmptyBody(t, head);
    PreambleFacts(t);
    var j := HeadIsLine(a, head);
    i := |p| + j;
    if p == "" { assert t == p + a == a; } else { LineShift(p, a, j, head); }
  }

  lemma NonEmptyBody(t: string, head: string)
    requires WithHead(SectionsOf(t), head) != []
    ensures AfterPreamble(t) != ""
  {
  }

  // ----- an engine and a hosted release together -----

  lemma EndOfSecond(a: Section, b: Section, others: seq<Section>)
    requires a.head != b.head
    ensures EndOfHead([a] + [b] + others, b.head) == |a.head| + |a.body| + |b.head| + |b.body|
  {
    assert ([a] + [b] + others)[1..] == [b] + others;
  }

  /** A freshly written release section can always be followed by a hosted one. */
  lemma ReleaseIsInsertable(t: string, head: string, notes: string)
    requires ChangelogParts(t).Ok? && IsHeading(head) && OneLine(head) && NoHeading(notes, true) && head != UNRELEASED
    ensures InsertableAfter(WithRelease(ChangelogParts(t).value, head, notes), head)
  {
    var parts := ChangelogParts(t).value;
    ReleaseSections(t, head, notes);
    PartsFacts(t);
    EndOfSecond(EMPTY_UNRELEASED, Section(head, Padded(notes)), SectionsOf(t)[1..]);
    ReleaseText(t, head, notes);
    ReleaseLength(head, notes, parts.rest);
    if parts.rest == "" {
      SameEnd(Preamble(t), ReleaseBody(head, notes, parts.rest));
    }
  }

  lemma ReleaseLength(head: string, notes: string, rest: string)
    ensures |ReleaseBody(head, notes, rest)| == |UNRELEASED| + 2 + |head| + |Padded(notes)| + |rest|
    ensures rest == "" ==> EndsLine(ReleaseBody(head, notes, rest))
  {
    var b := Block(head, notes);
    assert b[|b| - 1] == '\n';
    SameEnd(UNRELEASED + "\n\n", b);
    assert rest == "" ==> b + rest == b;
  }

  lemma SameEnd(a: string, b: string)
    requires EndsLine(b)
    ensures EndsLine(a + b)
  {
    assert (a + b)[|a + b| - 1] == b[|b| - 1];
  }

  lemma {:induction false} HeadAmongPrefix(ss: seq<Section>, head: string, prefix: string)
    requires prefix <= head
    ensures |WithHead(ss, head)| <= |WithPrefix(ss, prefix)|
  {
    if ss != [] { HeadAmongPrefix(ss[1..], head, prefix); }
  }

  /** generate with both packages: after the hosted section is inserted, the engine's notes
      and the hosted notes both read back, whatever the changelog was. */
  lemma BothReleasesReadBack(t: string, version: string, date: string, fallback: string, hosted: string, pin: string)
    requires IsVersion(version) && OneLine(date) && OneLine(hosted) && Generate(t, version, date, fallback).Ok?
    requires Stripped(fallback) && NoHeading(fallback, true) && !IsHeading(ChangelogParts(t).value.pending)
    requires Stripped(pin) && NoHeading(pin, true)
    requires WithHead(SectionsOf(Generate(t, version, date, fallback).value), HostedHead(hosted, date)) == []
    ensures var after := InsertHosted(Generate(t, version, date, fallback).value, hosted, date, pin, Some(version));
      && after.Ok?
      && ReleasedNotes(after.value, version, date) == Ok(ReleasableNotes(t, fallback))
      && HostedNotes(after.value, hosted, date) == Ok(pin)
  {
    var released := Generate(t, version, date, fallback).value;
    GenerateRoundTrip(t, version, date, fallback);
    ReleasableFacts(t, fallback);
    HeadIsFit(version, date);
    ReleaseIsInsertable(t, EngineHead(version, date), ReleasableNotes(t, fallback));
    EngineHeadOnce(released, version, date, ReleasableNotes(t, fallback));
    InsertReadsBack(released, hosted, date, pin, version);
    InsertKeepsOthers(released, hosted, date, pin, version, version, date);
  }

  lemma EngineHeadOnce(t: string, version: string, date: string, notes: string)
    requires ReleasedNotes(t, version, date) == Ok(notes)
    ensures CountHead(SectionsOf(t), EngineHead(version, date)) == 1
  {
    var ss, head, prefix := SectionsOf(t), EngineHead(version, date), EnginePrefix(version);
    assert head == prefix + date;
    HeadAmongPrefix(ss, head, prefix);
    CountAsWith(ss, head);
    InBoth(ss, head, prefix);
  }

  lemma {:induction false} InBoth(ss: seq<Section>, head: string, prefix: string)
    requires exists s | s in WithPrefix(ss, prefix) :: s.head == head
    ensures WithHead(ss, head) != []
  {
    if ss[0].head != head {
      var s :| s in WithPrefix(ss, prefix) && s.head == head;
      assert s in WithPrefix(ss[1..], prefix);
      InBoth(ss[1..], head, prefix);
    }
  }
}
