/** scripts/prepare_release.py, insert_hosted_release: what becomes of the engine release the
    hosted section is put behind. */
module ChangelogInsert {
  import opened Outcomes
  import opened PythonStrings
  import opened Sequences
  import opened Changelog
  import opened ChangelogMerge

  // ----- stripping a text that was cut or continued -----

  lemma {:induction false} StripLeftThen(c: string, tail: string)
    requires StripLeft(c) != ""
    ensures StripLeft(c + tail) == StripLeft(c) + tail
  {
    hide IsSpace, StripLeft;
    if IsSpace(c[0]) {
      var rest := c[1..];
      assert c == [c[0]] + rest;
      Associates([c[0]], rest, tail);
      StripLeftOne(c[0], rest);
      StripLeftOne(c[0], rest + tail);
      StripLeftThen(rest, tail);
    } else {
      StartsUnstripped(c);
      StartsUnstripped(c + tail);
    }
  }

  lemma {:induction false} StripRightReaches(t: string, k: nat)
    requires k < |t| && !IsSpace(t[k])
    ensures |StripRight(t)| > k
  {
    hide IsSpace;
    if k < |t| - 1 && IsSpace(t[|t| - 1]) {
      assert t[..|t| - 1][k] == t[k];
      StripRightReaches(t[..|t| - 1], k);
    }
  }

  lemma {:induction false} StripLeftReaches(t: string, k: nat)
    requires k < |t| && !IsSpace(t[k])
    ensures |StripLeft(t)| >= |t| - k
  {
    hide IsSpace;
    if k > 0 && IsSpace(t[0]) {
      assert t[1..][k - 1] == t[k];
      StripLeftReaches(t[1..], k - 1);
    }
  }

  /** A text that goes on past some character that is no space strips to a longer text. */
  lemma CutStripsShorter(d: string, n: nat)
    requires n < |d| && !IsSpace(d[n])
    ensures |Strip(d[..n])| < |Strip(d)|
  {
    hide StripLeft, StripRight, IsSpace;
    var c, left := d[..n], StripLeft(d);
    StripLeftReaches(d, n);
    assert left[n - (|d| - |left|)] == d[n];
    StripRightReaches(left, n - (|d| - |left|));
    if StripLeft(c) != "" {
      assert d == c + d[n..];
      StripLeftThen(c, d[n..]);
    } else {
      StripNothing();
    }
  }

  lemma StripNothing()
    ensures StripRight("") == ""
  {
  }

  // ----- the section the insertion follows -----

  /** Where the only candidate ends. */
  lemma {:induction false} EndOfCandidate(ss: seq<Section>, prefix: string, own: Section)
    requires WithPrefix(ss, prefix) != [] && WithPrefix(ss, prefix)[0] == own && prefix <= own.head
    ensures EndOfHead(ss, own.head) == StartOf(ss, prefix) + |own.head| + |own.body|
  {
    if !(prefix <= ss[0].head) { EndOfCandidate(ss[1..], prefix, own); }
  }

  lemma CandidateIn(ss: seq<Section>, a: seq<Section>, own: Section, b: seq<Section>, prefix: string, head: string)
    requires ss == a + ([own] + b) && WithPrefix(a, prefix) == [] && prefix <= own.head
    requires NotesOf(WithPrefix(ss, prefix), head).Ok?
    ensures own.head == head && WithPrefix(ss, prefix) == [own]
    ensures NotesOf(WithPrefix(ss, prefix), head) == Ok(Strip(own.body)) && Strip(own.body) != ""
  {
    hide Strip;
    WithPrefixConcat(a, [own] + b, prefix);
    OneCandidate(own, b, prefix);
    assert ([own] + WithPrefix(b, prefix))[0] == own;
  }

  lemma {:induction false} SomeCandidate(ss: seq<Section>, head: string, prefix: string)
    requires CountHead(ss, head) > 0 && prefix <= head
    ensures WithPrefix(ss, prefix) != []
  {
    if ss[0].head != head { SomeCandidate(ss[1..], head, prefix); }
  }

  lemma HeadAtEnd(t: string, engine: string, date: string) returns (above: string, own: Section)
    requires CountHead(SectionsOf(t), EngineHead(engine, date)) > 0 && !InsertableAfter(t, EngineHead(engine, date))
    requires ReleasedNotes(t, engine, date).Ok?
    ensures (above == "" || EndsLine(above)) && ReadsAsSection(own) && own.head == EngineHead(engine, date)
    ensures t == above + (own.head + own.body) && ReleasedNotes(t, engine, date) == Ok(Strip(own.body))
      && Strip(own.body) != ""
    ensures own.body != "" && !EndsLine(own.body)
  {
    hide Strip, StartOf, EndOfHead, Sections, WithPrefix, EngineHead, EnginePrefix, ReadsAsSection,
         AfterPreamble, CountHead;
    var body, prefix, head := AfterPreamble(t), EnginePrefix(engine), EngineHead(engine, date);
    HeadStartsWithPrefix(engine, date);
    SomeCandidate(Sections(body), head, prefix);
    var x, y;
    x, own, y := CutAt(body, prefix);
    CandidateIn(Sections(body), Sections(x), own, Sections(y), prefix, head);
    EndOfCandidate(Sections(body), prefix, own);
    above := Preamble(t) + x;
    AtEnd(t, Preamble(t), x, own.head + own.body, y);
    PreambleFacts(t);
    if x != "" { LastOf(Preamble(t), x); } else { AddNothing(Preamble(t)); }
    NothingStripped();
    LastOf(above + own.head, own.body);
    Associates(above, own.head, own.body);
  }

  lemma AtEnd(t: string, p: string, x: string, own: string, y: string)
    requires t == p + (x + (own + y)) && |p| + |x| + |own| >= |t|
    ensures y == "" && t == (p + x) + own
  {
    AddNothing(own);
    Associates(p, x, own);
  }

  lemma NothingStripped()
    ensures Strip("") == ""
  {
  }

  // ----- a hosted section glued to it -----

  /** The body that is read once more text follows on the last line. */
  lemma GluedBody(body: string, tail: string)
    requires body != "" && !EndsLine(body) && tail != "" && !IsSpace(tail[0])
    ensures Strip(TakeToHeading(body + tail, false)) != Strip(body)
  {
    hide TakeToHeading, Strip, IsSpace;
    var all := body + tail;
    var read := TakeToHeading(all, false);
    TakeFacts(all, false);
    var n := |read|;
    if n < |body| {
      HeadingIsNoSpace(all[n..]);
      assert body[n] == all[n..][0];
      assert read == body[..n];
      CutStripsShorter(body, n);
    } else {
      assert all[..|body|] == body;
      assert read[|body|] == tail[0] && read[..|body|] == body;
      CutStripsShorter(read, |body|);
    }
  }

  lemma HeadingIsNoSpace(t: string)
    requires StartsSection(t)
    ensures t != "" ==> !IsSpace(t[0])
  {
  }

  lemma BlockStarts(head: string, notes: string)
    requires IsHeading(head)
    ensures Block(head, notes) != "" && !IsSpace(Block(head, notes)[0])
  {
    assert Block(head, notes)[0] == head[0] == '#';
  }

  /** A section whose last line is continued reads with other notes. */
  lemma GluedSection(above: string, own: Section, tail: string, engine: string, date: string)
    requires (above == "" || EndsLine(above)) && ReadsAsSection(own) && own.head == EngineHead(engine, date)
    requires own.body != "" && !EndsLine(own.body) && tail != "" && !IsSpace(tail[0])
    ensures ReleasedNotes(above + (own.head + (own.body + tail)), engine, date) != Ok(Strip(own.body))
  {
    hide Strip, EngineHead, EnginePrefix, TakeToHeading, IsHeading, IsSpace, SectionsOf, WithPrefix, NotesOf;
    var after := above + (own.head + (own.body + tail));
    var first, rest := GluedFirst(own, tail);
    GluedBody(own.body, tail);
    SectionSurvives(above, first, rest);
    HeadStartsWithPrefix(engine, date);
    if ReleasedNotes(after, engine, date) == Ok(Strip(own.body)) {
      OnlyCandidate(SectionsOf(after), first, EnginePrefix(engine), EngineHead(engine, date), Strip(own.body));
    }
  }

  lemma GluedFirst(own: Section, tail: string) returns (first: Section, rest: string)
    requires ReadsAsSection(own) && own.body != ""
    ensures first == Section(own.head, TakeToHeading(own.body + tail, false)) && ReadsAsSection(first)
    ensures StartsSection(rest) && (rest != "" ==> EndsLine(first.body))
    ensures own.head + (own.body + tail) == first.head + first.body + rest
  {
    hide TakeToHeading, Line, IsHeading, NoHeading;
    var u := own.head + (own.body + tail);
    HeadingPrefix(own.head, own.body + tail);
    LineAppend(own.head, own.body + tail);
    assert u[|own.head|..] == own.body + tail;
    first, rest := FirstSection(u), AfterFirst(u);
    FirstFacts(u);
  }

  /** Inserting behind an engine release whose notes were readable leaves them as they were
      if and only if that release is not the last section of a text without a final newline. */
  lemma EngineNotesKeptExactly(t: string, version: string, date: string, notes: string, engine: string)
    requires OneLine(version) && OneLine(date) && NoHeading(notes, true) && IsVersion(engine)
    requires InsertHosted(t, version, date, notes, Some(engine)).Ok? && ReleasedNotes(t, engine, date).Ok?
    ensures ReleasedNotes(InsertHosted(t, version, date, notes, Some(engine)).value, engine, date)
      == ReleasedNotes(t, engine, date)
      <==> InsertableAfter(t, EngineHead(engine, date))
  {
    hide EngineHead, HostedHead, SectionsOf, InsertableAfter, NoHeading, IsVersion, ReleasedNotes, Strip,
         Block, EndOfHead, IsHeading, IsSpace, InsertAfter;
    if InsertableAfter(t, EngineHead(engine, date)) {
      InsertKeepsOthers(t, version, date, notes, engine, engine, date);
    } else {
      var head := HostedHead(version, date);
      var above, own := HeadAtEnd(t, engine, date);
      HostedHeadIsFit(version, date);
      BlockStarts(head, notes);
      InsertedAtEnd(t, EngineHead(engine, date), head, notes);
      Associates(own.head, own.body, Block(head, notes));
      Associates(above, own.head + own.body, Block(head, notes));
      GluedSection(above, own, Block(head, notes), engine, date);
    }
  }

  lemma InsertedAtEnd(t: string, engineHead: string, head: string, notes: string)
    requires CountHead(SectionsOf(t), engineHead) > 0 && !InsertableAfter(t, engineHead)
    ensures InsertAfter(t, engineHead, head, notes) == t + Block(head, notes)
  {
    hide EndOfHead, SectionsOf, Block;
    EndOfHeadFits(t, engineHead);
    AddNothing(t + Block(head, notes));
    assert t[..|t|] == t && t[|t|..] == "";
  }

  // ----- preparing a hosted release alone -----

  /** hosted_pin_note */
  function PinNote(engine: string): string
  {
    "- Pin `review-sensei==" + engine + "`."
  }

  /** The notes of a hosted release: what is pending, with the pin if it is not there yet. */
  function HostedOnlyNotes(pending: string, engine: string): string
  {
    var pin := PinNote(engine);
    if pending == "" then pin else if Find(pending, pin).None? then pending + ("\n" + pin) else pending
  }

  /** The changelog part of render_hosted_only: the notes that are written, and the notes
      that are read again for the receipt. */
  datatype Prepared = Prepared(changelog: string, written: string, read: string)

  function RenderHostedOnly(t: string, hosted: string, date: string, engine: string): Result<Prepared>
  {
    match ChangelogParts(t)
    case Refused => Refused
    case Ok(parts) =>
      var notes := HostedOnlyNotes(parts.pending, engine);
      match InsertHosted(t, hosted, date, notes, None)
      case Refused => Refused
      case Ok(after) =>
        match HostedNotes(after, hosted, date)
        case Refused => Refused
        case Ok(read) => Ok(Prepared(after, notes, read))
  }

  lemma PinIsPlain(engine: string)
    requires OneLine(engine)
    ensures Stripped(PinNote(engine)) && OneLine(PinNote(engine)) && !IsHeading(PinNote(engine))
    ensures NoHeading(PinNote(engine), true)
  {
    var pin := PinNote(engine);
    assert pin[0] == '-' && pin[|pin| - 1] == '.';
    OneLineHasNoHeading(pin);
  }

  lemma LineThen(a: string, b: string)
    requires NoHeading(a, true) && NoHeading(b, true)
    ensures NoHeading(a + ("\n" + b), true)
  {
    hide IsHeading;
    assert ("\n" + b)[1..] == b;
    assert NoHeading("\n" + b, false);
    NoHeadingThen(a, "\n" + b, true);
  }

  /** The notes that are written hold a heading exactly when the pending text begins with
      one, and then they begin with it too. */
  lemma HostedOnlyNotesFacts(t: string, engine: string)
    requires ChangelogParts(t).Ok? && OneLine(engine)
    ensures var pending := ChangelogParts(t).value.pending; var notes := HostedOnlyNotes(pending, engine);
      Stripped(notes) && (NoHeading(notes, true) <==> !IsHeading(pending)) && (IsHeading(pending) ==> IsHeading(notes))
  {
    hide ChangelogParts, IsHeading, NoHeading, Stripped, Find, PinNote;
    var pending, pin := ChangelogParts(t).value.pending, PinNote(engine);
    PinIsPlain(engine);
    if pending != "" {
      PendingIsStripped(t);
      if IsHeading(pending) { HeadingPrefix(pending, "\n" + pin); } else { PendingFacts(t); LineThen(pending, pin); }
      JoinedIsStripped(pending, "\n", pin);
    }
    HeadingsAreHeadings(HostedOnlyNotes(pending, engine));
    HeadingsAreHeadings(pending);
  }

  lemma PinIsIn(pending: string, engine: string)
    ensures Find(HostedOnlyNotes(pending, engine), PinNote(engine)).Some?
  {
    hide Find, PinNote;
    var notes, pin := HostedOnlyNotes(pending, engine), PinNote(engine);
    if pending == "" {
      assert pin[0..0 + |pin|] == pin;
      FindIsFirst(notes, pin, 0);
    } else if Find(pending, pin).None? {
      assert notes[|pending| + 1..|pending| + 1 + |pin|] == pin;
      FindIsFirst(notes, pin, |pending| + 1);
    }
  }

  lemma HeadingsAreHeadings(s: string)
    ensures IsHeading(s) ==> s != "" && !NoHeading(s, true)
  {
  }

  /** A hosted release prepared alone, on any changelog that lacks it: what is written is
      what is read, with nothing pending, if and only if the pending text does not begin with
      a heading once stripped.  Otherwise the preparation is refused. */
  lemma HostedOnlyExactly(t: string, hosted: string, date: string, engine: string)
    requires OneLine(hosted) && OneLine(date) && OneLine(engine)
    requires ChangelogParts(t).Ok? && WithHead(SectionsOf(t), HostedHead(hosted, date)) == []
    ensures var r := RenderHostedOnly(t, hosted, date, engine);
      if IsHeading(ChangelogParts(t).value.pending) then r == Refused
      else
        && r.Ok? && r.value.read == r.value.written && Find(r.value.read, PinNote(engine)).Some?
        && ChangelogParts(r.value.changelog).Ok? && ChangelogParts(r.value.changelog).value.pending == ""
  {
    hide HostedHead, IsHeading, NoHeading, WithHead, SectionsOf, ChangelogParts, WithRelease, Strip, HostedOnlyNotes,
         Find;
    var notes := HostedOnlyNotes(ChangelogParts(t).value.pending, engine);
    HostedOnlyNotesFacts(t, engine);
    PinIsIn(ChangelogParts(t).value.pending, engine);
    HostedOnlyReadsBack(t, hosted, date, notes);
    if IsHeading(ChangelogParts(t).value.pending) {
      HostedHeadIsFit(hosted, date);
      var s := CutCandidate(t, HostedHead(hosted, date), notes);
      OnlyWithHead(SectionsOf(WithRelease(ChangelogParts(t).value, HostedHead(hosted, date), notes)), s);
    }
  }

  /** An indented pending heading: the hosted section is written, and its notes are not
      found again. */
  lemma HostedOnlyLost(version: string, date: string, title: string, notes: string, hosted: string, engine: string)
    requires IsVersion(version) && OneLine(date) && OneLine(hosted) && OneLine(engine)
    requires OneLine(title) && Stripped(title) && IsHeading(title) && Stripped(notes) && NoHeading(notes, true)
    ensures var t := OverPending("  " + title, OneRelease(version, date, notes));
      && ChangelogParts(t).Ok? && ChangelogParts(t).value.pending == title
      && InsertHosted(t, hosted, date, HostedOnlyNotes(title, engine), None).Ok?
      && RenderHostedOnly(t, hosted, date, engine) == Refused
  {
    hide IsVersion, NoHeading, Padded, EngineHead, HostedHead, OneRelease, Strip, OverPending, ChangelogParts,
         SectionsOf, WithHead, Sections, IsHeading, Stripped, HostedOnlyNotes, RenderHostedOnly, Remerge,
         ReleasedNotes;
    var t, rest := OverPending("  " + title, OneRelease(version, date, notes)), OneRelease(version, date, notes);
    Indented(title);
    OneReleaseReads(version, date, notes);
    OverPendingReads("  " + title, rest);
    var own := Section(EngineHead(version, date), Padded(notes));
    HostedHeadsDiffer(version, date, hosted, date);
    FirstHeadIgnored(Section(UNRELEASED, Padded("  " + title)), [own], HostedHead(hosted, date));
    OneSection(own);
    HostedOnlyExactly(t, hosted, date, engine);
  }
}
