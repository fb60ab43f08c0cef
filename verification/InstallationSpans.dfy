/** scripts/release_docs.py: the marked installation spans of one documentation page, and
    the rewriting and validation of the versions inside them.

    A page that installation_spans accepts is a Document: marker-free stretches around one
    marked snippet per target.  Everything else here is stated on that reading. */
module InstallationSpans {
  import opened Outcomes
  import opened PythonStrings
  import opened Sequences
  import opened VersionRewriting

  // ----- markers -----

  datatype Mark = Mark(name: string, opens: bool)

  predicate NameChar(c: char) { 'a' <= c <= 'z' || '0' <= c <= '9' || c == '-' }

  predicate IsName(n: string)
  {
    n != "" && forall i | 0 <= i < |n| :: NameChar(n[i])
  }

  /** The leading name characters. */
  function NameLength(s: string): (n: nat)
    ensures n <= |s|
    ensures forall i | 0 <= i < n :: NameChar(s[i])
  {
    if s == "" || !NameChar(s[0]) then 0 else 1 + NameLength(s[1..])
  }

  predicate Inner(c: char) { c != '<' && c != '.' && c != '=' }

  predicate ProperHead(s: string)
  {
    s != "" && s[0] == '<' && forall i | 0 < i < |s| :: Inner(s[i])
  }

  predicate ProperClosing(s: string)
  {
    |s| > 1 && !NameChar(s[0]) && s[|s| - 1] == '>' && forall i | 0 <= i < |s| :: Inner(s[i])
  }

  type Head = s: string | ProperHead(s) witness "<"

  type Closing = s: string | ProperClosing(s) witness ":>"

  /** The fixed texts of a marker: the head before the name, what ends a start marker and
      what ends an end marker.  They are left open up to what makes markers readable. */
  datatype Texts = Texts(head: Head, start: Closing, end: Closing)

  type Syntax = t: Texts | t.start[1] != t.end[1] witness Texts("<", ":s>", ":e>")

  const HEAD: Head := "<!-- release-installation:"
  const START: Closing := ":start -->"
  const END: Closing := ":end -->"

  /** INSTALLATION_MARKER */
  const INSTALLATION: Syntax := Texts(HEAD, START, END)

  function Close(markup: Syntax, opens: bool): string { if opens then markup.start else markup.end }

  function Text(markup: Syntax, m: Mark): (t: string)
    ensures |t| > 0
  {
    markup.head + (m.name + Close(markup, m.opens))
  }

  /** A match of INSTALLATION_MARKER at the start of the text. */
  function MarkerAt(markup: Syntax, s: string): Option<Mark>
  {
    if !(markup.head <= s) then None
    else
      var t := s[|markup.head|..];
      var n := NameLength(t);
      if n == 0 then None
      else if markup.start <= t[n..] then Some(Mark(t[..n], true))
      else if markup.end <= t[n..] then Some(Mark(t[..n], false))
      else None
  }

  lemma MarkerFacts(markup: Syntax, s: string)
    requires MarkerAt(markup, s).Some?
    ensures IsName(MarkerAt(markup, s).value.name) && Text(markup, MarkerAt(markup, s).value) <= s
  {
    hide MarkerAt, IsName, NameChar;
    var m := MarkerAt(markup, s).value;
    MarkerParts(markup, s);
    var t := s[|markup.head|..];
    PrefixJoin(m.name, Close(markup, m.opens), t);
    PrefixJoin(markup.head, m.name + Close(markup, m.opens), s);
  }

  lemma MarkerParts(markup: Syntax, s: string)
    requires MarkerAt(markup, s).Some?
    ensures var m := MarkerAt(markup, s).value;
      && markup.head <= s && IsName(m.name) && m.name <= s[|markup.head|..]
      && Close(markup, m.opens) <= s[|markup.head|..][|m.name|..]
  {
    hide NameLength, NameChar;
  }

  lemma PrefixJoin(a: string, b: string, s: string)
    requires a <= s && b <= s[|a|..]
    ensures a + b <= s
  {
    assert s == a + s[|a|..];
    assert s[|a|..] == b + s[|a|..][|b|..];
    Associates(a, b, s[|a|..][|b|..]);
  }

  lemma {:induction false} NameThen(n: string, u: string)
    requires forall i | 0 <= i < |n| :: NameChar(n[i])
    requires u == "" || !NameChar(u[0])
    ensures NameLength(n + u) == |n|
  {
    if n == "" {
      assert n + u == u;
    } else {
      assert (n + u)[1..] == n[1..] + u;
      NameThen(n[1..], u);
    }
  }

  lemma PrefixThen(a: string, s: string)
    ensures a <= a + s && (a + s)[|a|..] == s
  {
  }

  lemma CloseThen(markup: Syntax, opens: bool, s: string)
    ensures !NameChar((Close(markup, opens) + s)[0])
    ensures markup.start <= Close(markup, opens) + s <==> opens
    ensures opens || markup.end <= Close(markup, opens) + s
  {
    PrefixThen(Close(markup, opens), s);
    assert (Close(markup, opens) + s)[1] == Close(markup, opens)[1];
  }

  /** A written marker is read back, whatever follows. */
  lemma MarkerReadsBack(markup: Syntax, m: Mark, s: string)
    requires IsName(m.name)
    ensures MarkerAt(markup, Text(markup, m) + s) == Some(m)
  {
    var c := Close(markup, m.opens) + s;
    var t := m.name + c;
    Associates(m.name, Close(markup, m.opens), s);
    Associates(markup.head, m.name + Close(markup, m.opens), s);
    PrefixThen(markup.head, t);
    CloseThen(markup, m.opens, s);
    NameThen(m.name, c);
    PrefixThen(m.name, c);
    assert t[..|m.name|] == m.name;
  }

  /** The pattern matches exactly the two markers of a target. */
  lemma MarkerExactly(s: string, name: string, opens: bool)
    ensures MarkerAt(INSTALLATION, s) == Some(Mark(name, opens)) <==>
      && name != "" && (forall c | c in name :: 'a' <= c <= 'z' || '0' <= c <= '9' || c == '-')
      && "<!-- release-installation:" + (name + if opens then ":start -->" else ":end -->") <= s
  {
    hide MarkerAt;
    var m := Mark(name, opens);
    if MarkerAt(INSTALLATION, s) == Some(m) { MarkerFacts(INSTALLATION, s); }
    if name != "" && (forall c | c in name :: 'a' <= c <= 'z' || '0' <= c <= '9' || c == '-')
      && Text(INSTALLATION, m) <= s
    {
      assert IsName(name) by { assert forall i | 0 <= i < |name| :: name[i] in name; }
      assert s == Text(INSTALLATION, m) + s[|Text(INSTALLATION, m)|..];
      MarkerReadsBack(INSTALLATION, m, s[|Text(INSTALLATION, m)|..]);
    }
  }

  /** Markers begin with the only '<' they hold, and hold neither a dot nor '='. */
  lemma TextShape(markup: Syntax, m: Mark)
    requires IsName(m.name)
    ensures Text(markup, m)[0] == '<' && Text(markup, m)[|Text(markup, m)| - 1] == '>'
    ensures forall i | 0 < i < |Text(markup, m)| :: Inner(Text(markup, m)[i])
  {
    forall i | 0 < i < |Text(markup, m)| ensures Inner(Text(markup, m)[i]) {
      if i < |markup.head| { assert Text(markup, m)[i] == markup.head[i]; }
      else if i < |markup.head| + |m.name| { assert Text(markup, m)[i] == m.name[i - |markup.head|]; }
      else { assert Text(markup, m)[i] == Close(markup, m.opens)[i - |markup.head| - |m.name|]; }
    }
  }

  predicate Starts(b: string) { b == "" || b[0] == '<' }

  lemma Overlap(x: string, a: string, b: string)
    requires x <= a + b && |a| < |x|
    ensures b != "" && x[|a|] == b[0]
  {
    assert (a + b)[|a|] == b[0];
  }

  /** A marker never runs into a '<', so what follows it there changes nothing. */
  lemma MarkerStays(markup: Syntax, a: string, b: string)
    requires a != "" && Starts(b)
    ensures MarkerAt(markup, a + b) == MarkerAt(markup, a)
  {
    hide MarkerAt, IsName;
    if MarkerAt(markup, a + b).Some? {
      var m := MarkerAt(markup, a + b).value;
      MarkerFacts(markup, a + b);
      TextShape(markup, m);
      if |Text(markup, m)| > |a| { Overlap(Text(markup, m), a, b); }
      assert a == Text(markup, m) + a[|Text(markup, m)|..];
      MarkerReadsBack(markup, m, a[|Text(markup, m)|..]);
    } else if MarkerAt(markup, a).Some? {
      var m := MarkerAt(markup, a).value;
      MarkerFacts(markup, a);
      var rest := a[|Text(markup, m)|..];
      assert a == Text(markup, m) + rest;
      Associates(Text(markup, m), rest, b);
      MarkerReadsBack(markup, m, rest + b);
    }
  }

  predicate NoMarker(markup: Syntax, s: string)
  {
    s == "" || (MarkerAt(markup, s).None? && NoMarker(markup, s[1..]))
  }

  // ----- installation_spans -----

  datatype Match = Match(mark: Mark, start: nat, end: nat)

  datatype Span = Span(start: nat, end: nat)

  /** INSTALLATION_MARKER.finditer on the text from an offset on. */
  function Matches(markup: Syntax, s: string, at: nat): seq<Match>
    decreases |s|
  {
    if s == "" then []
    else if MarkerAt(markup, s).None? then Matches(markup, s[1..], at + 1)
    else
      MarkerFacts(markup, s);
      var m := MarkerAt(markup, s).value;
      [Match(m, at, at + |Text(markup, m)|)] + Matches(markup, s[|Text(markup, m)|..], at + |Text(markup, m)|)
  }

  datatype Opening = Opening(name: string, end: nat)

  /** What the loop over the matches answers from a given state on. */
  function Walk(ms: seq<Match>, targets: set<string>, pending: Option<Opening>, seen: set<string>): Option<seq<Span>>
  {
    if ms == [] then
      if pending.Some? || seen != targets then None else Some([])
    else
      var m := ms[0];
      if m.mark.name !in targets then None
      else if m.mark.opens then
        if pending.Some? || m.mark.name in seen then None
        else Walk(ms[1..], targets, Some(Opening(m.mark.name, m.end)), seen + {m.mark.name})
      else if pending.None? || pending.value.name != m.mark.name then None
      else Before([Span(pending.value.end, m.start)], Walk(ms[1..], targets, None, seen))
  }

  function Before(spans: seq<Span>, rest: Option<seq<Span>>): Option<seq<Span>>
  {
    if rest.None? then None else Some(spans + rest.value)
  }

  lemma BeforeTwice(a: seq<Span>, b: seq<Span>, rest: Option<seq<Span>>)
    ensures Before(a, Before(b, rest)) == Before(a + b, rest)
  {
    if rest.Some? { Associates(a, b, rest.value); }
  }

  lemma BeforeNothing(rest: Option<seq<Span>>)
    ensures Before([], rest) == rest
  {
    if rest.Some? { assert [] + rest.value == rest.value; }
  }

  /** installation_spans */
  method SelectSpans(markup: Syntax, content: string, targets: set<string>) returns (r: Option<seq<Span>>)
    ensures r == Walk(Matches(markup, content, 0), targets, None, {})
  {
    var matches := Matches(markup, content, 0);
    var spans: seq<Span> := [];
    var seen: set<string> := {};
    var pending: Option<Opening> := None;
    var i := 0;
    assert matches[0..] == matches;
    BeforeNothing(Walk(matches, targets, None, {}));
    while i < |matches|
      invariant i <= |matches|
      invariant Walk(matches, targets, None, {}) == Before(spans, Walk(matches[i..], targets, pending, seen))
    {
      var m := matches[i];
      var name := m.mark.name;
      assert matches[i..][0] == m && matches[i..][1..] == matches[i + 1..];
      if name !in targets {
        return None;
      }
      if m.mark.opens {
        if pending.Some? || name in seen {
          return None;
        }
        pending := Some(Opening(name, m.end));
        seen := seen + {name};
      } else {
        if pending.None? || pending.value.name != name {
          return None;
        }
        BeforeTwice(spans, [Span(pending.value.end, m.start)], Walk(matches[i + 1..], targets, None, seen));
        spans := spans + [Span(pending.value.end, m.start)];
        pending := None;
      }
      i := i + 1;
    }
    assert matches[i..] == [] && spans + [] == spans;
    if pending.Some? || seen != targets {
      return None;
    }
    return Some(spans);
  }

  // ----- documents -----

  datatype Piece = Piece(before: string, name: string, snippet: string)

  datatype Document = Document(pieces: seq<Piece>, rest: string)

  function Opened(markup: Syntax, name: string): string { Text(markup, Mark(name, true)) }

  function Closed(markup: Syntax, name: string): string { Text(markup, Mark(name, false)) }

  function PieceThen(markup: Syntax, p: Piece, tail: string): string
  {
    p.before + (Opened(markup, p.name) + (p.snippet + (Closed(markup, p.name) + tail)))
  }

  function SpanOf(markup: Syntax, p: Piece, at: nat): Span
  {
    var start := at + |p.before| + |Opened(markup, p.name)|;
    Span(start, start + |p.snippet|)
  }

  function PieceMatches(markup: Syntax, p: Piece, at: nat, rest: seq<Match>): seq<Match>
  {
    var o := SpanOf(markup, p, at);
    [Match(Mark(p.name, true), at + |p.before|, o.start)]
      + ([Match(Mark(p.name, false), o.end, o.end + |Closed(markup, p.name)|)] + rest)
  }

  function Written(markup: Syntax, ps: seq<Piece>, rest: string): string
  {
    if ps == [] then rest
    else PieceThen(markup, ps[0], Written(markup, ps[1..], rest))
  }

  function Offsets(markup: Syntax, ps: seq<Piece>, at: nat): (spans: seq<Span>)
    ensures |spans| == |ps|
  {
    if ps == [] then []
    else
      var o := SpanOf(markup, ps[0], at);
      [o] + Offsets(markup, ps[1..], o.end + |Closed(markup, ps[0].name)|)
  }

  predicate PlainPiece(markup: Syntax, p: Piece)
  {
    IsName(p.name) && NoMarker(markup, p.before) && NoMarker(markup, p.snippet)
  }

  predicate Plain(markup: Syntax, d: Document)
  {
    NoMarker(markup, d.rest) && forall k | 0 <= k < |d.pieces| :: PlainPiece(markup, d.pieces[k])
  }

  /** Every target is marked exactly once, and nothing else is. */
  predicate Covers(ps: seq<Piece>, targets: set<string>, seen: set<string>)
  {
    if ps == [] then seen == targets
    else ps[0].name in targets && ps[0].name !in seen && Covers(ps[1..], targets, seen + {ps[0].name})
  }

  predicate Reads(markup: Syntax, d: Document, content: string, targets: set<string>)
  {
    Plain(markup, d) && Covers(d.pieces, targets, {}) && Written(markup, d.pieces, d.rest) == content
  }

  lemma {:induction false} MatchesNothing(markup: Syntax, p: string, at: nat)
    requires NoMarker(markup, p)
    ensures Matches(markup, p, at) == []
    decreases |p|
  {
    if p != "" { MatchesNothing(markup, p[1..], at + 1); }
  }

  lemma MatchesHead(markup: Syntax, m: Mark, s: string, at: nat)
    requires IsName(m.name)
    ensures Matches(markup, Text(markup, m) + s, at)
      == [Match(m, at, at + |Text(markup, m)|)] + Matches(markup, s, at + |Text(markup, m)|)
  {
    hide Text, MarkerAt;
    MarkerReadsBack(markup, m, s);
    PrefixThen(Text(markup, m), s);
  }

  /** Marker-free text before a marker only shifts the matches. */
  lemma {:induction false} MatchesThrough(markup: Syntax, p: string, b: string, at: nat)
    requires NoMarker(markup, p) && b != "" && Starts(b)
    ensures Matches(markup, p + b, at) == Matches(markup, b, at + |p|)
    decreases |p|
  {
    hide MarkerAt, Text;
    if p == "" {
      assert p + b == b;
    } else {
      MarkerStays(markup, p, b);
      assert (p + b)[1..] == p[1..] + b;
      MatchesThrough(markup, p[1..], b, at + 1);
    }
  }

  lemma MarkedStarts(markup: Syntax, m: Mark, s: string)
    requires IsName(m.name)
    ensures Text(markup, m) + s != "" && Starts(Text(markup, m) + s)
  {
    TextShape(markup, m);
    assert (Text(markup, m) + s)[0] == Text(markup, m)[0];
  }

  lemma MatchesAfter(markup: Syntax, p: string, m: Mark, s: string, at: nat)
    requires NoMarker(markup, p) && IsName(m.name)
    ensures Matches(markup, p + (Text(markup, m) + s), at)
      == [Match(m, at + |p|, at + |p| + |Text(markup, m)|)] + Matches(markup, s, at + |p| + |Text(markup, m)|)
  {
    hide Matches, Text, MarkerAt;
    MarkedStarts(markup, m, s);
    MatchesThrough(markup, p, Text(markup, m) + s, at);
    MatchesHead(markup, m, s, at + |p|);
  }

  lemma MatchesPiece(markup: Syntax, p: Piece, tail: string, at: nat)
    requires PlainPiece(markup, p)
    ensures Matches(markup, PieceThen(markup, p, tail), at)
      == PieceMatches(markup, p, at, Matches(markup, tail, SpanOf(markup, p, at).end + |Closed(markup, p.name)|))
  {
    hide Matches, Text, MarkerAt;
    MatchesAfter(markup, p.before, Mark(p.name, true), p.snippet + (Closed(markup, p.name) + tail), at);
    MatchesAfter(markup, p.snippet, Mark(p.name, false), tail, SpanOf(markup, p, at).start);
  }

  /** A written document is walked to the offsets of its snippets. */
  lemma {:induction false} WalkWritten(markup: Syntax, d: Document, targets: set<string>, seen: set<string>, at: nat)
    requires Plain(markup, d) && Covers(d.pieces, targets, seen)
    ensures Walk(Matches(markup, Written(markup, d.pieces, d.rest), at), targets, None, seen)
      == Some(Offsets(markup, d.pieces, at))
    decreases |d.pieces|
  {
    hide PieceThen, Text, MarkerAt;
    if d.pieces == [] {
      MatchesNothing(markup, d.rest, at);
    } else {
      var p := d.pieces[0];
      assert PlainPiece(markup, p);
      var next := SpanOf(markup, p, at).end + |Closed(markup, p.name)|;
      MatchesPiece(markup, p, Written(markup, d.pieces[1..], d.rest), at);
      WalkWritten(markup, Document(d.pieces[1..], d.rest), targets, seen + {p.name}, next);
      WalkPair(markup, p, at, Matches(markup, Written(markup, d.pieces[1..], d.rest), next), targets, seen);
    }
  }

  lemma WalkPair(markup: Syntax, p: Piece, at: nat, ms: seq<Match>, targets: set<string>, seen: set<string>)
    requires p.name in targets && p.name !in seen
    ensures Walk(PieceMatches(markup, p, at, ms), targets, None, seen)
      == Before([SpanOf(markup, p, at)], Walk(ms, targets, None, seen + {p.name}))
  {
    hide Text;
    var o := SpanOf(markup, p, at);
    var second := [Match(Mark(p.name, false), o.end, o.end + |Closed(markup, p.name)|)] + ms;
    assert second[1..] == ms;
    assert ([Match(Mark(p.name, true), at + |p.before|, o.start)] + second)[1..] == second;
  }

  /** The first marker of a text. */
  lemma {:induction false} FirstMarker(markup: Syntax, s: string, at: nat) returns (p: string, m: Mark, rest: string)
    requires Matches(markup, s, at) != []
    ensures NoMarker(markup, p) && IsName(m.name) && s == p + (Text(markup, m) + rest)
    decreases |s|
  {
    if MarkerAt(markup, s).Some? {
      MarkerFacts(markup, s);
      m := MarkerAt(markup, s).value;
      p, rest := "", s[|Text(markup, m)|..];
    } else {
      var q;
      q, m, rest := FirstMarker(markup, s[1..], at + 1);
      p := [s[0]] + q;
      var b := Text(markup, m) + rest;
      TextShape(markup, m);
      assert p[1..] == q;
      Associates([s[0]], q, b);
      assert s == [s[0]] + s[1..];
      MarkerStays(markup, p, b);
    }
  }

  lemma {:induction false} MatchesNone(markup: Syntax, s: string, at: nat)
    requires Matches(markup, s, at) == []
    ensures NoMarker(markup, s)
    decreases |s|
  {
    if s != "" { MatchesNone(markup, s[1..], at + 1); }
  }

  /** Whatever is walked to the end is a written document. */
  lemma {:induction false} WalkReads(markup: Syntax, s: string, targets: set<string>, seen: set<string>, at: nat)
        returns (d: Document)
    requires Walk(Matches(markup, s, at), targets, None, seen).Some?
    ensures Plain(markup, d) && Covers(d.pieces, targets, seen) && Written(markup, d.pieces, d.rest) == s
    decreases |s|
  {
    hide PieceThen, Text, MarkerAt, Matches;
    if Matches(markup, s, at) == [] {
      MatchesNone(markup, s, at);
      d := Document([], s);
    } else {
      var p, tail := FirstPiece(markup, s, targets, seen, at);
      var next := SpanOf(markup, p, at).end + |Closed(markup, p.name)|;
      MatchesPiece(markup, p, tail, at);
      WalkPair(markup, p, at, Matches(markup, tail, next), targets, seen);
      PieceIsLonger(markup, p, tail);
      var e := WalkReads(markup, tail, targets, seen + {p.name}, next);
      d := Document([p] + e.pieces, e.rest);
      assert d.pieces[1..] == e.pieces;
      forall k | 0 <= k < |d.pieces| ensures PlainPiece(markup, d.pieces[k]) {
        if k > 0 { assert d.pieces[k] == e.pieces[k - 1]; }
      }
    }
  }

  lemma PieceIsLonger(markup: Syntax, p: Piece, tail: string)
    ensures |tail| < |PieceThen(markup, p, tail)|
  {
  }

  /** The first piece of a text that is walked to the end. */
  lemma FirstPiece(markup: Syntax, s: string, targets: set<string>, seen: set<string>, at: nat)
        returns (p: Piece, tail: string)
    requires Matches(markup, s, at) != [] && Walk(Matches(markup, s, at), targets, None, seen).Some?
    ensures PlainPiece(markup, p) && s == PieceThen(markup, p, tail) && p.name in targets && p.name !in seen
  {
    hide Matches, Text, MarkerAt, Walk;
    var before, m, s1 := FirstMarker(markup, s, at);
    MatchesAfter(markup, before, m, s1, at);
    var at1 := at + |before| + |Text(markup, m)|;
    WalkOpens(Match(m, at + |before|, at1), Matches(markup, s1, at1), targets, seen);
    var snippet, e, s2 := FirstMarker(markup, s1, at1);
    MatchesAfter(markup, snippet, e, s2, at1);
    var at2 := at1 + |snippet| + |Text(markup, e)|;
    WalkCloses(Match(e, at1 + |snippet|, at2), Matches(markup, s2, at2), targets, Opening(m.name, at1),
        seen + {m.name});
    p, tail := Piece(before, m.name, snippet), s2;
  }

  lemma WalkOpens(m: Match, ms: seq<Match>, targets: set<string>, seen: set<string>)
    requires Walk([m] + ms, targets, None, seen).Some?
    ensures m.mark.opens && m.mark.name in targets && m.mark.name !in seen && ms != []
    ensures Walk(ms, targets, Some(Opening(m.mark.name, m.end)), seen + {m.mark.name}).Some?
  {
    assert ([m] + ms)[1..] == ms;
  }

  lemma WalkCloses(m: Match, ms: seq<Match>, targets: set<string>, o: Opening, seen: set<string>)
    requires Walk([m] + ms, targets, Some(o), seen).Some?
    ensures !m.mark.opens && m.mark.name == o.name
    ensures Walk(ms, targets, None, seen).Some?
  {
    assert ([m] + ms)[1..] == ms;
  }

  /** installation_spans accepts exactly the pages that mark every target once with
      matching, unnested markers, and answers where the snippets lie. */
  lemma SpansExactly(markup: Syntax, content: string, targets: set<string>)
    ensures Walk(Matches(markup, content, 0), targets, None, {}).Some? <==>
      exists d :: Reads(markup, d, content, targets)
    ensures forall d | Reads(markup, d, content, targets) ::
      Walk(Matches(markup, content, 0), targets, None, {}) == Some(Offsets(markup, d.pieces, 0))
  {
    forall d | Reads(markup, d, content, targets)
      ensures Walk(Matches(markup, content, 0), targets, None, {}) == Some(Offsets(markup, d.pieces, 0))
    {
      WalkWritten(markup, d, targets, {}, 0);
    }
    if Walk(Matches(markup, content, 0), targets, None, {}).Some? {
      var d := WalkReads(markup, content, targets, {}, 0);
      assert Reads(markup, d, content, targets);
    }
  }

  // ----- replacing snippets -----

  function Replaced(ps: seq<Piece>, k: nat, x: string): seq<Piece>
    requires k < |ps|
  {
    ps[k := ps[k].(snippet := x)]
  }

  lemma SliceAround(a: string, b: string, c: string, d: string, e: string, x: string)
    ensures var w := a + (b + (c + (d + e))); var i, j := |a| + |b|, |a| + |b| + |c|;
      && w[i..j] == c && w[..i] + x + w[j..] == a + (b + (x + (d + e)))
  {
    var w := a + (b + (c + (d + e)));
    var i, j := |a| + |b|, |a| + |b| + |c|;
    assert w[..i] == a + b && w[j..] == d + e;
    Associates(a + b, x, d + e);
    Associates(a, b, x + (d + e));
  }

  lemma SliceBehind(a: string, b: string, i: nat, j: nat, x: string)
    requires i <= j <= |b|
    ensures (a + b)[|a| + i..|a| + j] == b[i..j]
    ensures (a + b)[..|a| + i] + x + (a + b)[|a| + j..] == a + (b[..i] + x + b[j..])
  {
    assert (a + b)[..|a| + i] == a + b[..i] && (a + b)[|a| + j..] == b[j..];
    Associates(a, b[..i], x);
    Associates(a, b[..i] + x, b[j..]);
  }

  function First(markup: Syntax, p: Piece): (f: string)
    ensures |f| == SpanOf(markup, p, 0).end + |Closed(markup, p.name)|
  {
    p.before + (Opened(markup, p.name) + (p.snippet + Closed(markup, p.name)))
  }

  lemma WrittenFirst(markup: Syntax, p: Piece, tail: string)
    ensures PieceThen(markup, p, tail) == First(markup, p) + tail
  {
    var o, c := Opened(markup, p.name), Closed(markup, p.name);
    Associates(p.snippet, c, tail);
    Associates(o, p.snippet + c, tail);
    Associates(p.before, o + (p.snippet + c), tail);
  }

  lemma {:induction false} OffsetsShift(markup: Syntax, ps: seq<Piece>, k: nat, at: nat, shift: nat)
    requires k < |ps|
    ensures var o, q := Offsets(markup, ps, at)[k], Offsets(markup, ps, at + shift)[k];
      q.start == o.start + shift && q.end == o.end + shift && o.end == o.start + |ps[k].snippet|
    decreases k
  {
    hide First, Text;
    if k > 0 {
      var next := at + |First(markup, ps[0])|;
      OffsetsShift(markup, ps[1..], k - 1, next, shift);
    }
  }

  /** Cutting out a snippet at its offset and putting another text there. */
  lemma {:induction false} Splice(markup: Syntax, ps: seq<Piece>, rest: string, k: nat, x: string)
    requires k < |ps|
    ensures var w, o := Written(markup, ps, rest), Offsets(markup, ps, 0)[k];
      && o.start <= o.end <= |w| && w[o.start..o.end] == ps[k].snippet
      && w[..o.start] + x + w[o.end..] == Written(markup, Replaced(ps, k, x), rest)
    decreases k
  {
    hide PieceThen, First, Text, SpanOf, Written, Offsets;
    WrittenUnfolds(markup, ps, rest);
    WrittenUnfolds(markup, Replaced(ps, k, x), rest);
    OffsetUnfolds(markup, ps, k);
    if k == 0 {
      assert Replaced(ps, 0, x)[1..] == ps[1..];
      SpliceFirst(markup, ps[0], Written(markup, ps[1..], rest), x);
    } else {
      assert Replaced(ps, k, x)[1..] == Replaced(ps[1..], k - 1, x);
      Splice(markup, ps[1..], rest, k - 1, x);
      var o, first := Offsets(markup, ps[1..], 0)[k - 1], First(markup, ps[0]);
      var below, after := Written(markup, ps[1..], rest), Written(markup, Replaced(ps[1..], k - 1, x), rest);
      WrittenFirst(markup, ps[0], below);
      WrittenFirst(markup, ps[0], after);
      SliceBehind(first, below, o.start, o.end, x);
    }
  }

  lemma WrittenUnfolds(markup: Syntax, ps: seq<Piece>, rest: string)
    requires ps != []
    ensures Written(markup, ps, rest) == PieceThen(markup, ps[0], Written(markup, ps[1..], rest))
  {
  }

  lemma OffsetUnfolds(markup: Syntax, ps: seq<Piece>, k: nat)
    requires k < |ps|
    ensures k == 0 ==> Offsets(markup, ps, 0)[k] == SpanOf(markup, ps[0], 0)
    ensures k > 0 ==>
      var o, q := Offsets(markup, ps[1..], 0)[k - 1], Offsets(markup, ps, 0)[k];
      q.start == |First(markup, ps[0])| + o.start && q.end == |First(markup, ps[0])| + o.end
  {
    hide First, Text;
    if k > 0 { OffsetsShift(markup, ps[1..], k - 1, 0, |First(markup, ps[0])|); }
  }

  lemma SpliceFirst(markup: Syntax, p: Piece, tail: string, x: string)
    ensures var w, o := PieceThen(markup, p, tail), SpanOf(markup, p, 0);
      && o.start <= o.end <= |w| && w[o.start..o.end] == p.snippet
      && w[..o.start] + x + w[o.end..] == PieceThen(markup, p.(snippet := x), tail)
  {
    hide Text;
    SliceAround(p.before, Opened(markup, p.name), p.snippet, Closed(markup, p.name), tail, x);
  }

  /** Replacing a later snippet keeps the earlier offsets. */
  lemma {:induction false} EarlierOffsets(markup: Syntax, ps: seq<Piece>, k: nat, x: string, j: nat, at: nat)
    requires j <= k < |ps|
    ensures Offsets(markup, Replaced(ps, k, x), at)[j].start == Offsets(markup, ps, at)[j].start
    ensures j < k ==> Offsets(markup, Replaced(ps, k, x), at)[j] == Offsets(markup, ps, at)[j]
    decreases j
  {
    hide First, Text;
    if j > 0 {
      assert Replaced(ps, k, x)[1..] == Replaced(ps[1..], k - 1, x);
      EarlierOffsets(markup, ps[1..], k - 1, x, j - 1, at + |First(markup, ps[0])|);
    }
  }

  // ----- rewriting a page -----

  function RewritePieces(ps: seq<Piece>, v: string, letter: char -> bool): (qs: seq<Piece>)
    ensures |qs| == |ps|
    ensures forall k | 0 <= k < |ps| :: qs[k] == ps[k].(snippet := RewriteSnippet(ps[k].snippet, v, letter))
  {
    seq(|ps|, k requires 0 <= k < |ps| => ps[k].(snippet := RewriteSnippet(ps[k].snippet, v, letter)))
  }

  /** The same page with every snippet rewritten; all other text is kept. */
  function Rewritten(d: Document, v: string, letter: char -> bool): Document
  {
    Document(RewritePieces(d.pieces, v, letter), d.rest)
  }

  /** rewrite_installation_versions on one page */
  method RewritePage(markup: Syntax, content: string, targets: set<string>, v: string, letter: char -> bool)
        returns (r: Option<string>)
    ensures r.Some? <==> exists d :: Reads(markup, d, content, targets)
    ensures forall d | Reads(markup, d, content, targets) ::
      r == Some(Written(markup, Rewritten(d, v, letter).pieces, d.rest))
  {
    hide Matches, Walk, PieceThen, Text, RewriteSnippet, Covers, Plain, Offsets, Written;
    SpansExactly(markup, content, targets);
    var spans := SelectSpans(markup, content, targets);
    if spans.None? {
      return None;
    }
    ghost var d: Document :| Reads(markup, d, content, targets);
    assert spans == Some(Offsets(markup, d.pieces, 0));
    ghost var all := RewritePieces(d.pieces, v, letter);
    var text := content;
    var k := |spans.value|;
    assert d.pieces[..k] + all[k..] == d.pieces;
    while k > 0
      invariant 0 <= k <= |spans.value| == |d.pieces| == |all| && spans.value == Offsets(markup, d.pieces, 0)
      invariant text == Written(markup, d.pieces[..k] + all[k..], d.rest)
      invariant forall j | 0 <= j < k :: Offsets(markup, d.pieces[..k] + all[k..], 0)[j] == spans.value[j]
    {
      k := k - 1;
      ghost var now := d.pieces[..k + 1] + all[k + 1..];
      var span := spans.value[k];
      assert now[k] == d.pieces[k];
      Splice(markup, now, d.rest, k, RewriteSnippet(d.pieces[k].snippet, v, letter));
      var snippet := RewriteSnippet(text[span.start..span.end], v, letter);
      assert Replaced(now, k, snippet) == d.pieces[..k] + all[k..];
      forall j | 0 <= j < k ensures Offsets(markup, d.pieces[..k] + all[k..], 0)[j] == spans.value[j] {
        EarlierOffsets(markup, now, k, snippet, j, 0);
      }
      text := text[..span.start] + snippet + text[span.end..];
    }
    assert d.pieces[..0] + all[0..] == all;
    forall e | Reads(markup, e, content, targets)
      ensures text == Written(markup, Rewritten(e, v, letter).pieces, e.rest)
    {
      SameDocument(markup, d, e, content, targets);
    }
    return Some(text);
  }

  /** A page is read in one way only. */
  lemma SameDocument(markup: Syntax, d: Document, e: Document, content: string, targets: set<string>)
    requires Reads(markup, d, content, targets) && Reads(markup, e, content, targets)
    ensures d == e
  {
    SamePieces(markup, d, e);
  }

  lemma {:induction false} SamePieces(markup: Syntax, d: Document, e: Document)
    requires Plain(markup, d) && Plain(markup, e)
      && Written(markup, d.pieces, d.rest) == Written(markup, e.pieces, e.rest)
    ensures d == e
    decreases |d.pieces|
  {
    if d.pieces == [] {
      MatchesNothing(markup, d.rest, 0);
      if e.pieces != [] { WrittenMatches(markup, e); }
    } else {
      WrittenMatches(markup, d);
      if e.pieces == [] { MatchesNothing(markup, e.rest, 0); }
      WrittenMatches(markup, e);
      var p, q := d.pieces[0], e.pieces[0];
      assert Matches(markup, Written(markup, d.pieces, d.rest), 0)[..2]
        == Matches(markup, Written(markup, e.pieces, e.rest), 0)[..2];
      SameCut(p.before, Opened(markup, p.name), p.snippet, Closed(markup, p.name),
          Written(markup, d.pieces[1..], d.rest),
              q.before, q.snippet, Written(markup, e.pieces[1..], e.rest));
      SamePieces(markup, Document(d.pieces[1..], d.rest), Document(e.pieces[1..], e.rest));
      assert d.pieces == [p] + d.pieces[1..] && e.pieces == [q] + e.pieces[1..];
    }
  }

  lemma SameCut(a: string, o: string, s: string, c: string, t: string, a2: string, s2: string, t2: string)
    requires a + (o + (s + (c + t))) == a2 + (o + (s2 + (c + t2)))
    requires |a| == |a2| && |s| == |s2|
    ensures a == a2 && s == s2 && t == t2
  {
    SameHead(a, o + (s + (c + t)), a2, o + (s2 + (c + t2)));
    SameHead(o, s + (c + t), o, s2 + (c + t2));
    SameHead(s, c + t, s2, c + t2);
    SameHead(c, t, c, t2);
  }

  lemma SameHead(a: string, x: string, b: string, y: string)
    requires a + x == b + y && |a| == |b|
    ensures a == b && x == y
  {
    assert (a + x)[..|a|] == a && (b + y)[..|b|] == b;
    assert (a + x)[|a|..] == x && (b + y)[|b|..] == y;
  }

  lemma WrittenMatches(markup: Syntax, d: Document)
    requires Plain(markup, d) && d.pieces != []
    ensures var ms := Matches(markup, Written(markup, d.pieces, d.rest), 0);
      |ms| >= 2 && ms[1].start == SpanOf(markup, d.pieces[0], 0).end
      && ms[0] == Match(Mark(d.pieces[0].name, true), |d.pieces[0].before|, SpanOf(markup, d.pieces[0], 0).start)
  {
    assert PlainPiece(markup, d.pieces[0]);
    MatchesPiece(markup, d.pieces[0], Written(markup, d.pieces[1..], d.rest), 0);
  }

  // ----- rewriting creates no marker -----

  /** Text that holds no dot and no '=', and does not end inside a version. */
  predicate Copyable(t: string)
  {
    t != "" ==> !Numeric(t[|t| - 1]) && forall i | 0 <= i < |t| :: t[i] != '.' && t[i] != '='
  }

  /** Text that starts like a version ends inside it or holds its dot. */
  lemma VersionPrefix(t: string, v: string, y: string)
    requires IsRelease(v) && t <= v + y && t != ""
    ensures Numeric(t[|t| - 1]) || exists i | 0 <= i < |t| :: t[i] == '.'
  {
    VersionFacts(v);
    assert v[..|v|] == v;
    var i :| 0 <= i < |v| && v[i] == '.';
    if |t| <= |v| {
      assert t[|t| - 1] == v[|t| - 1];
    } else {
      assert t[i] == v[i];
    }
  }

  lemma NotFromVersion(t: string, v: string, y: string)
    requires Copyable(t) && IsRelease(v) && t <= v + y
    ensures t == ""
  {
    if t != "" { VersionPrefix(t, v, y); }
  }

  /** Such text at the start of a substituted text was there before. */
  lemma {:induction false} SubCopiesText(a: string -> bool, tail: string, s: string, v: string, t: string)
    requires IsRelease(v) && Copyable(t) && t <= Sub(a, tail, s, v)
    ensures t <= s
    decreases |s|
  {
    hide VersionLength, IsRelease;
    if s != "" && t != "" {
      if VersionLength(s) > 0 && a(tail) {
        NotFromVersion(t, v, Sub(a, "", s[VersionLength(s)..], v));
      } else {
        SubCopiesText(a, Grow(tail, s[0]), s[1..], v, t[1..]);
        assert s == [s[0]] + s[1..] && t == [t[0]] + t[1..];
      }
    }
  }

  lemma EqualsFirst(v: string, y: string)
    ensures "==" + v + y != "" && ("==" + v + y)[0] == '='
  {
  }

  lemma {:induction false} PinCopiesText(tail: string, s: string, v: string, letter: char -> bool, t: string)
    requires IsRelease(v) && Copyable(t) && t <= Pin(tail, s, v, letter)
    ensures t <= s
    decreases |s|
  {
    hide EndsPip, LookOk, VersionLength;
    if t != "" {
      if EndsPip(tail) && LookOk(s, letter) {
        EqualsFirst(v, Pin("", s, v, letter));
      } else if s != "" {
        PinCopiesText(Grow(tail, s[0]), s[1..], v, letter, t[1..]);
        assert s == [s[0]] + s[1..] && t == [t[0]] + t[1..];
      }
    }
  }

  lemma MarkerCopied(markup: Syntax, s: string, w: string)
    requires forall t | Copyable(t) && t <= w :: t <= s
    requires MarkerAt(markup, w).Some?
    ensures MarkerAt(markup, s).Some?
  {
    hide MarkerAt, IsName, Copyable, Text;
    var m := MarkerAt(markup, w).value;
    MarkerFacts(markup, w);
    TextIsCopyable(markup, m);
    var text := Text(markup, m);
    MarkerReadsBack(markup, m, s[|text|..]);
    assert s == text + s[|text|..];
  }

  lemma TextIsCopyable(markup: Syntax, m: Mark)
    requires IsName(m.name)
    ensures Copyable(Text(markup, m))
  {
    hide IsName, Text;
    TextShape(markup, m);
  }

  /** No marker starts within text that holds no '<'. */
  lemma {:induction false} NoMarkerThrough(markup: Syntax, x: string, y: string)
    requires NoMarker(markup, y) && forall i | 0 <= i < |x| :: x[i] != '<'
    ensures NoMarker(markup, x + y)
  {
    if x == "" {
      assert x + y == y;
    } else {
      assert (x + y)[1..] == x[1..] + y;
      NoMarkerThrough(markup, x[1..], y);
      if MarkerAt(markup, x + y).Some? {
        MarkerFacts(markup, x + y);
        TextShape(markup, MarkerAt(markup, x + y).value);
      }
    }
  }

  lemma {:induction false} NoMarkerBehind(markup: Syntax, s: string, n: nat)
    requires NoMarker(markup, s) && n <= |s|
    ensures NoMarker(markup, s[n..])
  {
    if n > 0 {
      NoMarkerBehind(markup, s[1..], n - 1);
      assert s[1..][n - 1..] == s[n..];
    }
  }

  lemma {:induction false} SubAddsNoMarker(markup: Syntax, a: string -> bool, tail: string, s: string, v: string)
    requires IsRelease(v) && NoMarker(markup, s)
    ensures NoMarker(markup, Sub(a, tail, s, v))
    decreases |s|
  {
    if s == "" {
    } else if VersionLength(s) > 0 && a(tail) {
      NoMarkerBehind(markup, s, VersionLength(s));
      SubAddsNoMarker(markup, a, "", s[VersionLength(s)..], v);
      VersionFacts(v);
      assert v[..|v|] == v;
      NoMarkerThrough(markup, v, Sub(a, "", s[VersionLength(s)..], v));
    } else {
      SubAddsNoMarker(markup, a, Grow(tail, s[0]), s[1..], v);
      var w := Sub(a, tail, s, v);
      assert w[1..] == Sub(a, Grow(tail, s[0]), s[1..], v);
      forall t | Copyable(t) && t <= w ensures t <= s { SubCopiesText(a, tail, s, v, t); }
      if MarkerAt(markup, w).Some? { MarkerCopied(markup, s, w); }
    }
  }

  lemma {:induction false} PinAddsNoMarker(markup: Syntax, tail: string, s: string, v: string, letter: char -> bool)
    requires IsRelease(v) && NoMarker(markup, s)
    ensures NoMarker(markup, Pin(tail, s, v, letter))
    decreases |s|, |tail|
  {
    if EndsPip(tail) && LookOk(s, letter) {
      PinAddsNoMarker(markup, "", s, v, letter);
      VersionFacts(v);
      assert v[..|v|] == v;
      NoMarkerThrough(markup, "==" + v, Pin("", s, v, letter));
    } else if s != "" {
      PinAddsNoMarker(markup, Grow(tail, s[0]), s[1..], v, letter);
      var w := Pin(tail, s, v, letter);
      assert w[1..] == Pin(Grow(tail, s[0]), s[1..], v, letter);
      forall t | Copyable(t) && t <= w ensures t <= s { PinCopiesText(tail, s, v, letter, t); }
      if MarkerAt(markup, w).Some? { MarkerCopied(markup, s, w); }
    }
  }

  lemma SnippetStaysPlain(markup: Syntax, s: string, v: string, letter: char -> bool)
    requires IsRelease(v) && NoMarker(markup, s)
    ensures NoMarker(markup, RewriteSnippet(s, v, letter))
  {
    OnePass(s, v, letter);
    PinAddsNoMarker(markup, "", s, v, letter);
    SubAddsNoMarker(markup, AnyPrefix, "", Pin("", s, v, letter), v);
  }

  lemma {:induction false} CoversNames(ps: seq<Piece>, qs: seq<Piece>, targets: set<string>, seen: set<string>)
    requires |ps| == |qs| && forall k | 0 <= k < |ps| :: ps[k].name == qs[k].name
    requires Covers(ps, targets, seen)
    ensures Covers(qs, targets, seen)
  {
    if ps != [] {
      forall k | 0 <= k < |ps[1..]| ensures ps[1..][k].name == qs[1..][k].name {
        assert ps[1..][k] == ps[k + 1] && qs[1..][k] == qs[k + 1];
      }
      CoversNames(ps[1..], qs[1..], targets, seen + {ps[0].name});
    }
  }

  /** A rewritten page is read as the same page with rewritten snippets: the markers and
      all text outside the snippets stay as they were. */
  lemma RewrittenReads(markup: Syntax, d: Document, content: string, targets: set<string>, v: string,
        letter: char -> bool)
    requires Reads(markup, d, content, targets) && IsRelease(v)
    ensures var e := Rewritten(d, v, letter); Reads(markup, e, Written(markup, e.pieces, e.rest), targets)
  {
    var e := Rewritten(d, v, letter);
    forall k | 0 <= k < |e.pieces| ensures PlainPiece(markup, e.pieces[k]) {
      assert PlainPiece(markup, d.pieces[k]);
      SnippetStaysPlain(markup, d.pieces[k].snippet, v, letter);
    }
    CoversNames(d.pieces, e.pieces, targets, {});
  }

  /** Rewriting a page twice is rewriting it once with the last version. */
  lemma PageLastVersionWins(d: Document, u: string, v: string, letter: char -> bool)
    requires IsRelease(u) && IsRelease(v)
    ensures Rewritten(Rewritten(d, u, letter), v, letter) == Rewritten(d, v, letter)
  {
    forall k | 0 <= k < |d.pieces|
      ensures RewriteSnippet(RewriteSnippet(d.pieces[k].snippet, u, letter), v, letter)
        == RewriteSnippet(d.pieces[k].snippet, v, letter)
    {
      LastVersionWins(d.pieces[k].snippet, u, v, letter);
    }
    assert Rewritten(Rewritten(d, u, letter), v, letter).pieces == Rewritten(d, v, letter).pieces;
  }

  // ----- validation -----

  predicate AllValid(ps: seq<Piece>, v: string, letter: char -> bool)
  {
    forall k | 0 <= k < |ps| :: ValidSnippet(ps[k].snippet, v, letter)
  }

  /** validate_installation_versions on one page */
  method ValidatePage(markup: Syntax, content: string, targets: set<string>, v: string, letter: char -> bool)
        returns (ok: bool)
    ensures ok <==> exists d :: Reads(markup, d, content, targets) && AllValid(d.pieces, v, letter)
  {
    hide Matches, Walk, PieceThen, Text, Versions, Unpinned, Covers, Plain, Offsets, Written;
    SpansExactly(markup, content, targets);
    var spans := SelectSpans(markup, content, targets);
    if spans.None? {
      return false;
    }
    ghost var d: Document :| Reads(markup, d, content, targets);
    forall e | Reads(markup, e, content, targets) ensures e == d { SameDocument(markup, e, d, content, targets); }
    var k := 0;
    while k < |spans.value|
      invariant k <= |spans.value| == |d.pieces| && spans.value == Offsets(markup, d.pieces, 0)
      invariant forall j | 0 <= j < k :: ValidSnippet(d.pieces[j].snippet, v, letter)
    {
      Splice(markup, d.pieces, d.rest, k, "");
      var snippet := content[spans.value[k].start..spans.value[k].end];
      if Versions(snippet) == [] || (exists i | 0 <= i < |Versions(snippet)| :: Versions(snippet)[i] != v)
        || Unpinned("", snippet, letter) {
        assert !ValidSnippet(d.pieces[k].snippet, v, letter);
        return false;
      }
      assert ValidSnippet(snippet, v, letter);
      k := k + 1;
    }
    return true;
  }

  /** Validation of a rewritten page fails exactly when some marked snippet held neither a
      version nor a bare pip install. */
  lemma RewrittenPageValidExactly(d: Document, v: string, letter: char -> bool)
    requires IsRelease(v)
    ensures AllValid(Rewritten(d, v, letter).pieces, v, letter)
      <==> forall k | 0 <= k < |d.pieces| ::
        Versions(d.pieces[k].snippet) != [] || Unpinned("", d.pieces[k].snippet, letter)
  {
    forall k | 0 <= k < |d.pieces|
      ensures ValidSnippet(Rewritten(d, v, letter).pieces[k].snippet, v, letter)
        <==> (Versions(d.pieces[k].snippet) != [] || Unpinned("", d.pieces[k].snippet, letter))
    {
      RewrittenIsValidExactly(d.pieces[k].snippet, v, letter);
    }
  }
}
