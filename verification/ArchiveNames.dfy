/** scripts/validate_npm_package.py, validate_release.py and qualify_candidate_artifacts.py:
    which names of archive members are safe to extract, alone and together. */
module ArchiveNames {
  import opened Outcomes
  import opened PythonStrings
  import opened Sequences

  // ----- paths -----

  function Join(parts: seq<string>): string
  {
    if parts == [] then "" else if |parts| == 1 then parts[0] else parts[0] + ['/'] + Join(parts[1..])
  }

  function Segments(s: string): (parts: seq<string>)
    ensures parts != []
  {
    SplitOn(s, '/')
  }

  lemma {:induction false} JoinSegments(s: string)
    ensures Join(Segments(s)) == s
  {
    if s != "" {
      JoinSegments(s[1..]);
      var rest := Segments(s[1..]);
      if s[0] == '/' {
        assert ([""] + rest)[1..] == rest;
        assert "" + ['/'] + Join(rest) == ['/'] + s[1..] == s;
      } else {
        JoinFirst(s[0], rest);
      }
    }
  }

  lemma JoinFirst(c: char, parts: seq<string>)
    requires parts != []
    ensures Join([[c] + parts[0]] + parts[1..]) == [c] + Join(parts)
  {
    var longer := [[c] + parts[0]] + parts[1..];
    assert longer[1..] == parts[1..];
    if |parts| > 1 {
      Associates([c], parts[0], ['/']);
      Associates([c], parts[0] + ['/'], Join(parts[1..]));
    }
  }

  /** A name that can stand between slashes and leads nowhere else. */
  predicate ProperName(part: string)
  {
    part != "" && part != "." && part != ".." && '/' !in part
  }

  ghost predicate ProperNames(parts: seq<string>)
  {
    parts != [] && forall part | part in parts :: ProperName(part)
  }

  lemma {:induction false} SplitHasNoSlash(s: string)
    ensures forall part | part in SplitOn(s, '/') :: '/' !in part
  {
    if s != "" {
      SplitHasNoSlash(s[1..]);
      var rest := SplitOn(s[1..], '/');
      assert forall part | part in rest[1..] :: part in rest;
      if s[0] != '/' { assert rest[0] in rest && SplitOn(s, '/')[0] == [s[0]] + rest[0]; }
    }
  }

  lemma {:induction false} SplitFirst(part: string, rest: string)
    requires '/' !in part
    ensures SplitOn(part + ['/'] + rest, '/') == [part] + SplitOn(rest, '/') && SplitOn(part, '/') == [part]
  {
    if part == "" {
      assert (part + ['/'] + rest)[1..] == rest;
    } else {
      assert (part + ['/'] + rest)[1..] == part[1..] + ['/'] + rest;
      assert forall c | c in part[1..] :: c in part;
      SplitFirst(part[1..], rest);
      assert part == [part[0]] + part[1..];
    }
  }

  lemma {:induction false} SplitJoin(parts: seq<string>)
    requires parts != [] && forall part | part in parts :: '/' !in part
    ensures SplitOn(Join(parts), '/') == parts
  {
    assert parts == [parts[0]] + parts[1..];
    if |parts| > 1 {
      SplitJoin(parts[1..]);
      SplitFirst(parts[0], Join(parts[1..]));
    } else {
      SplitFirst(parts[0], "");
    }
  }

  /** The text is such names joined by slashes. */
  ghost predicate IsPath(s: string)
  {
    exists parts :: ProperNames(parts) && Join(parts) == s
  }

  lemma PathExactly(s: string)
    ensures AllPlain(Segments(s)) <==> IsPath(s)
  {
    hide Join;
    JoinSegments(s);
    SplitHasNoSlash(s);
    if AllPlain(Segments(s)) {
      assert forall i | 0 <= i < |Segments(s)| :: Plain(Segments(s)[i]);
      assert ProperNames(Segments(s));
    }
    if parts :| ProperNames(parts) && Join(parts) == s {
      SplitJoin(parts);
      forall i | 0 <= i < |parts| ensures Plain(parts[i]) { assert parts[i] in parts; }
    }
  }

  predicate Plain(part: string) { part != "" && part != "." && part != ".." }

  predicate AllPlain(parts: seq<string>)
  {
    forall i | 0 <= i < |parts| :: Plain(parts[i])
  }

  /** The components posixpath.normpath keeps, and what one more makes of them. */
  function Kept(parts: seq<string>, stack: seq<string>, rooted: bool): seq<string>
    decreases |parts|
  {
    if parts == [] then stack else Kept(parts[1..], Keep(stack, parts[0], rooted), rooted)
  }

  function Keep(stack: seq<string>, part: string, rooted: bool): seq<string>
  {
    if part == "" || part == "." then stack
    else if part != ".." || (!rooted && stack == []) || (stack != [] && stack[|stack| - 1] == "..") then
      stack + [part]
    else if stack == [] then []
    else stack[..|stack| - 1]
  }

  /** The leading slashes it keeps: one, or exactly two. */
  function Leading(path: string): string
  {
    if path == "" || path[0] != '/' then ""
    else if |path| > 1 && path[1] == '/' && (|path| == 2 || path[2] != '/') then "//" else "/"
  }

  /** posixpath.normpath */
  function NormPath(path: string): string
  {
    var normal := Leading(path) + Join(Kept(Segments(path), [], Leading(path) != ""));
    if path == "" || normal == "" then "." else normal
  }

  lemma {:induction false} KeptPlain(parts: seq<string>, stack: seq<string>, rooted: bool)
    requires AllPlain(parts)
    ensures Kept(parts, stack, rooted) == stack + parts
    decreases |parts|
  {
    if parts == [] {
      assert stack + parts == stack;
    } else {
      assert Plain(parts[0]);
      KeptPlain(parts[1..], stack + [parts[0]], rooted);
      assert stack + [parts[0]] + parts[1..] == stack + parts;
    }
  }

  // ----- safe_archive_member_name -----

  predicate Holds(s: string, c: char)
  {
    exists i | 0 <= i < |s| :: s[i] == c
  }

  function Slashes(n: nat): string
  {
    seq(n, _ => '/')
  }

  predicate EndsSlash(s: string) { s != "" && s[|s| - 1] == '/' }

  function TrimSlash(s: string): string
  {
    if EndsSlash(s) then s[..|s| - 1] else s
  }

  predicate Starts(s: string, c: char) { s != "" && s[0] == c }

  predicate Drive(s: string) { |s| >= 2 && s[1] == ':' }

  /** safe_archive_member_name */
  function SafeName(name: string): Result<string>
  {
    if name == "" || Holds(name, '\\') then Refused
    else
      var candidate := TrimSlash(name);
      if Holds(candidate, '\0') || Starts(candidate, '/') || Starts(candidate, '~') || Drive(candidate) then Refused
      else
        var normal := NormPath(candidate);
        if normal == "" || normal == "." || normal == ".." || normal != candidate then Refused
        else if !AllPlain(Segments(normal)) then Refused
        else Ok(normal)
  }

  /** What makes a name without its trailing slash safe. */
  predicate SafePath(s: string)
  {
    && !Holds(s, '\\') && !Holds(s, '\0') && !Starts(s, '~') && !Drive(s) && AllPlain(Segments(s))
  }

  lemma SegmentsStart(s: string)
    ensures s == "" || s[0] == '/' ==> Segments(s)[0] == ""
  {
  }

  lemma NormPlain(s: string)
    requires AllPlain(Segments(s))
    ensures s != "" && s[0] != '/' && NormPath(s) == s
  {
    SegmentsStart(s);
    assert Plain(Segments(s)[0]);
    KeptPlain(Segments(s), [], false);
    assert [] + Segments(s) == Segments(s);
    JoinSegments(s);
  }

  lemma TrimHolds(name: string, c: char)
    requires c != '/'
    ensures Holds(name, c) <==> Holds(TrimSlash(name), c)
  {
    if Holds(name, c) {
      var i :| 0 <= i < |name| && name[i] == c;
      assert TrimSlash(name)[i] == c;
    }
    if Holds(TrimSlash(name), c) {
      var i :| 0 <= i < |TrimSlash(name)| && TrimSlash(name)[i] == c;
      assert name[i] == c;
    }
  }

  /** A name is accepted exactly when all segments of the name without one trailing slash
      are plain, and it holds no backslash or NUL and starts like no home or drive; the
      answer is that name.  The comparison with normpath decides nothing. */
  lemma SafeNameExactly(name: string)
    ensures SafeName(name).Ok? <==> SafePath(TrimSlash(name))
    ensures SafeName(name).Ok? ==> SafeName(name).value == TrimSlash(name)
  {
    var s := TrimSlash(name);
    TrimHolds(name, '\\');
    if SafePath(s) {
      NormPlain(s);
      if s == "." || s == ".." { DotIsNotPlain(s); }
    }
  }

  lemma DotIsNotPlain(s: string)
    requires s == "." || s == ".."
    ensures !AllPlain(Segments(s))
  {
    NoSlash(s);
    assert !Plain(Segments(s)[0]);
  }

  lemma {:induction false} NoSlash(s: string)
    requires !Holds(s, '/')
    ensures Segments(s) == [s]
  {
    if s != "" {
      assert s[0] != '/';
      forall i | 0 <= i < |s[1..]| ensures s[1..][i] != '/' { assert s[i + 1] != '/'; }
      NoSlash(s[1..]);
      assert [s[0]] + s[1..] == s;
    }
  }

  lemma {:induction false} LastSegment(s: string)
    requires EndsSlash(s)
    ensures Segments(s)[|Segments(s)| - 1] == ""
  {
    if |s| > 1 {
      assert s[1..][|s[1..]| - 1] == s[|s| - 1];
      LastSegment(s[1..]);
      if s[0] != '/' { ManySegments(s[1..]); }
    } else {
      assert s[0] == '/' && s[1..] == "";
      assert Segments(s) == [""] + Segments("");
    }
  }

  lemma {:induction false} ManySegments(s: string)
    requires EndsSlash(s)
    ensures |Segments(s)| > 1
  {
    if s[0] != '/' {
      assert s[1..][|s[1..]| - 1] == s[|s| - 1];
      ManySegments(s[1..]);
    }
  }

  lemma SlashIsNotPlain(s: string)
    requires EndsSlash(s)
    ensures !AllPlain(Segments(s))
  {
    LastSegment(s);
    assert !Plain(Segments(s)[|Segments(s)| - 1]);
  }

  /** What is accepted, and as what: proper names joined by slashes, perhaps with one slash
      more at the end, without a backslash or NUL, that start like no home and no drive. */
  ghost predicate Accepted(name: string, s: string)
  {
    && (name == s || name == s + "/") && IsPath(s)
    && (forall c | c in s :: c != '\\' && c != '\0') && s != "" && s[0] != '~' && !(|s| > 1 && s[1] == ':')
  }

  lemma HoldsIn(s: string, c: char)
    ensures Holds(s, c) <==> c in s
  {
  }

  lemma AcceptedExactly(name: string, s: string)
    ensures SafeName(name) == Ok(s) <==> Accepted(name, s)
  {
    hide IsPath, SafeName, Segments, NormPath;
    SafeNameExactly(name);
    var trimmed := TrimSlash(name);
    HoldsIn(s, '\\');
    HoldsIn(s, '\0');
    PathExactly(s);
    if AllPlain(Segments(s)) { NormPlain(s); }
    if EndsSlash(s) { SlashIsNotPlain(s); }
    if name == s + "/" { assert name[..|name| - 1] == s; }
    if EndsSlash(name) { assert name == trimmed + "/"; }
  }

  /** An accepted name is accepted as it is. */
  lemma SafeNameFixed(name: string)
    requires SafeName(name).Ok?
    ensures SafeName(SafeName(name).value) == SafeName(name)
  {
    SafeNameExactly(name);
    if EndsSlash(TrimSlash(name)) { SlashIsNotPlain(TrimSlash(name)); }
    SafeNameExactly(TrimSlash(name));
  }

  // ----- extraction -----

  /** Where the segments of a path lead from a directory. */
  function Enter(at: seq<string>, parts: seq<string>): seq<string>
    decreases |parts|
  {
    if parts == [] then at
    else if parts[0] == "" || parts[0] == "." then Enter(at, parts[1..])
    else if parts[0] == ".." then Enter(if at == [] then [] else at[..|at| - 1], parts[1..])
    else Enter(at + [parts[0]], parts[1..])
  }

  /** One step: a name leads down, two dots lead up, and everything else nowhere. */
  lemma {:induction false} EnterStep(at: seq<string>, parts: seq<string>, part: string)
    ensures Enter(at, parts + [part]) ==
      var here := Enter(at, parts);
      if part == ".." then (if here == [] then [] else here[..|here| - 1])
      else if part in {"", "."} then here
      else here + [part]
    decreases |parts|
  {
    if parts == [] {
      assert parts + [part] == [part] && [part][1..] == [];
    } else {
      assert (parts + [part])[1..] == parts[1..] + [part];
      var p := parts[0];
      EnterStep(
        if p == "" || p == "." then at
        else if p == ".." then (if at == [] then [] else at[..|at| - 1])
        else at + [p],
        parts[1..], part
      );
    }
  }

  lemma {:induction false} EnterPlain(at: seq<string>, parts: seq<string>)
    requires AllPlain(parts)
    ensures Enter(at, parts) == at + parts
    decreases |parts|
  {
    if parts == [] {
      assert at + parts == at;
    } else {
      assert Plain(parts[0]);
      EnterPlain(at + [parts[0]], parts[1..]);
      assert at + [parts[0]] + parts[1..] == at + parts;
    }
  }

  // what normpath does: the shortest way to the same place

  lemma {:induction false} EnterAll(at: seq<string>, a: seq<string>, b: seq<string>)
    ensures Enter(at, a + b) == Enter(Enter(at, a), b)
    decreases |b|
  {
    if b == [] {
      assert a + b == a;
    } else {
      var n := |b| - 1;
      assert a + b == (a + b[..n]) + [b[n]] && b == b[..n] + [b[n]];
      EnterStep(at, a + b[..n], b[n]);
      EnterStep(Enter(at, a), b[..n], b[n]);
      EnterAll(at, a, b[..n]);
    }
  }

  /** Names, after as many steps up as there are; below the root there are none. */
  ghost predicate Shortest(stack: seq<string>, rooted: bool)
  {
    && (forall i | 0 <= i < |stack| :: stack[i] != "" && stack[i] != "." && (stack[i] == ".." ==> !rooted))
    && (forall i, k | 0 <= i < k < |stack| :: stack[k] == ".." ==> stack[i] == "..")
  }

  /** The components that are kept lead where all of them lead, and none is left out that
      could be. */
  lemma {:induction false} KeptLeads(parts: seq<string>, stack: seq<string>, rooted: bool, at: seq<string>)
    requires Shortest(stack, rooted) && (rooted ==> at == [])
    ensures Shortest(Kept(parts, stack, rooted), rooted)
    ensures Enter(at, Kept(parts, stack, rooted)) == Enter(Enter(at, stack), parts)
    decreases |parts|
  {
    hide Enter, Keep;
    if parts == [] {
      EnterNothing(Enter(at, stack));
    } else {
      var p, next := parts[0], Keep(stack, parts[0], rooted);
      KeepLeads(stack, p, rooted, at);
      KeptLeads(parts[1..], next, rooted, at);
      EnterAll(Enter(at, stack), [p], parts[1..]);
      assert parts == [p] + parts[1..];
    }
  }

  lemma EnterNothing(at: seq<string>)
    ensures Enter(at, []) == at
  {
  }

  lemma KeepShortest(stack: seq<string>, p: string, rooted: bool)
    requires Shortest(stack, rooted)
    ensures Shortest(Keep(stack, p, rooted), rooted)
  {
    var next := Keep(stack, p, rooted);
    forall i | 0 <= i < |next| ensures next[i] != "" && next[i] != "." && (next[i] == ".." ==> !rooted) {
      if i < |stack| { assert next[i] == stack[i]; }
    }
    forall i, k | 0 <= i < k < |next| && next[k] == ".." ensures next[i] == ".." {
      assert next[i] == stack[i];
      if k < |stack| {
        assert next[k] == stack[k];
      } else {
        assert stack[|stack| - 1] == "..";
      }
    }
  }

  lemma KeepLeads(stack: seq<string>, p: string, rooted: bool, at: seq<string>)
    requires Shortest(stack, rooted) && (rooted ==> at == [])
    ensures Shortest(Keep(stack, p, rooted), rooted)
    ensures Enter(at, Keep(stack, p, rooted)) == Enter(Enter(at, stack), [p])
  {
    hide Enter, Shortest;
    KeepShortest(stack, p, rooted);
    EnterOne(Enter(at, stack), p);
    if Keep(stack, p, rooted) == stack + [p] {
      EnterStep(at, stack, p);
    } else if p == ".." && stack != [] {
      LastIsName(stack, rooted);
      EnterPopped(at, stack);
    } else {
      EnterNothing(at);
    }
  }

  /** Leaving the last directory of a way. */
  lemma EnterPopped(at: seq<string>, stack: seq<string>)
    requires stack != [] && stack[|stack| - 1] !in {"", ".", ".."}
    ensures var n := |stack| - 1; Enter(at, stack) == Enter(at, stack[..n]) + [stack[n]]
  {
    hide Enter;
    var n := |stack| - 1;
    assert stack == stack[..n] + [stack[n]];
    EnterStep(at, stack[..n], stack[n]);
  }

  lemma LastIsName(stack: seq<string>, rooted: bool)
    requires Shortest(stack, rooted) && stack != []
    ensures stack[|stack| - 1] != "" && stack[|stack| - 1] != "."
    ensures stack[|stack| - 1] == ".." ==> !rooted
  {
  }

  lemma EnterOne(here: seq<string>, p: string)
    ensures Enter(here, [p]) ==
      if p == ".." then (if here == [] then [] else here[..|here| - 1])
      else if p in {"", "."} then here
      else here + [p]
  {
    hide Enter;
    EnterStep(here, [], p);
    EnterNothing(here);
    assert [] + [p] == [p];
  }

  /** Of the slashes a path begins with, exactly two stay two, and more are one. */
  lemma LeadingExactly(n: nat, rest: string)
    requires rest == "" || rest[0] != '/'
    ensures Leading(Slashes(n) + rest) == if n == 0 then "" else if n == 2 then "//" else "/"
  {
    var path := Slashes(n) + rest;
    assert forall i | 0 <= i < n :: path[i] == '/';
    assert rest != "" ==> path[n] == rest[0];
  }

  /** normpath: those slashes and the shortest way, or a dot for no way at all. */
  lemma NormPathExactly(path: string, at: seq<string>)
    ensures var rooted := Leading(path) != "";
      exists parts :: Shortest(parts, rooted)
        && (rooted ==> Enter([], parts) == Enter([], Segments(path)))
        && (!rooted ==> Enter(at, parts) == Enter(at, Segments(path)))
        && NormPath(path) == if !rooted && parts == [] then "." else Leading(path) + Join(parts)
  {
    var rooted := Leading(path) != "";
    var parts := Kept(Segments(path), [], rooted);
    KeptLeads(Segments(path), [], rooted, if rooted then [] else at);
    JoinNames(parts, rooted);
  }

  lemma JoinNames(parts: seq<string>, rooted: bool)
    requires Shortest(parts, rooted)
    ensures Join(parts) == "" <==> parts == []
  {
    if parts != [] { assert parts[0] != ""; }
  }

  /** Extracted below any root, an accepted name stays strictly below it, at every segment. */
  lemma StaysBelowRoot(name: string, root: seq<string>, k: nat)
    requires SafeName(name).Ok? && 0 < k <= |Segments(SafeName(name).value)|
    ensures var parts := Segments(SafeName(name).value);
      root < Enter(root, parts[..k]) && Enter(root, parts[..k]) == root + parts[..k]
  {
    SafeNameExactly(name);
    EnterPlain(root, Segments(SafeName(name).value)[..k]);
  }

  // ----- _safe_member -----

  function RStripSlash(s: string): string
  {
    if EndsSlash(s) then RStripSlash(s[..|s| - 1]) else s
  }

  predicate Letter(c: char) { 'a' <= c <= 'z' || 'A' <= c <= 'Z' }

  /** _safe_member */
  predicate SafeMember(name: string)
  {
    if name == "" || Holds(name, '\0') || Holds(name, '\\') then false
    else
      var candidate := RStripSlash(name);
      if candidate == "" || Starts(candidate, '/') || (Drive(candidate) && Letter(candidate[0])) then false
      else AllPlain(Segments(candidate))
  }

  /** Both checks agree but for names that look like a home directory, names with a colon
      in second place, and names that end in several slashes. */
  lemma SafeNamesAreSafeMembers(name: string)
    ensures SafeName(name).Ok? <==>
      SafeMember(name) && !EndsSlash(TrimSlash(name)) && !Starts(name, '~') && !Drive(TrimSlash(name))
  {
    var s := TrimSlash(name);
    SafeNameExactly(name);
    TrimHolds(name, '\\');
    TrimHolds(name, '\0');
    if EndsSlash(s) { SlashIsNotPlain(s); }
    if AllPlain(Segments(s)) { NormPlain(s); }
    assert !EndsSlash(s) ==> RStripSlash(name) == s;
  }

  /** _safe_member accepts proper names joined by slashes, however many slashes follow,
      without a backslash or NUL, that start with no drive. */
  lemma SafeMemberExactly(name: string)
    ensures SafeMember(name) <==>
      && (exists s, n: nat :: IsPath(s) && name == s + Slashes(n))
      && (forall c | c in name :: c != '\\' && c != '\0')
      && !(|name| > 1 && name[1] == ':' && ('A' <= name[0] <= 'Z' || 'a' <= name[0] <= 'z'))
  {
    hide IsPath, Segments, NormPath;
    var s := RStripSlash(name);
    HoldsIn(name, '\\');
    HoldsIn(name, '\0');
    PathExactly(s);
    RStripped(name);
    if AllPlain(Segments(s)) { NormPlain(s); }
    if p, n: nat :| IsPath(p) && name == p + Slashes(n) {
      PathExactly(p);
      NormPlain(p);
      if EndsSlash(p) { SlashIsNotPlain(p); }
      RStripThrough(p, n);
    }
  }

  lemma {:induction false} RStripped(name: string)
    ensures exists n: nat :: name == RStripSlash(name) + Slashes(n)
    ensures RStripSlash(name) <= name
    ensures |RStripSlash(name)| <= 1 < |name| ==> name[1] == '/'
  {
    if EndsSlash(name) {
      var shorter := name[..|name| - 1];
      RStripped(shorter);
      var n: nat :| shorter == RStripSlash(name) + Slashes(n);
      assert name == RStripSlash(name) + Slashes(n + 1);
    } else {
      assert name == name + Slashes(0);
    }
  }

  lemma {:induction false} RStripThrough(p: string, n: nat)
    requires !EndsSlash(p)
    ensures RStripSlash(p + Slashes(n)) == p
  {
    if n == 0 {
      assert p + Slashes(0) == p;
    } else {
      var s := p + Slashes(n);
      assert s[..|s| - 1] == p + Slashes(n - 1);
      RStripThrough(p, n - 1);
    }
  }

  // ----- unpack_native: the members of one archive -----

  datatype Member = Member(name: string, file: bool, directory: bool, size: nat)

  const MAX_FILES := 20_000
  const MAX_BYTES := 2 * 1024 * 1024 * 1024
  const ROOT := "review-sensei"

  /** The checks on one member alone. */
  predicate SafeKind(m: Member)
  {
    && SafeName(m.name).Ok? && Segments(SafeName(m.name).value)[0] == ROOT
    && (m.file || m.directory) && (EndsSlash(m.name) ==> m.directory)
  }

  function Name(m: Member): string
  {
    TrimSlash(m.name)
  }

  /** The directories a member lies in, and the member itself. */
  function Prefixes(parts: seq<string>): set<string>
  {
    PrefixesUpto(parts, |parts|)
  }

  function PrefixesUpto(parts: seq<string>, k: nat): set<string>
    requires k <= |parts|
  {
    if k == 0 then {} else PrefixesUpto(parts, k - 1) + {Join(parts[..k])}
  }

  lemma NoPrefixes(parts: seq<string>)
    ensures PrefixesUpto(parts, 0) == {} && PrefixesUpto(parts, |parts|) == Prefixes(parts)
  {
  }

  lemma PrefixAdded(parts: seq<string>, k: nat, seen: set<string>)
    requires k < |parts|
    ensures seen + PrefixesUpto(parts, k) + {Join(parts[..k + 1])} == seen + PrefixesUpto(parts, k + 1)
    ensures Join(parts[..k + 1]) in PrefixesUpto(parts, k + 1)
  {
    hide Join;
  }

  lemma {:induction false} PrefixesGrow(parts: seq<string>, j: nat, k: nat)
    requires j <= k <= |parts|
    ensures PrefixesUpto(parts, j) <= PrefixesUpto(parts, k)
    decreases k
  {
    if j < k { PrefixesGrow(parts, j, k - 1); }
  }

  function AllPrefixes(members: seq<Member>): set<string>
  {
    if members == [] then {}
    else AllPrefixes(members[..|members| - 1]) + Prefixes(Segments(Name(members[|members| - 1])))
  }

  function Names(members: seq<Member>): set<string>
  {
    set i | 0 <= i < |members| :: Name(members[i])
  }

  function Total(members: seq<Member>): nat
  {
    if members == [] then 0 else Total(members[..|members| - 1]) + members[|members| - 1].size
  }

  ghost predicate AllSafe(members: seq<Member>)
  {
    forall i | 0 <= i < |members| :: SafeKind(members[i])
  }

  ghost predicate DistinctNames(members: seq<Member>)
  {
    forall i, j | 0 <= i < j < |members| :: Name(members[i]) != Name(members[j])
  }

  /** No two different paths differ in letter case only. */
  ghost predicate CaseApart(paths: set<string>, fold: string -> string)
  {
    forall p, q | p in paths && q in paths && fold(p) == fold(q) :: p == q
  }

  /** What an accepted archive is. */
  ghost predicate Extractable(members: seq<Member>, insensitive: bool, fold: string -> string)
  {
    && AllSafe(members) && DistinctNames(members) && Total(members) <= MAX_BYTES
    && (insensitive ==> CaseApart(AllPrefixes(members), fold))
  }

  lemma LastMember(members: seq<Member>, m: Member)
    ensures AllSafe(members + [m]) <==> AllSafe(members) && SafeKind(m)
    ensures DistinctNames(members + [m]) <==> DistinctNames(members) && Name(m) !in Names(members)
    ensures Total(members + [m]) == Total(members) + m.size
    ensures AllPrefixes(members + [m]) == AllPrefixes(members) + Prefixes(Segments(Name(m)))
    ensures Names(members + [m]) == Names(members) + {Name(m)}
  {
    hide Name, SafeKind, Prefixes, Segments;
    var all := members + [m];
    assert all[..|all| - 1] == members && all[|members|] == m;
    assert forall i | 0 <= i < |members| :: all[i] == members[i];
    if DistinctNames(all) {
      forall i | 0 <= i < |members| ensures Name(members[i]) != Name(m) { assert Name(all[i]) != Name(all[|members|]); }
      forall i, j | 0 <= i < j < |members|
        ensures Name(members[i]) != Name(members[j])
      {
        assert Name(all[i]) != Name(all[j]);
      }
    }
    if AllSafe(all) {
      forall i | 0 <= i < |members| ensures SafeKind(members[i]) { assert SafeKind(all[i]); }
    }
  }

  lemma {:induction false} BeginningExtractable(members: seq<Member>, n: nat, insensitive: bool, fold: string -> string)
    requires n <= |members| && Extractable(members, insensitive, fold)
    ensures Extractable(members[..n], insensitive, fold)
    decreases |members|
  {
    hide SafeKind, AllSafe, DistinctNames, Total, AllPrefixes, Names, Prefixes, Name, Segments;
    if n == |members| {
      assert members[..n] == members;
    } else {
      var shorter, m := members[..|members| - 1], members[|members| - 1];
      assert members == shorter + [m] && shorter[..n] == members[..n];
      LastMember(shorter, m);
      BeginningExtractable(shorter, n, insensitive, fold);
    }
  }

  /** case_paths: every fold of a path seen is mapped to that path. */
  ghost predicate Folds(paths: map<string, string>, fold: string -> string, seen: set<string>)
  {
    && (forall f | f in paths :: paths[f] in seen && fold(paths[f]) == f)
    && (forall p | p in seen :: fold(p) in paths && paths[fold(p)] == p)
  }

  lemma FoldsOneMore(paths: map<string, string>, fold: string -> string, seen: set<string>, p: string)
    requires Folds(paths, fold, seen) && (fold(p) in paths ==> paths[fold(p)] == p)
    ensures Folds(paths[fold(p) := p], fold, seen + {p})
  {
  }

  lemma FoldsApart(paths: map<string, string>, fold: string -> string, seen: set<string>)
    requires Folds(paths, fold, seen)
    ensures CaseApart(seen, fold)
  {
  }

  lemma Collision(paths: map<string, string>, fold: string -> string, seen: set<string>, p: string, all: set<string>)
    requires Folds(paths, fold, seen) && fold(p) in paths && paths[fold(p)] != p && p in all && seen <= all
    ensures !CaseApart(all, fold)
  {
    assert paths[fold(p)] in all;
  }

  /** The loop over the prefixes of one member. */
  method CheckPrefixes(parts: seq<string>, known: map<string, string>, fold: string -> string, ghost seen: set<string>)
      returns (ok: bool, paths: map<string, string>)
    requires Folds(known, fold, seen)
    ensures ok <==> CaseApart(seen + Prefixes(parts), fold)
    ensures ok ==> Folds(paths, fold, seen + Prefixes(parts))
  {
    hide Folds, CaseApart, Join, PrefixesUpto;
    NoPrefixes(parts);
    paths := known;
    assert seen + {} == seen;
    for k := 0 to |parts|
      invariant Folds(paths, fold, seen + PrefixesUpto(parts, k))
    {
      var prefix := Join(parts[..k + 1]);
      ghost var now := seen + PrefixesUpto(parts, k);
      PrefixAdded(parts, k, seen);
      PrefixesGrow(parts, k, |parts|);
      PrefixesGrow(parts, k + 1, |parts|);
      if fold(prefix) in paths && paths[fold(prefix)] != prefix {
        Collision(paths, fold, now, prefix, seen + Prefixes(parts));
        return false, paths;
      }
      FoldsOneMore(paths, fold, now, prefix);
      paths := paths[fold(prefix) := prefix];
    }
    FoldsApart(paths, fold, seen + Prefixes(parts));
    ok := true;
  }

  // ----- an accepted archive, in terms of its names alone -----

  /** A file or directory at or below review-sensei, a directory if a slash ends its name. */
  ghost predicate ProperMember(m: Member, name: string)
  {
    && Accepted(m.name, name) && (name == "review-sensei" || "review-sensei/" <= name)
    && (m.file || m.directory) && (m.name != name ==> m.directory)
  }

  /** The path is the name or a directory it lies in. */
  predicate Leads(p: string, name: string)
  {
    p == name || p + "/" <= name
  }

  /** Two paths that folding does not tell apart are one. */
  ghost predicate FoldsApartBelow(names: seq<string>, fold: string -> string)
  {
    forall i, k, p, q | 0 <= i < |names| && 0 <= k < |names| && Leads(p, names[i]) && Leads(q, names[k])
      && fold(p) == fold(q) :: p == q
  }

  ghost predicate SafeArchive(members: seq<Member>, insensitive: bool, fold: string -> string, names: seq<string>)
  {
    && |members| <= 40_000 && |names| == |members| && NoRepeats(names) && Total(members) <= 2_147_483_648
    && (forall i | 0 <= i < |members| :: ProperMember(members[i], names[i]))
    && (insensitive ==> FoldsApartBelow(names, fold))
  }

  lemma {:induction false} SplitConcat(p: string, r: string)
    ensures SplitOn(p + "/" + r, '/') == SplitOn(p, '/') + SplitOn(r, '/')
  {
    var s, rest := p + "/" + r, SplitOn(r, '/');
    if p == "" {
      assert s[0] == '/' && s[1..] == r;
    } else {
      assert s[0] == p[0] && s[1..] == p[1..] + "/" + r;
      SplitConcat(p[1..], r);
      var first := SplitOn(p[1..], '/');
      assert (first + rest)[0] == first[0] && (first + rest)[1..] == first[1..] + rest;
      Associates([""], first, rest);
      Associates([[p[0]] + first[0]], first[1..], rest);
    }
  }

  lemma {:induction false} JoinConcat(a: seq<string>, b: seq<string>)
    requires a != [] && b != []
    ensures Join(a + b) == Join(a) + "/" + Join(b)
  {
    if |a| == 1 {
      assert (a + b)[1..] == b;
    } else {
      assert (a + b)[1..] == a[1..] + b;
      JoinConcat(a[1..], b);
      Associates(a[0] + ['/'], Join(a[1..]), "/");
      Associates(a[0] + ['/'], Join(a[1..]) + "/", Join(b));
    }
  }

  lemma {:induction false} PrefixesAre(parts: seq<string>, k: nat, p: string)
    requires k <= |parts|
    ensures p in PrefixesUpto(parts, k) <==> exists j | 0 < j <= k :: p == Join(parts[..j])
  {
    hide Join;
    if k > 0 { PrefixesAre(parts, k - 1, p); }
  }

  lemma PrefixesExactly(s: string, p: string)
    ensures p in Prefixes(Segments(s)) <==> Leads(p, s)
  {
    hide Join, PrefixesUpto;
    var parts := Segments(s);
    JoinSegments(s);
    PrefixesAre(parts, |parts|, p);
    assert parts[..|parts|] == parts;
    if j: nat :| 0 < j <= |parts| && p == Join(parts[..j]) {
      if j < |parts| {
        JoinConcat(parts[..j], parts[j..]);
        assert parts == parts[..j] + parts[j..];
      }
    }
    if p + "/" <= s {
      var r := s[|p| + 1..];
      assert s == p + "/" + r;
      SplitConcat(p, r);
      JoinSegments(p);
      assert parts[..|Segments(p)|] == Segments(p);
    }
  }

  lemma {:induction false} AllPrefixesAre(members: seq<Member>, p: string)
    ensures p in AllPrefixes(members) <==> exists i | 0 <= i < |members| :: Leads(p, Name(members[i]))
  {
    hide Name, Prefixes, Segments, Leads;
    if members != [] {
      var n := |members| - 1;
      AllPrefixesAre(members[..n], p);
      PrefixesExactly(Name(members[n]), p);
      if i: nat :| i < n && Leads(p, Name(members[..n][i])) { assert members[i] == members[..n][i]; }
      if i: nat :| i < |members| && Leads(p, Name(members[i])) {
        if i < n { assert Leads(p, Name(members[..n][i])); }
      }
    }
  }

  lemma MemberExactly(m: Member, name: string)
    ensures ProperMember(m, name) <==> SafeKind(m) && name == Name(m)
  {
    hide IsPath, Join;
    AcceptedExactly(m.name, name);
    SafeNameExactly(m.name);
    RootExactly(name);
    if Accepted(m.name, name) {
      PathExactly(name);
      NormPlain(name);
      if EndsSlash(name) { SlashIsNotPlain(name); }
    }
  }

  lemma RootExactly(name: string)
    ensures Segments(name)[0] == "review-sensei" <==> name == "review-sensei" || "review-sensei/" <= name
  {
    var parts := Segments(name);
    JoinSegments(name);
    if parts[0] == "review-sensei" && |parts| > 1 {
      JoinConcat(parts[..1], parts[1..]);
      assert parts == parts[..1] + parts[1..];
    }
    if "review-sensei/" <= name {
      var r := name[|"review-sensei/"|..];
      assert name == "review-sensei" + "/" + r;
      SplitConcat("review-sensei", r);
      RootAlone();
    }
    RootAlone();
  }

  lemma RootAlone()
    ensures Segments("review-sensei") == ["review-sensei"]
  {
    SplitFirst("review-sensei", "");
  }

  function NamesOf(members: seq<Member>): (names: seq<string>)
    ensures |names| == |members| && forall i | 0 <= i < |names| :: names[i] == Name(members[i])
  {
    seq(|members|, (i: nat) requires i < |members| => Name(members[i]))
  }

  lemma ExtractableExactly(members: seq<Member>, insensitive: bool, fold: string -> string)
    ensures |members| <= 2 * MAX_FILES && Extractable(members, insensitive, fold) <==>
      exists names :: SafeArchive(members, insensitive, fold, names)
  {
    hide Name, SafeKind, ProperMember, AllPrefixes, Leads, FoldsApartBelow, CaseApart, Total;
    var named := NamesOf(members);
    forall i, name | 0 <= i < |members|
      ensures ProperMember(members[i], name) <==> SafeKind(members[i]) && name == Name(members[i])
    {
      MemberExactly(members[i], name);
    }
    CaseExactly(members, fold);
    if names :| SafeArchive(members, insensitive, fold, names) {
      assert names == named;
    }
    if |members| <= 2 * MAX_FILES && Extractable(members, insensitive, fold) {
      assert SafeArchive(members, insensitive, fold, named);
    }
  }

  lemma CaseExactly(members: seq<Member>, fold: string -> string)
    ensures CaseApart(AllPrefixes(members), fold) <==> FoldsApartBelow(NamesOf(members), fold)
  {
    hide Name, AllPrefixes, Leads;
    var names := NamesOf(members);
    forall p ensures p in AllPrefixes(members) <==> exists i | 0 <= i < |members| :: Leads(p, Name(members[i])) {
      AllPrefixesAre(members, p);
    }
    if CaseApart(AllPrefixes(members), fold) {
      forall i, k, p, q | 0 <= i < |names| && 0 <= k < |names| && Leads(p, names[i]) && Leads(q, names[k])
        && fold(p) == fold(q) ensures p == q
      {
        assert p in AllPrefixes(members) && q in AllPrefixes(members);
      }
    }
    if FoldsApartBelow(names, fold) {
      forall p, q | p in AllPrefixes(members) && q in AllPrefixes(members) && fold(p) == fold(q) ensures p == q {
        var i :| 0 <= i < |members| && Leads(p, Name(members[i]));
        var k :| 0 <= k < |members| && Leads(q, Name(members[k]));
        assert Leads(p, names[i]) && Leads(q, names[k]);
      }
    }
  }

  /** The loop over the members.  fold is str.casefold.  An archive is accepted exactly when
      its members are few, safe, of distinct names and small enough together, and, for
      file systems that ignore letter case, folding keeps all their paths apart. */
  method CheckMembers(members: seq<Member>, insensitive: bool, fold: string -> string) returns (ok: bool)
    ensures ok <==> |members| <= 2 * MAX_FILES && Extractable(members, insensitive, fold)
    ensures ok <==> exists names :: SafeArchive(members, insensitive, fold, names)
  {
    ExtractableExactly(members, insensitive, fold);
    hide SafeKind, CaseApart, Folds, AllPrefixes, Names, Prefixes, Name, SafeName, Segments, AllSafe,
         DistinctNames, Total, SafeArchive;
    if |members| > 2 * MAX_FILES { return false; }
    var seen: set<string> := {};
    var paths: map<string, string> := map[];
    var total := 0;
    NoMembers(fold);
    assert members[..0] == [];
    for k := 0 to |members|
      invariant Extractable(members[..k], insensitive, fold)
      invariant seen == Names(members[..k]) && total == Total(members[..k])
      invariant insensitive ==> Folds(paths, fold, AllPrefixes(members[..k]))
    {
      var m := members[k];
      LastMember(members[..k], m);
      assert members[..k + 1] == members[..k] + [m];
      var safe, name := CheckMember(m);
      ok := safe && name !in seen;
      if ok && insensitive {
        ok, paths := CheckPrefixes(Segments(name), paths, fold, AllPrefixes(members[..k]));
      }
      if ok {
        seen := seen + {name};
        total := total + m.size;
        ok := total <= MAX_BYTES;
      }
      if !ok {
        if Extractable(members, insensitive, fold) {
          BeginningExtractable(members, k + 1, insensitive, fold);
          assert false;
        }
        return;
      }
    }
    assert members[..|members|] == members;
    ok := true;
  }

  lemma NoMembers(fold: string -> string)
    ensures Extractable([], true, fold) && Names([]) == {} && Total([]) == 0 && Folds(map[], fold, AllPrefixes([]))
    ensures Extractable([], false, fold)
  {
  }

  /** The checks on one member alone. */
  method CheckMember(m: Member) returns (ok: bool, name: string)
    ensures ok <==> SafeKind(m)
    ensures ok ==> name == Name(m)
  {
    var safe := SafeName(m.name);
    name := "";
    if safe.Refused? { return false, name; }
    SafeNameExactly(m.name);
    name := safe.value;
    ok := Segments(name)[0] == ROOT && (m.file || m.directory) && (EndsSlash(m.name) ==> m.directory);
  }
}
