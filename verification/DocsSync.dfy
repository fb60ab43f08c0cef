/** scripts/sync_release_docs.py: recording released documentation on main.

    Any number of runs for any releases work at the same time, unrelated commits land on
    main in between, a push only ever moves main forward from the commit it was built on,
    and the response of a push that was applied may be lost. */
module DocsSync {
  import opened Outcomes

  // ----- what main holds -----

  datatype Version = Version(major: nat, minor: nat, patch: nat)

  predicate Newer(a: Version, b: Version)
  {
    || a.major > b.major
    || (a.major == b.major && (a.minor > b.minor || (a.minor == b.minor && a.patch > b.patch)))
  }

  /** The source identity of a tag; version is version_tuple(tag). */
  datatype Identity = Identity(version: Version, tag: string, source: string, tagObject: string)

  /** The contents of the site without its provenance file, and the provenance without the
      build's run and attempt. */
  datatype Site = Site(files: map<string, string>, facts: map<string, string>)

  /** A documentation bundle.  proper: its inventory matches and nothing in it overrides
      Git's storage attributes. */
  datatype Bundle = Bundle(id: Identity, run: nat, attempt: nat, site: Site, proper: bool)

  datatype Selection = Selection(id: Identity, run: nat, attempt: nat)

  /** The text of the index: index_text of an identity, or anything else. */
  datatype Index = Rendered(id: Identity) | Edited(text: string)

  /** The generated paths of one commit. */
  datatype Tree = Tree(snapshot: Option<Bundle>, index: Option<Index>)

  // ----- prepare -----

  /** verify_bundle together with reject_attribute_overrides */
  predicate Verified(b: Bundle, s: Selection)
  {
    b.proper && b.id == s.id && b.run == s.run && 1 <= b.attempt <= s.attempt
  }

  /** stored_selection */
  function Stored(b: Bundle): Selection
  {
    Selection(b.id, b.run, b.attempt)
  }

  datatype Prepared = Prepared(changed: bool, tree: Tree)

  function Prepare(t: Tree, b: Bundle, s: Selection): Result<Prepared>
  {
    if !Verified(b, s) || t.snapshot.Some? != t.index.Some? then Refused
    else if t.snapshot.None? then Ok(Prepared(true, Recorded(b)))
    else
      var previous := t.snapshot.value;
      if !Verified(previous, Stored(previous)) || t.index.value != Rendered(previous.id) then Refused
      else if Newer(previous.id.version, s.id.version) then Refused
      else if previous.id.version == s.id.version then
        if previous.id != s.id || previous.site != b.site then Refused else Ok(Prepared(false, t))
      else Ok(Prepared(true, Recorded(b)))
  }

  /** The order of releases: the first number in which two versions differ decides. */
  lemma NewerIsOrder(a: Version, b: Version)
    ensures a.major > b.major ==> Newer(a, b)
    ensures a.major == b.major && a.minor > b.minor ==> Newer(a, b)
    ensures a.major == b.major && a.minor == b.minor && a.patch > b.patch ==> Newer(a, b)
    ensures !(Newer(a, b) && Newer(b, a)) && (a == b <==> !Newer(a, b) && !Newer(b, a))
  {
  }

  /** The bundle is whole and is the selected one, of this attempt or an earlier one. */
  ghost predicate Chosen(b: Bundle, s: Selection)
  {
    b.proper && s == Selection(b.id, b.run, s.attempt) && 1 <= b.attempt <= s.attempt
  }

  /** A snapshot nobody has touched, with its index. */
  ghost predicate Intact(t: Tree, was: Bundle)
  {
    t == Tree(Some(was), Some(Rendered(was.id))) && was.proper && was.attempt != 0
  }

  /** prepare records a bundle exactly over nothing or over an intact older release, leaves
      exactly the same documentation alone, and refuses everything else. */
  lemma PrepareExactly(t: Tree, b: Bundle, s: Selection)
    ensures Prepare(t, b, s) == Ok(Prepared(true, Tree(Some(b), Some(Rendered(b.id))))) <==>
      Chosen(b, s) && (t == Tree(None, None) || exists was ::
        Intact(t, was) && Newer(b.id.version, was.id.version))
    ensures Prepare(t, b, s) == Ok(Prepared(false, t)) <==>
      Chosen(b, s) && exists was :: Intact(t, was) && was.id == b.id && was.site == b.site
    ensures Prepare(t, b, s).Ok? ==>
      Prepare(t, b, s).value == Prepared(true, Tree(Some(b), Some(Rendered(b.id))))
      || Prepare(t, b, s).value == Prepared(false, t)
  {
    assert Verified(b, s) <==> Chosen(b, s);
    if t.snapshot.Some? {
      var was := t.snapshot.value;
      NewerIsOrder(was.id.version, b.id.version);
      assert Verified(was, Stored(was)) && t.index == Some(Rendered(was.id)) <==> Intact(t, was);
    }
  }

  function Recorded(b: Bundle): Tree
  {
    Tree(Some(b), Some(Rendered(b.id)))
  }

  /** The commit holds this documentation of this release. */
  predicate Records(t: Tree, b: Bundle)
  {
    t.snapshot.Some? && t.snapshot.value.id == b.id && t.snapshot.value.site == b.site
  }

  // ----- the history of main -----

  /** One commit on main: unrelated to the generated paths, or made by some run. */
  predicate Step(t: Tree, u: Tree)
  {
    u == t || (u.snapshot.Some? && Prepare(t, u.snapshot.value, Stored(u.snapshot.value)) == Ok(Prepared(true, u)))
  }

  predicate History(main: seq<Tree>)
  {
    main != [] && forall k | 0 <= k < |main| - 1 :: Step(main[k], main[k + 1])
  }

  lemma PreparedIsStep(t: Tree, b: Bundle, s: Selection)
    requires Prepare(t, b, s).Ok?
    ensures Step(t, Prepare(t, b, s).value.tree)
  {
  }

  /** Once recorded, documentation is never lost: a later commit records the same bundle or
      a strictly newer release. */
  lemma {:induction false} CutoffsIncrease(main: seq<Tree>, i: nat, j: nat)
    requires History(main) && i <= j < |main| && main[i].snapshot.Some?
    ensures main[j].snapshot.Some?
    ensures main[j] == main[i] || Newer(main[j].snapshot.value.id.version, main[i].snapshot.value.id.version)
    decreases j
  {
    if i < j {
      CutoffsIncrease(main, i, j - 1);
      assert Step(main[j - 1], main[j]);
    }
  }

  /** A released version has one source identity, and one documentation, in all of main. */
  lemma IdentityNeverChanges(main: seq<Tree>, i: nat, j: nat)
    requires History(main) && i <= j < |main| && main[i].snapshot.Some? && main[j].snapshot.Some?
    requires main[i].snapshot.value.id.version == main[j].snapshot.value.id.version
    ensures main[i] == main[j]
  {
    CutoffsIncrease(main, i, j);
  }

  /** Once main records a release, every later preparation of the same or an older release
      is settled: the same documentation, of whatever run and attempt, changes nothing as
      long as no newer release is recorded, and everything else is refused. */
  lemma DocumentationIsFinal(main: seq<Tree>, i: nat, j: nat, b: Bundle, c: Bundle, u: Selection)
    requires History(main) && i <= j < |main| && main[i] == Recorded(b) && Verified(b, Stored(b))
    requires Verified(c, u) && !Newer(c.id.version, b.id.version)
    ensures Prepare(main[j], c, u) ==
      if main[j] == main[i] && c.id == b.id && c.site == b.site then Ok(Prepared(false, main[j])) else Refused
  {
    CutoffsIncrease(main, i, j);
  }

  // ----- one run among others -----

  const MAX_ATTEMPTS: nat := 3

  /** Everything outside that one attempt meets: what the requests answer, and which commits
      of other runs and people reach main in between. */
  datatype Attempt = Attempt(
    before: seq<Tree>,      // commits that arrive before the fetch
    fetched: bool,          // the fetch of main
    current: bool,          // the rechecks before the push, or before reporting nothing to do
    meanwhile: seq<Tree>,   // commits that arrive before the push
    accepted: bool,         // whether a push onto the head of main is let through
    acknowledged: bool,     // whether the response of an applied push arrives
    afterwards: seq<Tree>,  // commits that arrive after the push
    allowed: bool,          // the check of main's rules after a push that reported failure
    later: seq<Tree>,       // commits that arrive before main is fetched again
    refetched: bool         // that fetch
  )

  /** ready answers the first recheck of the release and of main's rules. */
  datatype Script = Script(ready: bool, attempts: nat -> Attempt)

  /** Others commit: only a continuation of main can reach it. */
  function Arrive(main: seq<Tree>, more: seq<Tree>): (r: seq<Tree>)
    requires History(main)
    ensures History(r) && main <= r && r != []
  {
    if History(main + more) then main + more else main
  }

  function Head(main: seq<Tree>): Tree
    requires main != []
  {
    main[|main| - 1]
  }

  /** How far a run has come: main, the pushes it tried, where its commits landed, and its
      result once it has one. */
  datatype Progress = Progress(main: seq<Tree>, pushes: nat, landed: seq<nat>, result: Option<Result<bool>>)

  predicate Applied(main: seq<Tree>, a: Attempt)
    requires History(main)
  {
    a.accepted && Arrive(main, a.meanwhile) == main
  }

  /** One attempt of sync. */
  function Try(p: Progress, b: Bundle, s: Selection, a: Attempt, last: bool): (r: Progress)
    requires History(p.main) && p.result.None?
    ensures History(r.main) && p.main <= r.main
  {
    var main := Arrive(p.main, a.before);
    if !a.fetched || Prepare(Head(main), b, s).Refused? then Progress(main, p.pushes, p.landed, Some(Refused))
    else
      var prepared := Prepare(Head(main), b, s).value;
      if !prepared.changed then Progress(main, p.pushes, p.landed, Some(if a.current then Ok(false) else Refused))
      else if !a.current then Progress(main, p.pushes, p.landed, Some(Refused))
      else
        PreparedIsStep(Head(main), b, s);
        var pushed := Pushed(main, prepared.tree, a);
        var landed := if Applied(main, a) then p.landed + [|main|] else p.landed;
        if Applied(main, a) && a.acknowledged then Progress(pushed, p.pushes + 1, landed, Some(Ok(true)))
        else if !a.allowed then Progress(pushed, p.pushes + 1, landed, Some(Refused))
        else
          var now := Arrive(pushed, a.later);
          Progress(now, p.pushes + 1, landed, if !a.refetched || now == main || last then Some(Refused) else None)
  }

  /** A push without force: applied to the commit it was built on or not at all. */
  function Pushed(main: seq<Tree>, tree: Tree, a: Attempt): (r: seq<Tree>)
    requires History(main) && Step(Head(main), tree)
    ensures History(r) && main <= r
  {
    var reached := Arrive(main, a.meanwhile);
    Arrive(if Applied(main, a) then reached + [tree] else reached, a.afterwards)
  }

  /** The run before its attempt k, or at its end. */
  function Before(main: seq<Tree>, b: Bundle, s: Selection, script: Script, k: nat): (p: Progress)
    requires History(main) && k <= MAX_ATTEMPTS
    ensures History(p.main) && main <= p.main
  {
    if k == 0 then Progress(main, 0, [], if script.ready && Verified(b, s) then None else Some(Refused))
    else
      var p := Before(main, b, s, script, k - 1);
      if p.result.Some? then p else Try(p, b, s, script.attempts(k - 1), k == MAX_ATTEMPTS)
  }

  function AtEnd(main: seq<Tree>, b: Bundle, s: Selection, script: Script): Progress
    requires History(main)
  {
    Before(main, b, s, script, MAX_ATTEMPTS)
  }

  /** What holds between the attempts. */
  ghost predicate Sound(start: seq<Tree>, p: Progress, b: Bundle)
  {
    && History(p.main) && start <= p.main && |p.landed| <= 1
    && (p.landed != [] ==> |start| <= p.landed[0] < |p.main| && p.main[p.landed[0]] == Recorded(b))
    && (p.result == Some(Ok(true)) ==> p.landed != [])
    && (p.result.Some? && p.result.value.Ok? ==> exists k | 0 <= k < |p.main| :: Records(p.main[k], b))
  }

  /** After its commit has landed, a run finds it recorded, or a newer release. */
  lemma AfterLanding(start: seq<Tree>, p: Progress, b: Bundle, s: Selection, more: seq<Tree>)
    requires Sound(start, p, b) && p.landed != [] && Verified(b, s)
    ensures var head := Head(Arrive(p.main, more));
      if head == Recorded(b) then Prepare(head, b, s) == Ok(Prepared(false, head)) else Prepare(head, b, s).Refused?
  {
    var main := Arrive(p.main, more);
    CutoffsIncrease(main, p.landed[0], |main| - 1);
  }

  /** One attempt keeps it, and pushes only what has not landed yet. */
  lemma TryKeepsSound(start: seq<Tree>, p: Progress, b: Bundle, s: Selection, a: Attempt, last: bool)
    requires Sound(start, p, b) && p.result.None? && Verified(b, s)
    ensures Sound(start, Try(p, b, s, a, last), b)
    ensures Try(p, b, s, a, last).landed != p.landed ==> p.landed == []
    ensures Try(p, b, s, a, last).pushes <= p.pushes + 1
    ensures last ==> Try(p, b, s, a, last).result.Some?
  {
    hide Prepare, Verified, History, Recorded, Records;
    var main := Arrive(p.main, a.before);
    RecordedIsRecords(b);
    if p.landed != [] {
      AfterLanding(start, p, b, s, a.before);
    }
    if Prepare(Head(main), b, s).Ok? {
      PreparedTree(Head(main), b, s);
      PreparedIsStep(Head(main), b, s);
      if Prepare(Head(main), b, s).value.changed { PushedAt(main, Recorded(b), a); }
    }
  }

  lemma RecordedIsRecords(b: Bundle)
    ensures Records(Recorded(b), b)
  {
  }

  lemma PreparedTree(t: Tree, b: Bundle, s: Selection)
    requires Prepare(t, b, s).Ok?
    ensures var p := Prepare(t, b, s).value; if p.changed then p.tree == Recorded(b) else Records(t, b)
  {
  }

  lemma PushedAt(main: seq<Tree>, tree: Tree, a: Attempt)
    requires History(main) && Step(Head(main), tree)
    ensures Applied(main, a) ==> |main| < |Pushed(main, tree, a)| && Pushed(main, tree, a)[|main|] == tree
  {
    if Applied(main, a) { assert (main + [tree])[|main|] == tree; }
  }

  lemma {:induction false} SoundBefore(main: seq<Tree>, b: Bundle, s: Selection, script: Script, k: nat)
    requires History(main) && k <= MAX_ATTEMPTS
    ensures var p := Before(main, b, s, script, k);
      Sound(main, p, b) && p.pushes <= k && (p.result.None? ==> Verified(b, s))
        && (k == MAX_ATTEMPTS ==> p.result.Some?)
  {
    hide Try, Sound, Verified;
    if k == 0 {
      StartsSound(main, b, if script.ready && Verified(b, s) then None else Some(Refused));
    } else {
      SoundBefore(main, b, s, script, k - 1);
      var p := Before(main, b, s, script, k - 1);
      if p.result.None? { TryKeepsSound(main, p, b, s, script.attempts(k - 1), k == MAX_ATTEMPTS); }
    }
  }

  lemma StartsSound(main: seq<Tree>, b: Bundle, result: Option<Result<bool>>)
    requires History(main) && (result.None? || result.value.Refused?)
    ensures Sound(main, Progress(main, 0, [], result), b)
  {
  }

  /** Every run, among whatever other runs and commits: main only grows by whole steps, at
      most three pushes are tried and at most one commit lands, success means main records
      the documentation, and an answer comes after three attempts at the latest. */
  lemma RunIsSafe(main: seq<Tree>, b: Bundle, s: Selection, script: Script)
    requires History(main)
    ensures var p := AtEnd(main, b, s, script);
      p.result.Some? && p.pushes <= MAX_ATTEMPTS && Sound(main, p, b)
  {
    SoundBefore(main, b, s, script, MAX_ATTEMPTS);
  }

  // ----- which attempts push, and what is answered -----

  /** What attempt k finds on main. */
  function Found(main: seq<Tree>, b: Bundle, s: Selection, script: Script, k: nat): Tree
    requires History(main) && k < MAX_ATTEMPTS
  {
    Head(Arrive(Before(main, b, s, script, k).main, script.attempts(k).before))
  }

  /** The run gets to attempt k: it starts with a chosen bundle and both checks passed, and
      goes on after a push that reported failure although main, allowed to be pushed to and
      fetched again, has moved. */
  ghost predicate Reaches(main: seq<Tree>, b: Bundle, s: Selection, script: Script, k: nat)
    requires History(main) && k <= MAX_ATTEMPTS
    decreases k, 0
  {
    if k == 0 then script.ready && Chosen(b, s)
    else
      var a := script.attempts(k - 1);
      && Pushes(main, b, s, script, k - 1) && k < MAX_ATTEMPTS
      && !Reported(main, b, s, script, k - 1)
      && a.allowed && a.refetched
      && Before(main, b, s, script, k).main != Arrive(Before(main, b, s, script, k - 1).main, a.before)
  }

  /** Attempt k pushes: it fetched main, found something older there, and the release and
      main's rules were checked again. */
  ghost predicate Pushes(main: seq<Tree>, b: Bundle, s: Selection, script: Script, k: nat)
    requires History(main) && k < MAX_ATTEMPTS
    decreases k, 1
  {
    && Reaches(main, b, s, script, k) && script.attempts(k).fetched && script.attempts(k).current
    && (Found(main, b, s, script, k) == Tree(None, None) || exists was ::
          Intact(Found(main, b, s, script, k), was) && Newer(b.id.version, was.id.version))
  }

  /** The push is applied and its response arrives. */
  ghost predicate Reported(main: seq<Tree>, b: Bundle, s: Selection, script: Script, k: nat)
    requires History(main) && k < MAX_ATTEMPTS
  {
    var a := script.attempts(k);
    Applied(Arrive(Before(main, b, s, script, k).main, a.before), a) && a.acknowledged
  }

  /** Attempt k finds the documentation recorded already and passes the recheck. */
  ghost predicate FindsRecorded(main: seq<Tree>, b: Bundle, s: Selection, script: Script, k: nat)
    requires History(main) && k < MAX_ATTEMPTS
  {
    && Reaches(main, b, s, script, k) && script.attempts(k).fetched && script.attempts(k).current
    && exists was :: Intact(Found(main, b, s, script, k), was) && was.id == b.id && was.site == b.site
  }

  /** One attempt, in these terms. */
  lemma {:induction false} AttemptExactly(main: seq<Tree>, b: Bundle, s: Selection, script: Script, k: nat)
    requires History(main) && k < MAX_ATTEMPTS
    ensures Before(main, b, s, script, k).result.None? <==> Reaches(main, b, s, script, k)
    ensures var p, q := Before(main, b, s, script, k), Before(main, b, s, script, k + 1);
      && q.pushes == p.pushes + (if Pushes(main, b, s, script, k) then 1 else 0)
      && (q.result.None? <==> Reaches(main, b, s, script, k + 1))
      && (p.result.None? ==>
           && (q.result == Some(Ok(true)) <==> Pushes(main, b, s, script, k) && Reported(main, b, s, script, k))
           && (q.result == Some(Ok(false)) <==> FindsRecorded(main, b, s, script, k)))
  {
    hide Prepare, Verified, Intact, Newer, Pushed, Applied, Arrive, History, Recorded, Chosen;
    if k == 0 {
      StartExactly(main, b, s, script);
    } else {
      AttemptExactly(main, b, s, script, k - 1);
    }
    PrepareExactly(Found(main, b, s, script, k), b, s);
    NotBoth(Found(main, b, s, script, k), b);
    if Reaches(main, b, s, script, k) { ReachedIsChosen(main, b, s, script, k); }
  }

  lemma StartExactly(main: seq<Tree>, b: Bundle, s: Selection, script: Script)
    requires History(main)
    ensures Before(main, b, s, script, 0).result.None? <==> Reaches(main, b, s, script, 0)
  {
    assert Verified(b, s) <==> Chosen(b, s);
  }

  lemma {:induction false} ReachedIsChosen(main: seq<Tree>, b: Bundle, s: Selection, script: Script, k: nat)
    requires History(main) && k <= MAX_ATTEMPTS && Reaches(main, b, s, script, k)
    ensures Chosen(b, s) && script.ready
  {
    hide Chosen, Arrive, Applied, Before, Intact;
    if k > 0 { ReachedIsChosen(main, b, s, script, k - 1); }
  }

  lemma NotBoth(t: Tree, b: Bundle)
    ensures !(exists was :: Intact(t, was) && was.id == b.id && was.site == b.site)
      || !(t == Tree(None, None) || exists was :: Intact(t, was) && Newer(b.id.version, was.id.version))
  {
    NewerIsOrder(b.id.version, b.id.version);
  }

  /** A run answers true exactly when a push was applied and reported, false exactly when an
      attempt finds the documentation recorded, and pushes exactly in the attempts that were
      fetched, found something older, and were checked again; without the first check and a
      chosen bundle in none. */
  lemma AnswersExactly(main: seq<Tree>, b: Bundle, s: Selection, script: Script)
    requires History(main)
    ensures var p := AtEnd(main, b, s, script);
      && (p.result == Some(Ok(true)) <==>
            exists k | 0 <= k < MAX_ATTEMPTS :: Pushes(main, b, s, script, k) && Reported(main, b, s, script, k))
      && (p.result == Some(Ok(false)) <==> exists k | 0 <= k < MAX_ATTEMPTS :: FindsRecorded(main, b, s, script, k))
      && p.pushes == |Pushing(main, b, s, script, MAX_ATTEMPTS)|
      && (!script.ready || !Chosen(b, s) ==> p == Progress(main, 0, [], Some(Refused)))
  {
    hide Try, Pushes, Reported, FindsRecorded, Reaches, Chosen, Verified;
    SoundBefore(main, b, s, script, MAX_ATTEMPTS);
    PushesCounted(main, b, s, script, MAX_ATTEMPTS);
    forall k | 0 <= k < MAX_ATTEMPTS
      ensures Pushes(main, b, s, script, k) || FindsRecorded(main, b, s, script, k) ==> Reaches(main, b, s, script, k)
    {
      OnlyWhenReached(main, b, s, script, k);
    }
    AnsweredSomewhere(main, b, s, script, MAX_ATTEMPTS);
    forall k | 0 <= k < MAX_ATTEMPTS && Reaches(main, b, s, script, k)
      ensures Pushes(main, b, s, script, k) && Reported(main, b, s, script, k) ==>
        AtEnd(main, b, s, script).result == Some(Ok(true))
      ensures FindsRecorded(main, b, s, script, k) ==> AtEnd(main, b, s, script).result == Some(Ok(false))
    {
      AttemptExactly(main, b, s, script, k);
      if Before(main, b, s, script, k + 1).result.Some? { Settled(main, b, s, script, k + 1); }
    }
    if !script.ready || !Chosen(b, s) { NeverStarts(main, b, s, script); }
  }

  lemma NeverStarts(main: seq<Tree>, b: Bundle, s: Selection, script: Script)
    requires History(main) && (!script.ready || !Chosen(b, s))
    ensures AtEnd(main, b, s, script) == Progress(main, 0, [], Some(Refused))
  {
    StartExactly(main, b, s, script);
    Settled(main, b, s, script, 0);
  }

  lemma OnlyWhenReached(main: seq<Tree>, b: Bundle, s: Selection, script: Script, k: nat)
    requires History(main) && k < MAX_ATTEMPTS
    ensures Pushes(main, b, s, script, k) || FindsRecorded(main, b, s, script, k) ==> Reaches(main, b, s, script, k)
  {
    hide Reaches;
  }

  /** An answer comes from an attempt that gives it. */
  lemma {:induction false} AnsweredSomewhere(main: seq<Tree>, b: Bundle, s: Selection, script: Script, n: nat)
    requires History(main) && n <= MAX_ATTEMPTS
    ensures Before(main, b, s, script, n).result == Some(Ok(true)) ==>
      exists k | 0 <= k < n :: Pushes(main, b, s, script, k) && Reported(main, b, s, script, k)
    ensures Before(main, b, s, script, n).result == Some(Ok(false)) ==>
      exists k | 0 <= k < n :: FindsRecorded(main, b, s, script, k)
  {
    hide Try, Pushes, Reported, FindsRecorded, Reaches, Verified;
    if n > 0 {
      AnsweredSomewhere(main, b, s, script, n - 1);
      AttemptExactly(main, b, s, script, n - 1);
    }
  }

  /** The attempts among the first n that push. */
  ghost function Pushing(main: seq<Tree>, b: Bundle, s: Selection, script: Script, n: nat): set<nat>
    requires History(main) && n <= MAX_ATTEMPTS
  {
    set k: nat | k < n && Pushes(main, b, s, script, k)
  }

  lemma {:induction false} PushesCounted(main: seq<Tree>, b: Bundle, s: Selection, script: Script, n: nat)
    requires History(main) && n <= MAX_ATTEMPTS
    ensures Before(main, b, s, script, n).pushes == |Pushing(main, b, s, script, n)|
  {
    hide Before, Pushes, Pushing, History;
    if n == 0 {
      NonePushed(main, b, s, script);
    } else {
      PushesCounted(main, b, s, script, n - 1);
      OneCounted(main, b, s, script, n - 1);
      OnePushing(main, b, s, script, n - 1);
    }
  }

  lemma OnePushing(main: seq<Tree>, b: Bundle, s: Selection, script: Script, k: nat)
    requires History(main) && k < MAX_ATTEMPTS
    ensures |Pushing(main, b, s, script, k + 1)|
      == |Pushing(main, b, s, script, k)| + if Pushes(main, b, s, script, k) then 1 else 0
  {
    hide Pushes, History;
    var before, all := Pushing(main, b, s, script, k), Pushing(main, b, s, script, k + 1);
    if Pushes(main, b, s, script, k) {
      assert all == before + {k};
    } else {
      assert all == before;
    }
  }

  lemma NonePushed(main: seq<Tree>, b: Bundle, s: Selection, script: Script)
    requires History(main)
    ensures Before(main, b, s, script, 0).pushes == 0 && Pushing(main, b, s, script, 0) == {}
  {
    hide Verified;
  }

  lemma OneCounted(main: seq<Tree>, b: Bundle, s: Selection, script: Script, k: nat)
    requires History(main) && k < MAX_ATTEMPTS
    ensures Before(main, b, s, script, k + 1).pushes
      == Before(main, b, s, script, k).pushes + if Pushes(main, b, s, script, k) then 1 else 0
  {
    hide Before, Pushes, Reaches, Reported, FindsRecorded;
    AttemptExactly(main, b, s, script, k);
  }

  // ----- a refused run whose commit has landed -----

  /** The push of attempt k was applied, and its response was lost. */
  predicate LandsUnheard(main: seq<Tree>, b: Bundle, s: Selection, script: Script, k: nat)
    requires History(main) && k < MAX_ATTEMPTS
  {
    && Before(main, b, s, script, k + 1).landed != Before(main, b, s, script, k).landed
    && !script.attempts(k).acknowledged
  }

  /** Attempt k fetches main, finds exactly this commit recorded, and passes the rechecks. */
  predicate Confirms(main: seq<Tree>, b: Bundle, s: Selection, script: Script, k: nat)
    requires History(main) && k < MAX_ATTEMPTS
  {
    var a := script.attempts(k);
    a.fetched && Head(Arrive(Before(main, b, s, script, k).main, a.before)) == Recorded(b) && a.current
  }

  /** What keeps a run from learning that its push of attempt k was applied. */
  predicate NeverLearns(main: seq<Tree>, b: Bundle, s: Selection, script: Script, k: nat)
    requires History(main) && k < MAX_ATTEMPTS
  {
    var a := script.attempts(k);
    k + 1 == MAX_ATTEMPTS || !a.allowed || !a.refetched || !Confirms(main, b, s, script, k + 1)
  }

  /** An attempt that lands unheard goes on unless it is the last or a check or fetch fails. */
  lemma UnheardGoesOn(p: Progress, b: Bundle, s: Selection, a: Attempt, last: bool)
    requires History(p.main) && p.result.None? && Try(p, b, s, a, last).landed != p.landed
    ensures Try(p, b, s, a, last).result ==
      if a.acknowledged then Some(Ok(true))
      else if !a.allowed || !a.refetched || last then Some(Refused) else None
  {
    var main := Arrive(p.main, a.before);
    PreparedIsStep(Head(main), b, s);
    PushedAt(main, Prepare(Head(main), b, s).value.tree, a);
  }

  /** The attempt after a landing either confirms it or is refused. */
  lemma NextConfirms(start: seq<Tree>, p: Progress, b: Bundle, s: Selection, a: Attempt, last: bool)
    requires Sound(start, p, b) && p.result.None? && p.landed != [] && Verified(b, s)
    ensures var r := Try(p, b, s, a, last);
      && r.landed == p.landed
      && r.result == Some(if a.fetched && Head(Arrive(p.main, a.before)) == Recorded(b)
        && a.current then Ok(false) else Refused)
  {
    hide Prepare, Sound, Verified;
    AfterLanding(start, p, b, s, a.before);
  }

  /** What becomes of a run whose push of attempt k was applied unheard. */
  lemma AfterUnheard(main: seq<Tree>, b: Bundle, s: Selection, script: Script, k: nat)
    requires History(main) && k < MAX_ATTEMPTS && LandsUnheard(main, b, s, script, k)
    ensures var p := AtEnd(main, b, s, script);
      p.landed != [] && p.result == Some(if NeverLearns(main, b, s, script, k) then Refused else Ok(false))
  {
    hide Try, Sound, Verified;
    var p, q := Before(main, b, s, script, k), Before(main, b, s, script, k + 1);
    SoundBefore(main, b, s, script, k);
    SoundBefore(main, b, s, script, k + 1);
    TryKeepsSound(main, p, b, s, script.attempts(k), k + 1 == MAX_ATTEMPTS);
    UnheardGoesOn(p, b, s, script.attempts(k), k + 1 == MAX_ATTEMPTS);
    LandedIsNonempty(main, p, q, b);
    if q.result.None? {
      NextConfirms(main, q, b, s, script.attempts(k + 1), k + 2 == MAX_ATTEMPTS);
      Settled(main, b, s, script, k + 2);
    } else {
      Settled(main, b, s, script, k + 1);
    }
  }

  lemma LandedIsNonempty(start: seq<Tree>, p: Progress, q: Progress, b: Bundle)
    requires p.landed == [] && q.landed != p.landed
    ensures q.landed != []
  {
  }

  /** A run that has its result keeps it. */
  lemma {:induction false} Settled(main: seq<Tree>, b: Bundle, s: Selection, script: Script, k: nat)
    requires History(main) && k <= MAX_ATTEMPTS && Before(main, b, s, script, k).result.Some?
    ensures AtEnd(main, b, s, script) == Before(main, b, s, script, k)
    decreases MAX_ATTEMPTS - k
  {
    hide Try, Verified;
    if k < MAX_ATTEMPTS { Settled(main, b, s, script, k + 1); }
  }

  /** Somewhere the commit landed. */
  lemma {:induction false} LandedSomewhere(main: seq<Tree>, b: Bundle, s: Selection, script: Script, n: nat)
        returns (k: nat)
    requires History(main) && n <= MAX_ATTEMPTS && Before(main, b, s, script, n).landed != []
    ensures k < n && Before(main, b, s, script, k + 1).landed != Before(main, b, s, script, k).landed
  {
    hide Try;
    if Before(main, b, s, script, n - 1).landed != [] {
      k := LandedSomewhere(main, b, s, script, n - 1);
    } else {
      k := n - 1;
    }
  }

  /** A refused run has landed its commit if and only if an applied push lost its response
      and it was the third, or a later check or fetch failed, or the next attempt found a
      newer release recorded instead. */
  lemma RefusedButLanded(main: seq<Tree>, b: Bundle, s: Selection, script: Script)
    requires History(main)
    ensures var p := AtEnd(main, b, s, script);
      (p.result == Some(Refused) && p.landed != []) <==>
        exists k | 0 <= k < MAX_ATTEMPTS :: LandsUnheard(main, b, s, script, k) && NeverLearns(main, b, s, script, k)
  {
    hide Try, Sound, Verified, NeverLearns;
    var p := AtEnd(main, b, s, script);
    if p.result == Some(Refused) && p.landed != [] {
      var k := LandedSomewhere(main, b, s, script, MAX_ATTEMPTS);
      if script.attempts(k).acknowledged {
        UnheardGoesOn(Before(main, b, s, script, k), b, s, script.attempts(k), k + 1 == MAX_ATTEMPTS);
        Settled(main, b, s, script, k + 1);
      } else {
        AfterUnheard(main, b, s, script, k);
      }
    }
    forall k | 0 <= k < MAX_ATTEMPTS && LandsUnheard(main, b, s, script, k) && NeverLearns(main, b, s, script, k)
      ensures p.result == Some(Refused) && p.landed != []
    {
      AfterUnheard(main, b, s, script, k);
    }
  }

  /** Such a run: twice an unrelated commit overtakes the push, the third push is applied,
      and its response is lost. */
  function OvertakenTwice(head: Tree): Script
  {
    Script(true, k => Attempt([], true, true, if k < 2 then [head] else [], true, false, [], true, [], true))
  }

  lemma ThirdResponseLost(main: seq<Tree>, b: Bundle, s: Selection)
    requires History(main) && Verified(b, s) && Prepare(Head(main), b, s) == Ok(Prepared(true, Recorded(b)))
    ensures var p := AtEnd(main, b, s, OvertakenTwice(Head(main)));
      p.result == Some(Refused) && p.pushes == 3 && p.landed == [|main| + 2] && Head(p.main) == Recorded(b)
  {
    hide Prepare, Verified, Recorded, Try, Before;
    var h := Head(main);
    var script := OvertakenTwice(h);
    StartOf(main, b, s, script);
    Overtaken(main, b, s, script.attempts(0), 0, []);
    NextBefore(main, b, s, script, 0);
    Overtaken(main + [h], b, s, script.attempts(1), 1, []);
    NextBefore(main, b, s, script, 1);
    LostAtLast(main + [h] + [h], b, s, script.attempts(2), 2);
    NextBefore(main, b, s, script, 2);
  }

  lemma StartOf(main: seq<Tree>, b: Bundle, s: Selection, script: Script)
    requires History(main) && script.ready && Verified(b, s)
    ensures Before(main, b, s, script, 0) == Progress(main, 0, [], None)
  {
  }

  lemma NextBefore(main: seq<Tree>, b: Bundle, s: Selection, script: Script, k: nat)
    requires History(main) && k < MAX_ATTEMPTS && Before(main, b, s, script, k).result.None?
    ensures Before(main, b, s, script, k + 1)
         == Try(Before(main, b, s, script, k), b, s, script.attempts(k), k + 1 == MAX_ATTEMPTS)
  {
    hide Try, Verified;
  }

  lemma NothingArrives(main: seq<Tree>)
    requires History(main)
    ensures Arrive(main, []) == main
  {
    assert main + [] == main;
  }

  lemma SameArrives(main: seq<Tree>)
    requires History(main)
    ensures History(main + [Head(main)]) && Arrive(main, [Head(main)]) == main + [Head(main)]
      && Head(main + [Head(main)]) == Head(main)
  {
  }

  lemma Overtaken(main: seq<Tree>, b: Bundle, s: Selection, a: Attempt, n: nat, landed: seq<nat>)
    requires History(main) && Prepare(Head(main), b, s) == Ok(Prepared(true, Recorded(b)))
    requires a == Attempt([], true, true, [Head(main)], true, false, [], true, [], true)
    ensures Try(Progress(main, n, landed, None), b, s, a, false) == Progress(main + [Head(main)], n + 1, landed, None)
    ensures History(main + [Head(main)]) && Head(main + [Head(main)]) == Head(main)
  {
    hide Prepare, Recorded, History;
    NothingArrives(main);
    SameArrives(main);
    NothingArrives(main + [Head(main)]);
    PreparedIsStep(Head(main), b, s);
  }

  lemma LostAtLast(main: seq<Tree>, b: Bundle, s: Selection, a: Attempt, n: nat)
    requires History(main) && Prepare(Head(main), b, s) == Ok(Prepared(true, Recorded(b)))
    requires a == Attempt([], true, true, [], true, false, [], true, [], true)
    ensures Try(Progress(main, n, [], None), b, s, a, true)
      == Progress(main + [Recorded(b)], n + 1, [|main|], Some(Refused))
  {
    hide Prepare, Recorded;
    NothingArrives(main);
    PreparedIsStep(Head(main), b, s);
    NothingArrives(main + [Recorded(b)]);
  }

  // ----- the run as it is written -----

  /** One run on the shared main.  Its requests are answered by the script. */
  class Remote {
    /** Every commit of main so far; the last one is its head. */
    var main: seq<Tree>

    /** Pushes of this run: how many were tried, and where the applied ones landed. */
    var pushes: nat
    var landed: seq<nat>

    constructor (main: seq<Tree>)
      requires History(main)
      ensures this.main == main && pushes == 0 && landed == []
    {
      this.main, pushes, landed := main, 0, [];
    }

    /** git fetch: the number of commits stands for the commit itself. */
    method Fetch(arriving: seq<Tree>, answered: bool) returns (base: Option<nat>)
      requires History(main)
      modifies this`main
      ensures main == Arrive(old(main), arriving)
      ensures base == if answered then Some(|main|) else None
    {
      main := Arrive(main, arriving);
      base := if answered then Some(|main|) else None;
    }

    /** git push without force */
    method Push(base: nat, tree: Tree, a: Attempt) returns (ok: bool)
      requires History(main) && base == |main| && Step(Head(main), tree)
      modifies this
      ensures main == Pushed(old(main), tree, a) && pushes == old(pushes) + 1
      ensures landed == if Applied(old(main), a) then old(landed) + [base] else old(landed)
      ensures ok == (Applied(old(main), a) && a.acknowledged)
    {
      main := Arrive(main, a.meanwhile);
      pushes := pushes + 1;
      ok := false;
      if |main| == base && a.accepted {
        assert main == old(main);
        landed := landed + [base];
        main := main + [tree];
        ok := a.acknowledged;
      }
      main := Arrive(main, a.afterwards);
    }

    /** The body of the loop of sync; None goes on with the next attempt. */
    method TryOnce(b: Bundle, s: Selection, a: Attempt, last: bool) returns (r: Option<Result<bool>>)
      requires History(main)
      modifies this
      ensures Progress(main, pushes, landed, r)
        == Try(Progress(old(main), old(pushes), old(landed), None), b, s, a, last)
    {
      hide Prepare, Pushed, Applied, History;
      var base := Fetch(a.before, a.fetched);
      if base.None? { return Some(Refused); }
      var prepared := Prepare(Head(main), b, s);
      if prepared.Refused? { return Some(Refused); }
      if !prepared.value.changed { return Some(if a.current then Ok(false) else Refused); }
      if !a.current { return Some(Refused); }
      PreparedIsStep(Head(main), b, s);
      ghost var fetched := main;
      var pushed := Push(base.value, prepared.value.tree, a);
      if pushed { return Some(Ok(true)); }
      if !a.allowed { return Some(Refused); }
      GrowsOnly(fetched, main, a.later);
      var now := Fetch(a.later, a.refetched);
      r := if now.None? || now.value == base.value || last then Some(Refused) else None;
    }

    /** sync */
    method Sync(b: Bundle, s: Selection, script: Script) returns (r: Result<bool>)
      requires History(main) && pushes == 0 && landed == []
      modifies this
      ensures History(main) && Progress(main, pushes, landed, Some(r)) == AtEnd(old(main), b, s, script)
    {
      hide Verified, Try;
      ghost var start := main;
      r := Refused;
      if !script.ready || !Verified(b, s) {
        Settled(start, b, s, script, 0);
        return;
      }
      var attempt: nat := 0;
      while attempt < MAX_ATTEMPTS
        invariant attempt < MAX_ATTEMPTS && History(main)
        invariant Progress(main, pushes, landed, None) == Before(start, b, s, script, attempt)
      {
        NextBefore(start, b, s, script, attempt);
        SoundBefore(start, b, s, script, attempt + 1);
        var done := TryOnce(b, s, script.attempts(attempt), attempt + 1 == MAX_ATTEMPTS);
        if done.Some? {
          Settled(start, b, s, script, attempt + 1);
          return done.value;
        }
        attempt := attempt + 1;
      }
      // The last attempt has returned, so the final "return False" is never reached.
      assert false;
    }
  }

  /** Counting commits tells whether main has moved. */
  lemma GrowsOnly(before: seq<Tree>, main: seq<Tree>, more: seq<Tree>)
    requires History(main) && before <= main
    ensures |Arrive(main, more)| == |before| <==> Arrive(main, more) == before
  {
  }
}
