/** scripts/publish_npm_release.py: publication of one release to the npm registry.

    The registry never changes or withdraws a stored version, but its answers may be late,
    missing or lost, and other publishers may store versions at any time. */
module NpmPublication {
  import opened Outcomes
  import opened Sequences

  datatype Package = DarwinArm64 | DarwinX64 | LinuxArm64 | LinuxX64 | WindowsX64 | Launcher

  const PLATFORMS := [DarwinArm64, DarwinX64, LinuxArm64, LinuxX64, WindowsX64]
  const ALL := PLATFORMS + [Launcher]

  function Index(p: Package): (i: nat)
    ensures i < |ALL| && ALL[i] == p
  {
    match p
    case DarwinArm64 => 0
    case DarwinX64 => 1
    case LinuxArm64 => 2
    case LinuxX64 => 3
    case WindowsX64 => 4
    case Launcher => 5
  }

  // ----- what the registry answers -----

  /** A version document: its name and version fields, and the integrity if it has a dist. */
  datatype Doc = Doc(name: Package, version: string, integrity: Option<string>)

  /** probe_packument_version_state; Denied is an HTTP error that is not worth a retry. */
  datatype Probe = Indexed | Absent | Missing | Inconclusive | ProbeDenied

  /** One read of a version document.  With a 404 come the packument probes that follow it;
      the second one is only looked at when it is read. */
  datatype Answer =
    | Document(doc: Doc)
    | NotFound(first: Probe, second: Probe, retryAfter: Option<real>)
    | Busy(retryAfter: Option<real>)
    | Denied
    | Unreachable

  /** One read of the installation index: the entry of the version, if it has one. */
  datatype IndexAnswer = Versions(entry: Option<Doc>) | NoInventory | NotReady | IndexDenied

  datatype Action = Publish | Verified | Conflicting | AlreadyPublished

  datatype Limits = Limits(attempts: int, probes: int, initialDelay: real, maxDelay: real)

  // ----- classify_registry_state: what decides -----

  predicate Shows(p: Probe) { p.Indexed? || p.Absent? }

  /** What the attempts so far have left: was the packument ever seen, and how many 404s
      were counted against preflight_404_attempts. */
  datatype Evidence = Evidence(seen: bool, counted: nat)

  /** A 404 that counts: the packument lacks the version, or was never seen at all. */
  predicate Counts(a: Answer, seen: bool)
  {
    a.NotFound? && (a.first.Absent? || (a.first.Missing? && !seen))
  }

  function After(h: seq<Answer>, k: nat, probes: int): Evidence
    requires k <= |h|
  {
    if k == 0 then Evidence(false, 0)
    else Next(After(h, k - 1, probes), h[k - 1], probes)
  }

  function Next(e: Evidence, a: Answer, probes: int): Evidence
  {
    Evidence(e.seen || (a.NotFound? && Shows(a.first)) || (SecondRead(a, e, probes) && Shows(a.second)),
             e.counted + (if Counts(a, e.seen) then 1 else 0))
  }

  predicate SecondRead(a: Answer, e: Evidence, probes: int)
  {
    Counts(a, e.seen) && e.counted + 1 >= probes
  }

  /** The evidence on which one attempt answers publish. */
  predicate AnswersPublish(a: Answer, e: Evidence, last: bool, l: Limits, resuming: bool)
  {
    && Counts(a, e.seen)
    && (last
        || (e.counted + 1 >= l.probes
            && ((a.second.Missing? && a.first.Missing?) || (a.second.Absent? && !resuming))))
  }

  /** An answer after which no further attempt is made. */
  predicate Stops(a: Answer, e: Evidence, last: bool, l: Limits)
  {
    || a.Denied?
    || (a.NotFound? && a.first.ProbeDenied?)
    || (SecondRead(a, e, l.probes) && !last && a.second.ProbeDenied?)
    || last
  }

  /** What an attempt settles, if anything. */
  function SettledBy(a: Answer, e: Evidence, last: bool, expected: Doc, l: Limits,
        resuming: bool): Option<Result<Action>>
  {
    if a.Document? then Some(Ok(if a.doc == expected then Verified else Conflicting))
    else if AnswersPublish(a, e, last, l, resuming) then Some(Ok(Publish))
    else if Stops(a, e, last, l) then Some(Refused)
    else None
  }

  function Settled(h: seq<Answer>, k: nat, expected: Doc, l: Limits, resuming: bool): Option<Result<Action>>
    requires k < |h|
  {
    SettledBy(h[k], After(h, k, l.probes), k + 1 >= l.attempts, expected, l, resuming)
  }

  ghost predicate Undecided(h: seq<Answer>, expected: Doc, l: Limits, resuming: bool)
  {
    forall k | 0 <= k < |h| :: Settled(h, k, expected, l, resuming) == None
  }

  /** The result of a whole classification: the first attempt that settles decides. */
  predicate Classified(h: seq<Answer>, r: Result<Action>, expected: Doc, l: Limits, resuming: bool)
  {
    if l.attempts <= 0 then h == [] && r == Refused
    else
      && 0 < |h| <= l.attempts
      && (forall k | 0 <= k < |h| - 1 :: Settled(h, k, expected, l, resuming) == None)
      && Settled(h, |h| - 1, expected, l, resuming) == Some(r)
  }

  /** One more answer keeps what the earlier ones left and settled. */
  lemma {:induction false} AfterPrefix(h: seq<Answer>, a: Answer, k: nat, probes: int)
    requires k <= |h|
    ensures After(h + [a], k, probes) == After(h, k, probes)
  {
    if k > 0 { AfterPrefix(h, a, k - 1, probes); }
  }

  lemma Untried(expected: Doc, l: Limits, resuming: bool)
    ensures Undecided([], expected, l, resuming) && After([], 0, l.probes) == Evidence(false, 0)
    ensures l.attempts <= 0 ==> Classified([], Refused, expected, l, resuming)
  {
  }

  lemma SettledKeeps(h: seq<Answer>, a: Answer, k: nat, expected: Doc, l: Limits, resuming: bool)
    requires k < |h|
    ensures Settled(h + [a], k, expected, l, resuming) == Settled(h, k, expected, l, resuming)
  {
    AfterPrefix(h, a, k, l.probes);
  }

  lemma LastSettled(h: seq<Answer>, a: Answer, expected: Doc, l: Limits, resuming: bool)
    ensures After(h + [a], |h| + 1, l.probes) == Next(After(h, |h|, l.probes), a, l.probes)
    ensures Settled(h + [a], |h|, expected, l, resuming)
         == SettledBy(a, After(h, |h|, l.probes), |h| + 1 >= l.attempts, expected, l, resuming)
  {
    hide SettledBy, Next;
    AfterPrefix(h, a, |h|, l.probes);
  }

  lemma OneMore(h: seq<Answer>, a: Answer, expected: Doc, l: Limits, resuming: bool)
    requires Undecided(h, expected, l, resuming) && |h| < l.attempts
    ensures After(h + [a], |h| + 1, l.probes) == Next(After(h, |h|, l.probes), a, l.probes)
    ensures var s := SettledBy(a, After(h, |h|, l.probes), |h| + 1 >= l.attempts, expected, l, resuming);
      if s.Some? then Classified(h + [a], s.value, expected, l, resuming) else Undecided(h + [a], expected, l, resuming)
  {
    hide SettledBy, Next, Settled, After;
    LastSettled(h, a, expected, l, resuming);
    forall k | 0 <= k < |h| ensures Settled(h + [a], k, expected, l, resuming) == None {
      SettledKeeps(h, a, k, expected, l, resuming);
    }
  }

  // ----- waiting -----

  function Min(a: real, b: real): real { if a < b then a else b }

  /** The initial delay, half as much more after every attempt. */
  function Grown(initial: real, k: nat): real
  {
    if k == 0 then initial else Grown(initial, k - 1) * 1.5
  }

  ghost predicate IsLeast(x: real, a: real, b: real)
  {
    x <= a && x <= b && (x == a || x == b)
  }

  /** The sleep after attempt k: what the registry asked for, or else the grown delay, but
      never more than the maximum. */
  ghost predicate Slept(sleep: real, a: Answer, k: nat, l: Limits, asksWhenMissing: bool)
  {
    var asked :=
      if a.Busy? then a.retryAfter
      else if a.NotFound? && asksWhenMissing then a.retryAfter
      else None;
    IsLeast(sleep, if asked.Some? then asked.value else Grown(l.initialDelay, k), l.maxDelay)
  }

  /** The sleeps of a loop of reads. */
  ghost predicate Waits(sleeps: seq<real>, h: seq<Answer>, l: Limits, asksWhenMissing: bool)
  {
    && |sleeps| <= |h| && AllAtMost(sleeps, l.maxDelay)
    && (l.maxDelay >= 0.0 ==> forall k | 0 <= k < |sleeps| :: Slept(sleeps[k], h[k], k, l, asksWhenMissing))
  }

  /** Capping the delay as it grows or only when it is slept makes no difference. */
  ghost predicate Grows(delay: real, k: nat, l: Limits)
  {
    l.maxDelay >= 0.0 ==> IsLeast(Min(delay, l.maxDelay), Grown(l.initialDelay, k), l.maxDelay)
  }

  lemma NoWait(l: Limits, asksWhenMissing: bool)
    ensures Waits([], [], l, asksWhenMissing) && Grows(l.initialDelay, 0, l)
  {
  }

  lemma WaitsStill(sleeps: seq<real>, h: seq<Answer>, a: Answer, l: Limits, asksWhenMissing: bool)
    requires Waits(sleeps, h, l, asksWhenMissing)
    ensures Waits(sleeps, h + [a], l, asksWhenMissing)
  {
  }

  lemma WaitOnce(sleeps: seq<real>, h: seq<Answer>, delay: real, asked: Option<real>, l: Limits, asksWhenMissing: bool)
    requires Waits(sleeps, h, l, asksWhenMissing) && |sleeps| == |h| - 1 && Grows(delay, |sleeps|, l)
    requires var a := h[|h| - 1];
      asked == if a.Busy? then a.retryAfter else if a.NotFound? && asksWhenMissing then a.retryAfter else None
    ensures var wait := Min(if asked.Some? then asked.value else delay, l.maxDelay);
      Waits(sleeps + [wait], h, l, asksWhenMissing) && Grows(Min(delay * 1.5, l.maxDelay), |h|, l)
  {
  }

  function Sum(s: seq<real>): real
  {
    if s == [] then 0.0 else Sum(s[..|s| - 1]) + s[|s| - 1]
  }

  predicate AllAtMost(s: seq<real>, bound: real)
  {
    forall i | 0 <= i < |s| :: s[i] <= bound
  }

  lemma {:induction false} SumAtMost(s: seq<real>, bound: real)
    requires AllAtMost(s, bound)
    ensures Sum(s) <= Times(|s|, bound)
  {
    if s != [] { SumAtMost(s[..|s| - 1], bound); }
  }

  /** All sleeps of a classification together. */
  lemma TotalSleep(h: seq<Answer>, r: Result<Action>, expected: Doc, l: Limits, resuming: bool, sleeps: seq<real>)
    requires Classified(h, r, expected, l, resuming) && l.attempts > 0 && l.maxDelay >= 0.0
    requires |sleeps| == |h| - 1 && AllAtMost(sleeps, l.maxDelay)
    ensures Sum(sleeps) <= Times(l.attempts - 1, l.maxDelay)
  {
    SumAtMost(sleeps, l.maxDelay);
    TimesGrows(|sleeps|, l.attempts - 1, l.maxDelay);
  }

  // ----- what an answer proves -----

  /** The packument was shown by a probe that was read before attempt k. */
  ghost predicate EverShown(h: seq<Answer>, k: nat, probes: int)
    requires k <= |h|
    decreases k, 1
  {
    exists j | 0 <= j < k :: ShownAt(h, j, probes)
  }

  ghost predicate ShownAt(h: seq<Answer>, k: nat, probes: int)
    requires k < |h|
    decreases k, 4
  {
    && h[k].NotFound?
    && (h[k].first in {Indexed, Absent} || (ReadTwice(h, k, probes) && h[k].second in {Indexed, Absent}))
  }

  /** A 404 whose packument lacks the version, or was never shown and is missing. */
  ghost predicate Absence(h: seq<Answer>, k: nat, probes: int)
    requires k < |h|
    decreases k, 2
  {
    h[k].NotFound? && (h[k].first == Absent || (h[k].first == Missing && !EverShown(h, k, probes)))
  }

  /** The attempts before attempt k that were such. */
  ghost function Absences(h: seq<Answer>, k: nat, probes: int): set<nat>
    requires k <= |h|
    decreases k, 0
  {
    set j: nat | j < k && Absence(h, j, probes)
  }

  /** The packument is read a second time after enough of them. */
  ghost predicate ReadTwice(h: seq<Answer>, k: nat, probes: int)
    requires k < |h|
    decreases k, 3
  {
    Absence(h, k, probes) && |Absences(h, k, probes)| + 1 >= probes
  }

  lemma {:induction false} AfterExactly(h: seq<Answer>, k: nat, probes: int)
    requires k <= |h|
    ensures After(h, k, probes).seen <==> EverShown(h, k, probes)
    ensures After(h, k, probes).counted == |Absences(h, k, probes)|
  {
    hide ShownAt, Absence;
    if k > 0 {
      AfterExactly(h, k - 1, probes);
      AttemptExactly(h, k - 1, probes);
      var before, all := Absences(h, k - 1, probes), Absences(h, k, probes);
      if Absence(h, k - 1, probes) {
        assert all == before + {k - 1};
      } else {
        assert all == before;
      }
    }
  }

  lemma AttemptExactly(h: seq<Answer>, k: nat, probes: int)
    requires k < |h|
    requires After(h, k, probes).seen <==> EverShown(h, k, probes)
    requires After(h, k, probes).counted == |Absences(h, k, probes)|
    ensures Counts(h[k], After(h, k, probes).seen) <==> Absence(h, k, probes)
    ensures SecondRead(h[k], After(h, k, probes), probes) <==> ReadTwice(h, k, probes)
    ensures ShownAt(h, k, probes) <==>
      h[k].NotFound? && (Shows(h[k].first) || (SecondRead(h[k], After(h, k, probes), probes) && Shows(h[k].second)))
  {
    hide EverShown, Absences, After;
  }

  /** The latest probe that is read at attempt k. */
  ghost function LatestProbe(h: seq<Answer>, k: nat, l: Limits): Probe
    requires k < |h| && h[k].NotFound?
  {
    if ReadTwice(h, k, l.probes) && k + 1 < l.attempts then h[k].second else h[k].first
  }

  /** Attempt k answers publish: on a 404 whose latest probe lacks the version, or lacks the
      packument that no probe ever showed, after enough such 404s or on the last attempt; a
      resumed run that has seen the packument waits for the last attempt. */
  ghost predicate Publishes(h: seq<Answer>, k: nat, l: Limits, resuming: bool)
    requires k < |h|
  {
    && Absence(h, k, l.probes)
    && (k + 1 >= l.attempts || |Absences(h, k, l.probes)| + 1 >= l.probes)
    && var probe := LatestProbe(h, k, l);
    || (probe == Absent && (resuming ==> k + 1 >= l.attempts))
    || (probe == Missing && (k + 1 >= l.attempts || !EverShown(h, k + 1, l.probes)))
  }

  /** Attempt k is refused: by the registry, or because it was the last and told nothing. */
  ghost predicate Refuses(h: seq<Answer>, k: nat, l: Limits, resuming: bool)
    requires k < |h|
  {
    || h[k] == Denied
    || (h[k].NotFound? && h[k].first == ProbeDenied)
    || (h[k].NotFound? && ReadTwice(h, k, l.probes) && k + 1 < l.attempts && h[k].second == ProbeDenied)
    || (k + 1 >= l.attempts && !h[k].Document? && !Publishes(h, k, l, resuming))
  }

  /** What each attempt of a classification settles, in these terms. */
  lemma SettledExactly(h: seq<Answer>, k: nat, expected: Doc, l: Limits, resuming: bool)
    requires k < |h|
    ensures Settled(h, k, expected, l, resuming) ==
      if h[k].Document? then Some(Ok(if h[k].doc == expected then Verified else Conflicting))
      else if Publishes(h, k, l, resuming) then Some(Ok(Publish))
      else if Refuses(h, k, l, resuming) then Some(Refused)
      else None
  {
    hide EverShown, Absences, After, Absence, ShownAt;
    AfterExactly(h, k, l.probes);
    AttemptExactly(h, k, l.probes);
    AfterExactly(h, k + 1, l.probes);
    AfterNext(h, k, l.probes);
    AbsenceIsFound(h, k, l.probes);
  }

  lemma AfterNext(h: seq<Answer>, k: nat, probes: int)
    requires k < |h|
    ensures After(h, k + 1, probes) == Next(After(h, k, probes), h[k], probes)
  {
  }

  lemma AbsenceIsFound(h: seq<Answer>, k: nat, probes: int)
    requires k < |h|
    ensures Absence(h, k, probes) ==> h[k].NotFound? && h[k].first in {Absent, Missing}
  {
  }

  /** publish is answered exactly by an attempt that finds that evidence. */
  lemma PublishEvidence(h: seq<Answer>, r: Result<Action>, expected: Doc, l: Limits, resuming: bool)
    requires Classified(h, r, expected, l, resuming) && h != []
    ensures r == Ok(Publish) <==> Publishes(h, |h| - 1, l, resuming)
    ensures r == Refused <==> Refuses(h, |h| - 1, l, resuming)
    ensures forall k | 0 <= k < |h| - 1 ::
      !h[k].Document? && !Publishes(h, k, l, resuming) && !Refuses(h, k, l, resuming)
  {
    hide Publishes, Refuses;
    forall k: nat | k < |h| ensures Settled(h, k, expected, l, resuming) ==
      if h[k].Document? then Some(Ok(if h[k].doc == expected then Verified else Conflicting))
      else if Publishes(h, k, l, resuming) then Some(Ok(Publish))
      else if Refuses(h, k, l, resuming) then Some(Refused)
      else None
    {
      SettledExactly(h, k, expected, l, resuming);
    }
    Apart(h, |h| - 1, l, resuming);
  }

  lemma Apart(h: seq<Answer>, k: nat, l: Limits, resuming: bool)
    requires k < |h|
    ensures !(h[k].Document? && (Publishes(h, k, l, resuming) || Refuses(h, k, l, resuming)))
    ensures !(Publishes(h, k, l, resuming) && Refuses(h, k, l, resuming))
  {
    hide EverShown, Absences;
  }

  /** A resumed run that has seen the packument answers publish on its last attempt only. */
  lemma ResumedWaits(h: seq<Answer>, expected: Doc, l: Limits)
    requires Classified(h, Ok(Publish), expected, l, true) && EverShown(h, |h|, l.probes)
    ensures |h| == l.attempts
  {
    hide Absence, Absences, ShownAt;
    var k := |h| - 1;
    PublishEvidence(h, Ok(Publish), expected, l, true);
    AbsenceIsFound(h, k, l.probes);
    if LatestProbe(h, k, l) == Missing && k + 1 < l.attempts { assert false; }
  }

  /** verified and conflicting come from the only document that was read, the last answer. */
  lemma DocumentDecides(h: seq<Answer>, r: Result<Action>, expected: Doc, l: Limits, resuming: bool)
    requires Classified(h, r, expected, l, resuming)
    ensures r == Ok(Verified) <==> h != [] && h[|h| - 1] == Document(expected)
    ensures r == Ok(Conflicting) <==> h != [] && h[|h| - 1].Document? && h[|h| - 1].doc != expected
    ensures r != Ok(AlreadyPublished)
    ensures forall k | 0 <= k < |h| - 1 :: !h[k].Document?
  {
    forall k | 0 <= k < |h| - 1 ensures !h[k].Document? {
      assert Settled(h, k, expected, l, resuming) == None;
    }
  }

  // ----- preflight: what becomes of the six answers -----

  predicate Among(actions: seq<Action>, a: Action)
  {
    exists i | 0 <= i < |actions| :: actions[i] == a
  }

  function Recorded(a: Action): Action
  {
    if a.Conflicting? then AlreadyPublished else a
  }

  /** The recorded actions, or a refusal. */
  function Settle(actions: seq<Action>, resuming: bool): (r: Result<seq<Action>>)
    ensures r.Ok? ==> |r.value| == |actions|
  {
    if Among(actions, Conflicting) && (Among(actions, Publish) || resuming) then Refused
    else Ok(seq(|actions|, (i: nat) requires i < |actions| => Recorded(actions[i])))
  }

  /** A record that leads to uploads holds nothing but publish and verified, a record with
      already-published leads to none, and a resumed run never writes one. */
  lemma RecordIsAllOrNothing(actions: seq<Action>, resuming: bool)
    requires !Among(actions, AlreadyPublished)
    ensures Settle(actions, resuming).Ok? <==> (!Among(actions, Conflicting) || (!resuming && !Among(actions, Publish)))
    ensures Settle(actions, resuming).Ok? ==>
      var s := Settle(actions, resuming).value;
      && |s| == |actions| && (forall i | 0 <= i < |s| :: s[i] == Recorded(actions[i]))
      && !Among(s, Conflicting)
      && (Among(s, AlreadyPublished) ==> !Among(s, Publish) && !resuming)
      && (Among(s, Publish) <==> Among(actions, Publish))
      && (Among(s, AlreadyPublished) <==> Among(actions, Conflicting))
  {
    if Settle(actions, resuming).Ok? {
      var s := Settle(actions, resuming).value;
      forall i | 0 <= i < |s|
        ensures (s[i] == Publish <==> actions[i] == Publish)
          && (s[i] == AlreadyPublished <==> actions[i] == Conflicting) && s[i] != Conflicting
      {
        assert actions[i] != AlreadyPublished;
      }
    }
  }

  // ----- publish-state.json -----

  datatype Item = Item(name: Package, action: Action)

  datatype State = State(version: string, items: seq<Item>)

  function Named(items: seq<Item>, p: Package): seq<Action>
  {
    if items == [] then []
    else (if items[0].name == p then [items[0].action] else []) + Named(items[1..], p)
  }

  /** package_action */
  function PackageAction(state: State, p: Package, version: string): Result<Action>
  {
    var matches := Named(state.items, p);
    if state.version != version || |matches| != 1 || matches[0].Conflicting? then Refused else Ok(matches[0])
  }

  function ItemsOf(packages: seq<Package>, actions: seq<Action>): seq<Item>
    requires |packages| == |actions|
  {
    seq(|packages|, (i: nat) requires i < |packages| && |packages| == |actions| => Item(packages[i], actions[i]))
  }

  lemma {:induction false} NamedNone(packages: seq<Package>, actions: seq<Action>, p: Package)
    requires |packages| == |actions| && forall i | 0 <= i < |packages| :: packages[i] != p
    ensures Named(ItemsOf(packages, actions), p) == []
  {
    if packages != [] {
      assert ItemsOf(packages, actions)[1..] == ItemsOf(packages[1..], actions[1..]);
      NamedNone(packages[1..], actions[1..], p);
    }
  }

  lemma {:induction false} NamedOnce(packages: seq<Package>, actions: seq<Action>, i: nat)
    requires |packages| == |actions| && NoRepeats(packages) && i < |packages|
    ensures Named(ItemsOf(packages, actions), packages[i]) == [actions[i]]
  {
    assert ItemsOf(packages, actions)[1..] == ItemsOf(packages[1..], actions[1..]);
    if i == 0 {
      NamedNone(packages[1..], actions[1..], packages[0]);
    } else {
      NamedOnce(packages[1..], actions[1..], i - 1);
    }
  }

  /** What a complete record says of a package. */
  function ActionFor(s: State, p: Package): Action
    requires |s.items| == |ALL|
  {
    s.items[Index(p)].action
  }

  ghost predicate Records(s: State, a: Action)
    requires |s.items| == |ALL|
  {
    exists p :: ActionFor(s, p) == a
  }

  /** What preflight records for a package is what publishing it looks up. */
  lemma RecordReadsBack(version: string, actions: seq<Action>, i: nat)
    requires |actions| == |ALL| && i < |ALL| && !actions[i].Conflicting?
    ensures PackageAction(State(version, ItemsOf(ALL, actions)), ALL[i], version) == Ok(actions[i])
  {
    NamedOnce(ALL, actions, i);
  }

  // ----- builds -----

  /** Packages are published in the order of ALL: none is held without all before it. */
  ghost predicate Staged(held: map<Package, Doc>)
  {
    forall p: Package, q: Package | Index(p) < Index(q) && q in held :: p in held
  }

  /** Everything held comes from one build. */
  ghost predicate FromBuild(held: map<Package, Doc>, version: string, records: map<Package, string>)
  {
    forall p | p in held :: p in records && held[p] == Doc(p, version, Some(records[p]))
  }

  /** What one release may do: nothing, or bring the registry to packages of its own build. */
  ghost predicate Advanced(before: map<Package, Doc>, after: map<Package, Doc>, version: string,
      records: map<Package, string>)
  {
    after == before || (Staged(after) && FromBuild(after, version, records))
  }

  /** A package is stored after all before it hold the same build's bytes. */
  lemma UploadAdvances(before: map<Package, Doc>, p: Package, version: string, records: map<Package, string>)
    requires Staged(before) && p !in before && p in records
    requires forall q: Package | Index(q) < Index(p) ::
      q in before && q in records && before[q] == Doc(q, version, Some(records[q]))
    ensures var after := before[p := Doc(p, version, Some(records[p]))];
        Staged(after) && FromBuild(after, version, records)
  {
    forall q | q in before ensures Index(q) < Index(p) {
      assert ALL[Index(q)] == q && ALL[Index(p)] == p;
    }
  }

  /** From an empty registry on, over any sequence of releases of whatever builds, the
      packages of a version are a beginning of ALL and come from one of the builds. */
  lemma {:induction false} BuildsNeverMix(states: seq<map<Package, Doc>>, version: string,
      builds: seq<map<Package, string>>, n: nat)
    requires |states| == |builds| + 1 && n < |states| && states[0] == map[]
    requires forall k | 0 <= k < |builds| :: Advanced(states[k], states[k + 1], version, builds[k])
    ensures Staged(states[n])
    ensures states[n] == map[] || exists k | 0 <= k < n :: FromBuild(states[n], version, builds[k])
  {
    if n > 0 {
      BuildsNeverMix(states, version, builds, n - 1);
      assert Advanced(states[n - 1], states[n], version, builds[n - 1]);
    }
  }

  // ----- a release against the registry -----

  datatype Readback = Confirmed | Mismatch | Unreadable

  /** An answer after which the version is read again: it is not there yet, or the registry
      is busy or away. */
  ghost predicate Retried(a: Answer)
  {
    a.NotFound? || a.Busy? || a.Unreachable?
  }

  /** The result of reading back: the first document decides, a denial ends it, and after the
      last attempt nothing is known. */
  ghost predicate ReadAs(h: seq<Answer>, r: Readback, expected: Doc, attempts: int)
  {
    if attempts <= 0 then h == [] && r.Unreadable?
    else
      && 0 < |h| <= attempts && (forall k | 0 <= k < |h| - 1 :: Retried(h[k]))
      && var last := h[|h| - 1];
      && (r.Confirmed? <==> last == Document(expected))
      && (r.Mismatch? <==> last.Document? && last.doc != expected)
      && (Retried(last) ==> |h| == attempts)
  }

  /** One version of the six packages on the registry, and the release that publishes a
      bundle under that version.  alone: nobody else publishes this version.  prompt: every
      request is answered at once, by what the registry holds. */
  class Publication {
    const version: string
    const records: map<Package, string>
    const alone: bool
    const prompt: bool

    /** The packages the registry knows in some other version. */
    const known: set<Package>

    /** What the registry holds. */
    var held: map<Package, Doc>

    /** publish-state.json, and the packages handed to npm publish so far. */
    var state: Option<State>
    var uploads: seq<Package>

    constructor (version: string, records: map<Package, string>, alone: bool, prompt: bool, known: set<Package>,
        held: map<Package, Doc>)
      requires forall p :: p in records
      ensures this.version == version && this.records == records && this.held == held
      ensures this.alone == alone && this.prompt == prompt && this.known == known
      ensures state == None && uploads == [] && Valid()
    {
      this.version, this.records, this.held := version, records, held;
      this.alone, this.prompt, this.known := alone, prompt, known;
      state, uploads := None, [];
    }

    function Bundled(p: Package): Doc
      requires p in records
    {
      Doc(p, version, Some(records[p]))
    }

    /** The registry holds exactly the bytes of this bundle under p. */
    predicate Holds(p: Package)
      reads this
      requires p in records
    {
      p in held && held[p] == Bundled(p)
    }

    /** No package of this version holds bytes of another build. */
    predicate Unmixed()
      reads this
      requires forall p :: p in records
    {
      forall p | p in held :: held[p] == Bundled(p)
    }

    /** The record is one that preflight wrote, and what it calls verified is. */
    ghost predicate Valid()
      reads this
    {
      && (forall p :: p in records)
      && (state.Some? ==> Written(state.value))
    }

    ghost predicate Written(s: State)
      reads this
      requires forall p :: p in records
    {
      && s.version == version && |s.items| == |ALL|
      && (forall i | 0 <= i < |ALL| :: s.items[i].name == ALL[i] && !s.items[i].action.Conflicting?
                                       && (s.items[i].action.Verified? ==> Holds(ALL[i])))
      && (forall i, j | 0 <= i < |ALL| && 0 <= j < |ALL| ::
        !(s.items[i].action.AlreadyPublished? && s.items[j].action.Publish?))
    }

    static predicate Grew(before: map<Package, Doc>, after: map<Package, Doc>)
    {
      forall p | p in before :: p in after && after[p] == before[p]
    }

    /** Others publish, unless this release is alone: stored versions never change. */
    method Elsewhere()
      modifies this`held
      ensures Grew(old(held), held) && (alone ==> held == old(held))
    {
      if !alone {
        var more: map<Package, Doc> := *;
        held := more + held;
      }
    }

    /** What the packument of an absent version shows. */
    function Known(p: Package): Probe
    {
      if p in known then Absent else Missing
    }

    /** A read answers late, not at all, or with the stored document. */
    method Read(p: Package) returns (a: Answer)
      modifies this`held
      ensures Grew(old(held), held) && (alone ==> held == old(held))
      ensures a.Document? ==> p in held && held[p] == a.doc
      ensures prompt ==> if p in held then a.Document? else a == NotFound(Known(p), Known(p), None)
    {
      Elsewhere();
      a := *;
      if prompt {
        a := if p in held then Document(held[p]) else NotFound(Known(p), Known(p), None);
      } else if a.Document? {
        if p in held { a := Document(held[p]); } else { a := Unreachable; }
      }
    }

    /** npm publish stores a version that does not exist yet; its answer may be lost. */
    method Upload(p: Package) returns (confirmed: bool)
      requires p in records
      modifies this`held, this`uploads
      ensures Grew(old(held), held) && uploads == old(uploads) + [p]
      ensures alone ==> held == old(held) || (p !in old(held) && held == old(held)[p := Bundled(p)])
      ensures prompt ==> p in held
    {
      Elsewhere();
      uploads := uploads + [p];
      var stored: bool := *;
      if prompt { stored := true; }
      if stored && p !in held { held := held[p := Bundled(p)]; }
      confirmed := *;
    }

    /** classify_registry_state */
    method Classify(p: Package, l: Limits, resuming: bool)
        returns (r: Result<Action>, h: seq<Answer>, sleeps: seq<real>)
      requires p in records
      modifies this`held
      ensures Grew(old(held), held) && (alone ==> held == old(held))
      ensures Classified(h, r, Bundled(p), l, resuming)
      ensures |sleeps| == (if h == [] then 0 else |h| - 1) && Waits(sleeps, h, l, false)
      ensures forall k | 0 <= k < |h| && h[k].Document? :: p in held && held[p] == h[k].doc
      ensures prompt && alone && l.attempts > 0 ==>
        r == Ok(if p !in held then Publish else if Holds(p) then Verified else Conflicting)
    {
      hide Settled, After, Classified, Undecided, Waits, Grows, Min;
      NoWait(l, false);
      Untried(Bundled(p), l, resuming);
      var delay := l.initialDelay;
      var visibilityAttempts := 0;
      var packumentSeen := false;
      h, sleeps := [], [];
      ghost var expected := Bundled(p);
      var attempt := 1;
      while attempt <= l.attempts
        invariant attempt == 1 || attempt <= l.attempts
        invariant |h| == |sleeps| == attempt - 1
        invariant Grew(old(held), held) && (alone ==> held == old(held))
        invariant Waits(sleeps, h, l, false) && Grows(delay, attempt - 1, l)
        invariant Undecided(h, expected, l, resuming)
        invariant forall k | 0 <= k < |h| :: !h[k].Document?
        invariant After(h, |h|, l.probes) == Evidence(packumentSeen, visibilityAttempts)
        invariant prompt && alone && attempt > 1 ==> p !in held && (packumentSeen <==> p in known)
      {
        var a := Read(p);
        ghost var before := h;
        h := h + [a];
        WaitsStill(sleeps, before, a, l, false);
        OneMore(before, a, expected, l, resuming);
        var wait := Min(delay, l.maxDelay);
        match a {
          case Document(doc) =>
            if doc != Bundled(p) { r := Ok(Conflicting); } else { r := Ok(Verified); }
            return;
          case NotFound(first, second, _) =>
            if first.ProbeDenied? { return Refused, h, sleeps; }
            var seenBefore := packumentSeen;
            if first.Indexed? || first.Absent? { packumentSeen := true; }
            if first.Indexed? || first.Inconclusive? || (first.Missing? && packumentSeen) {
              if attempt >= l.attempts { return Refused, h, sleeps; }
            } else {
              visibilityAttempts := visibilityAttempts + 1;
              if (first.Missing? && !packumentSeen && attempt >= l.attempts)
                 || (first.Absent? && packumentSeen && attempt >= l.attempts) {
                return Ok(Publish), h, sleeps;
              }
              // On the last attempt one of the two cases above has answered, so the
              // "remained ambiguous" error below them can never be raised.
              assert attempt < l.attempts;
              if visibilityAttempts >= l.probes {
                if second.ProbeDenied? { return Refused, h, sleeps; }
                if second.Indexed? || second.Absent? { packumentSeen := true; }
                if second.Missing? && !packumentSeen && (attempt >= l.attempts || visibilityAttempts >= l.probes) {
                  return Ok(Publish), h, sleeps;
                }
                if second.Absent? && packumentSeen && (!resuming || attempt >= l.attempts) {
                  return Ok(Publish), h, sleeps;
                }
              }
            }
          case Busy(retryAfter) =>
            if attempt >= l.attempts { return Refused, h, sleeps; }
            if retryAfter.Some? { wait := Min(retryAfter.value, l.maxDelay); }
          case Denied =>
            return Refused, h, sleeps;
          case Unreachable =>
            if attempt >= l.attempts { return Refused, h, sleeps; }
        }
        WaitOnce(sleeps, h, delay, if a.Busy? then a.retryAfter else None, l, false);
        sleeps := sleeps + [wait];
        delay := Min(delay * 1.5, l.maxDelay);
        attempt := attempt + 1;
      }
      r := Refused;
    }

    /** read_back_with_retry */
    method ReadBack(p: Package, l: Limits) returns (r: Readback, h: seq<Answer>, sleeps: seq<real>)
      requires p in records
      modifies this`held
      ensures Grew(old(held), held) && (alone ==> held == old(held))
      ensures ReadAs(h, r, Bundled(p), l.attempts)
      ensures forall k | 0 <= k < |h| && h[k].Document? :: p in held && held[p] == h[k].doc
      ensures |sleeps| == (if h == [] then 0 else |h| - 1) && Waits(sleeps, h, l, true)
      ensures prompt && alone && p in held && l.attempts > 0 ==> h == [Document(held[p])]
    {
      hide Waits, Grows, Min;
      NoWait(l, true);
      var delay := l.initialDelay;
      h, sleeps := [], [];
      var attempt := 1;
      while attempt <= l.attempts
        invariant attempt == 1 || attempt <= l.attempts
        invariant |h| == |sleeps| == attempt - 1
        invariant Grew(old(held), held) && (alone ==> held == old(held))
        invariant Waits(sleeps, h, l, true) && Grows(delay, attempt - 1, l)
        invariant forall k | 0 <= k < |h| :: Retried(h[k])
        invariant prompt && alone && p in held ==> attempt == 1
      {
        var a := Read(p);
        WaitsStill(sleeps, h, a, l, true);
        h := h + [a];
        var wait := Min(delay, l.maxDelay);
        match a {
          case Document(doc) =>
            if doc != Bundled(p) { r := Mismatch; } else { r := Confirmed; }
            return;
          case NotFound(_, _, retryAfter) =>
            if attempt >= l.attempts { return Unreadable, h, sleeps; }
            if retryAfter.Some? { wait := Min(retryAfter.value, l.maxDelay); }
          case Busy(retryAfter) =>
            if attempt >= l.attempts { return Unreadable, h, sleeps; }
            if retryAfter.Some? { wait := Min(retryAfter.value, l.maxDelay); }
          case Denied =>
            return Unreadable, h, sleeps;
          case Unreachable =>
            if attempt >= l.attempts { return Unreadable, h, sleeps; }
        }
        WaitOnce(sleeps, h, delay, if a.NotFound? || a.Busy? then a.retryAfter else None, l, true);
        sleeps := sleeps + [wait];
        delay := Min(delay * 1.5, l.maxDelay);
        attempt := attempt + 1;
      }
      r := Unreadable;
    }

    /** publish_package */
    method PublishPackage(p: Package, l: Limits) returns (r: Result<()>, h: seq<Answer>)
      requires Valid()
      modifies this`held, this`uploads
      ensures Valid() && Grew(old(held), held)
      ensures alone ==> held == old(held) || (p !in old(held) && held == old(held)[p := Bundled(p)])
      ensures alone && old(Unmixed()) ==> Unmixed()
      ensures held != old(held) && alone ==> state.Some? && PackageAction(state.value, p, version) == Ok(Publish)
      ensures state.None? ==> r == Refused && uploads == old(uploads)
      ensures state.Some? && PackageAction(state.value, p, version) == Ok(Publish) ==>
        exists readback :: ReadAs(h, readback, Bundled(p), l.attempts) && (r.Ok? <==> readback.Confirmed?)
      ensures state.Some? && PackageAction(state.value, p, version) in {Ok(Verified), Ok(AlreadyPublished)} ==> r.Ok?
      ensures prompt && alone && state.Some? && (p in old(held) ==> old(held)[p] == Bundled(p)) && l.attempts > 0 ==>
        r.Ok?
      ensures state.Some? ==>
        var action := PackageAction(state.value, p, version);
        && uploads == (if action == Ok(Publish) then old(uploads) + [p] else old(uploads))
        && (r.Ok? ==> action.Ok? && (action == Ok(AlreadyPublished) || Holds(p)))
    {
      h := [];
      if state.None? { return Refused, h; }
      var action := PackageAction(state.value, p, version);
      RecordLooksUp(p);
      if action.Refused? { return Refused, h; }
      if action.value.Verified? || action.value.AlreadyPublished? { return Ok(()), h; }
      var confirmed := Upload(p);
      var readback, answers, _ := ReadBack(p, l);
      h := answers;
      r := if readback.Confirmed? then Ok(()) else Refused;
    }

    /** Looking a package up finds its entry of the record. */
    lemma RecordLooksUp(p: Package)
      requires Valid() && state.Some?
      ensures PackageAction(state.value, p, version) == Ok(ActionFor(state.value, p))
      ensures PackageAction(state.value, p, version) == Ok(Verified) ==> Holds(p)
    {
      var items := state.value.items;
      var actions := seq(|ALL|, i requires 0 <= i < |ALL| => items[i].action);
      assert items == ItemsOf(ALL, actions);
      RecordReadsBack(version, actions, Index(p));
    }

    /** The answers agree with what the registry holds. */
    ghost predicate Observed(actions: seq<Action>)
      reads this
      requires forall p :: p in records
    {
      && |actions| <= |ALL| && !Among(actions, AlreadyPublished)
      && forall i | 0 <= i < |actions| ::
        && (actions[i].Verified? ==> Holds(ALL[i]))
        && (actions[i].Conflicting? ==> ALL[i] in held && held[ALL[i]] != Bundled(ALL[i]))
    }

    /** What a record just written tells about the registry and the run. */
    ghost predicate Follows(s: State, resuming: bool)
      reads this
    {
      && |s.items| == |ALL|
      && (Records(s, AlreadyPublished) ==> !resuming && !Records(s, Publish))
      && (forall p :: ActionFor(s, p) == AlreadyPublished ==> p in held)
    }

    lemma RecordFollows(actions: seq<Action>, resuming: bool)
      requires (forall p :: p in records) && Observed(actions) && |actions| == |ALL| && Settle(actions, resuming).Ok?
      ensures var s := State(version, ItemsOf(ALL, Settle(actions, resuming).value)); Written(s) && Follows(s, resuming)
    {
      RecordIsAllOrNothing(actions, resuming);
      var s := State(version, ItemsOf(ALL, Settle(actions, resuming).value));
      assert forall i | 0 <= i < |ALL| :: s.items[i] == Item(ALL[i], Recorded(actions[i]));
    }

    /** While nobody else publishes the version and the registry holds only bytes of this
        bundle, whatever crashes came before, preflight never refuses the six answers. */
    lemma OwnVersionResumes(actions: seq<Action>, resuming: bool)
      requires (forall p :: p in records) && Observed(actions) && Unmixed()
      ensures !Among(actions, Conflicting) && Settle(actions, resuming).Ok?
    {
    }

    /** The packages were classified one by one, until one was refused. */
    ghost predicate Inspected(actions: seq<Action>, histories: seq<seq<Answer>>, l: Limits, resuming: bool)
      requires forall p :: p in records
    {
      && |actions| <= |ALL| && |histories| == (if |actions| == |ALL| then |ALL| else |actions| + 1)
      && forall i | 0 <= i < |histories| ::
        Classified(histories[i], if i < |actions| then Ok(actions[i]) else Refused, Bundled(ALL[i]), l, resuming)
    }

    /** The loop of preflight over the packages; the first failure stops it. */
    method Inspect(l: Limits, resuming: bool) returns (actions: seq<Action>, histories: seq<seq<Answer>>)
      requires Valid()
      modifies this`held
      ensures Valid() && Grew(old(held), held) && (alone ==> held == old(held)) && Observed(actions)
      ensures Inspected(actions, histories, l, resuming)
      ensures prompt && alone && l.attempts > 0 ==> |actions| == |ALL|
    {
      hide Classified;
      actions, histories := [], [];
      for k := 0 to |ALL|
        invariant |actions| == |histories| == k && Valid() && Grew(old(held), held) && (alone ==> held == old(held))
        invariant Observed(actions)
        invariant forall i | 0 <= i < k :: Classified(histories[i], Ok(actions[i]), Bundled(ALL[i]), l, resuming)
      {
        var action, h, _ := Classify(ALL[k], l, resuming);
        DocumentDecides(h, action, Bundled(ALL[k]), l, resuming);
        histories := histories + [h];
        if action.Refused? { return; }
        actions := actions + [action.value];
      }
    }

    /** preflight */
    method Preflight(l: Limits, resuming: bool)
        returns (r: Result<()>, actions: seq<Action>, histories: seq<seq<Answer>>)
      requires Valid()
      modifies this`held, this`state
      ensures Valid() && Grew(old(held), held) && (alone ==> held == old(held)) && Observed(actions)
      ensures r.Ok? <==> |actions| == |ALL| && Settle(actions, resuming).Ok?
      ensures state == if r.Ok? then Some(State(version, ItemsOf(ALL, Settle(actions, resuming).value))) else old(state)
      ensures r.Ok? ==> Follows(state.value, resuming)
      ensures alone && old(Unmixed()) && |actions| == |ALL| ==> r.Ok?
      ensures Inspected(actions, histories, l, resuming)
      ensures prompt && alone && l.attempts > 0 ==> |actions| == |ALL|
    {
      hide Inspected, Staged, Settle, Classified, ALL, PLATFORMS, ItemsOf, Grew, Among;
      actions, histories := Inspect(l, resuming);
      if |actions| < |ALL| { return Refused, actions, histories; }
      if Unmixed() { OwnVersionResumes(actions, resuming); }
      var recorded := Settle(actions, resuming);
      if recorded.Refused? { return Refused, actions, histories; }
      RecordFollows(actions, resuming);
      state := Some(State(version, ItemsOf(ALL, recorded.value)));
      r := Ok(());
    }

    /** The first n packages hold this bundle's bytes, or the record leaves them alone. */
    ghost predicate Reached(n: nat)
      reads this
      requires Valid() && state.Some? && n <= |ALL|
    {
      forall i | 0 <= i < n :: Holds(ALL[i]) || ActionFor(state.value, ALL[i]) == AlreadyPublished
    }

    /** One package of a stretch. */
    method PublishNext(k: nat, l: Limits) returns (r: Result<()>)
      requires Valid() && k < |ALL|
      modifies this`held, this`uploads
      ensures Valid() && Grew(old(held), held) && (alone && old(Unmixed()) ==> Unmixed())
      ensures r.Ok? ==> state.Some?
      ensures prompt && alone && state.Some? && old(Unmixed()) && l.attempts > 0 ==> r.Ok?
      ensures uploads == old(uploads)
        || (uploads == old(uploads) + [ALL[k]] && state.Some? && ActionFor(state.value, ALL[k]) == Publish)
      ensures state.Some? && old(state.Some? && Reached(k)) ==>
        && Reached(k) && (r.Ok? ==> Reached(k + 1))
        && (alone && Staged(old(held)) ==> Staged(held) && Advanced(old(held), held, version, records))
    {
      hide Staged, FromBuild, PackageAction;
      ghost var before := held;
      if state.Some? { RecordLooksUp(ALL[k]); }
      var one, _ := PublishPackage(ALL[k], l);
      r := one;
      if held != before && alone && Staged(before) && state.Some? && old(state.Some? && Reached(k)) {
        NextPackage(before, k);
      }
    }

    /** A stretch of ALL, one package after the other: publish_platforms for the first five,
        publish_launcher for the last.  Each command stops the release when it fails. */
    method PublishAll(first: nat, end: nat, l: Limits) returns (r: Result<()>)
      requires Valid() && first < end <= |ALL|
      modifies this`held, this`uploads
      ensures Valid() && Grew(old(held), held) && old(uploads) <= uploads && (alone && old(Unmixed()) ==> Unmixed())
      ensures state.Some? && Records(state.value, AlreadyPublished) ==> uploads == old(uploads)
      ensures uploads != old(uploads) ==> state.Some? && Records(state.value, Publish)
      ensures r.Ok? ==> state.Some?
      ensures prompt && alone && state.Some? && old(Unmixed()) && l.attempts > 0 ==> r.Ok?
      ensures state.Some? && old(state.Some? && Reached(first)) ==>
        && (r.Ok? ==> Reached(end))
        && (alone && Staged(old(held)) ==> Staged(held) && Advanced(old(held), held, version, records))
    {
      hide Staged, FromBuild, Reached, Unmixed;
      ghost var ordered := state.Some? && Reached(first);
      for k := first to end
        invariant Valid() && Grew(old(held), held) && old(uploads) <= uploads && (alone && old(Unmixed()) ==> Unmixed())
        invariant uploads != old(uploads) ==> state.Some? && Records(state.value, Publish)
        invariant k > first ==> state.Some?
        invariant ordered ==> Reached(k)
        invariant ordered && alone && Staged(old(held)) ==> Staged(held) && Advanced(old(held), held, version, records)
      {
        var one := PublishNext(k, l);
        if one.Refused? { return Refused; }
      }
      r := Ok(());
    }

    /** A package was stored behind those that the release has reached. */
    lemma NextPackage(before: map<Package, Doc>, k: nat)
      requires Valid() && state.Some? && k < |ALL| && ActionFor(state.value, ALL[k]) == Publish && Staged(before)
      requires ALL[k] !in before && held == before[ALL[k] := Bundled(ALL[k])]
      requires forall i | 0 <= i < k ::
        (ALL[i] in before && before[ALL[i]] == Bundled(ALL[i])) || ActionFor(state.value, ALL[i]) == AlreadyPublished
      ensures Staged(held) && FromBuild(held, version, records)
    {
      assert Index(ALL[k]) == k;
      forall q: Package | Index(q) < k ensures q in before && before[q] == Bundled(q) {
        assert ALL[Index(q)] == q;
        assert ActionFor(state.value, q) != AlreadyPublished;
      }
      UploadAdvances(before, ALL[k], version, records);
    }

    /** One release: preflight, the five platform packages, the launcher. */
    method Release(l: Limits, resuming: bool) returns (r: Result<()>, recorded: bool)
      requires Valid()
      modifies this
      ensures Valid() && Grew(old(held), held) && old(uploads) <= uploads
      ensures alone && old(Unmixed()) ==> Unmixed()
      ensures alone && Staged(old(held)) ==> Staged(held) && Advanced(old(held), held, version, records)
      ensures recorded ==> state.Some? && (Records(state.value, AlreadyPublished) ==>
        !resuming && uploads == old(uploads))
      ensures !recorded ==> r == Refused && uploads == old(uploads) && state == old(state)
      ensures r.Ok? && uploads != old(uploads) ==> forall p :: Holds(p)
      ensures r.Ok? ==> (forall p :: Holds(p)) || (!resuming && uploads == old(uploads) && forall p :: p in held)
      ensures prompt && alone && old(Unmixed()) && l.attempts > 0 ==> r.Ok? && forall p :: Holds(p)
    {
      var start, actions, _ := Preflight(l, resuming);
      if start.Refused? { return Refused, false; }
      recorded := true;
      r := PublishAll(0, |PLATFORMS|, l);
      if r.Refused? { return r, true; }
      r := PublishAll(|PLATFORMS|, |ALL|, l);
      forall p | r.Ok? ensures Holds(p) || ActionFor(state.value, p) == AlreadyPublished {
        assert ALL[Index(p)] == p;
      }
      assert Records(state.value, AlreadyPublished) || r.Refused? || forall p :: Holds(p);
    }

    /** A read of the installation index, late or failing like any other. */
    method ReadIndex(p: Package) returns (a: IndexAnswer)
      modifies this`held
      ensures Grew(old(held), held) && (alone ==> held == old(held))
      ensures a.Versions? && a.entry.Some? ==> p in held && held[p] == a.entry.value
      ensures prompt && alone && p in held ==> a == Versions(Some(held[p]))
    {
      Elsewhere();
      a := *;
      if prompt && p in held { a := Versions(Some(held[p])); }
      if a.Versions? && a.entry.Some? {
        a := Versions(if p in held then Some(held[p]) else None);
      }
    }

    /** One after the other, and none past the deadline. */
    static ghost predicate InTime(times: seq<nat>, late: nat -> bool)
    {
      && (forall i | 0 <= i < |times| :: !late(times[i]))
      && forall i, j | 0 <= i < j < |times| :: times[i] < times[j]
    }

    static ghost predicate Past(times: seq<nat>, clock: nat)
    {
      forall i | 0 <= i < |times| :: times[i] < clock
    }

    /** wait_for_installation_metadata; late says whether the clock has passed the deadline.
        looks and sleeps are the times before each read of an index and before each sleep.
        It never uploads. */
    method WaitForInstallation(l: Limits, late: nat -> bool)
        returns (ready: bool, rounds: nat, looks: seq<nat>, sleeps: seq<nat>)
      requires forall p :: p in records
      modifies this`held
      ensures Grew(old(held), held) && (alone ==> held == old(held))
      ensures ready ==> forall p :: Holds(p)
      ensures rounds <= (if l.attempts > 0 then l.attempts else 0)
      ensures InTime(looks, late) && InTime(sleeps, late) && |sleeps| == if rounds > 0 then rounds - 1 else 0
      ensures prompt && alone && old(forall p :: Holds(p)) && l.attempts > 0 && (forall t :: !late(t)) ==> ready
    {
      ghost var good := prompt && alone && (forall p :: Holds(p)) && (forall t :: !late(t));
      var pending := set i | 0 <= i < |ALL| :: ALL[i];
      forall p: Package ensures p in pending { assert ALL[Index(p)] == p; }
      var clock := 0;
      rounds, looks, sleeps := 0, [], [];
      while rounds < l.attempts
        invariant rounds <= (if l.attempts > 0 then l.attempts else 0)
        invariant Grew(old(held), held) && (alone ==> held == old(held))
        invariant forall p :: p in pending || Holds(p)
        invariant good ==> rounds == 0 && forall p :: Holds(p)
        invariant InTime(looks, late) && InTime(sleeps, late) && Past(looks, clock) && Past(sleeps, clock)
        invariant |sleeps| == if rounds == l.attempts && rounds > 0 then rounds - 1 else rounds
      {
        rounds := rounds + 1;
        var round := pending;
        while round != {}
          invariant Grew(old(held), held) && (alone ==> held == old(held))
          invariant forall p :: p in pending || Holds(p)
          invariant good ==> forall p :: Holds(p) && (p in pending ==> p in round)
          invariant InTime(looks, late) && InTime(sleeps, late) && Past(looks, clock) && Past(sleeps, clock)
          decreases round
        {
          var p :| p in round;
          round := round - {p};
          if late(clock) { return false, rounds, looks, sleeps; }
          looks, clock := looks + [clock], clock + 1;
          var a := ReadIndex(p);
          assert good ==> Holds(p);
          match a {
            case IndexDenied => return false, rounds, looks, sleeps;
            case NoInventory => return false, rounds, looks, sleeps;
            case NotReady =>
            case Versions(entry) =>
              if entry.Some? {
                if entry.value != Bundled(p) { return false, rounds, looks, sleeps; }
                pending := pending - {p};
              }
          }
        }
        assert good ==> pending == {};
        if pending == {} { return true, rounds, looks, sleeps; }
        if rounds < l.attempts {
          if late(clock) { return false, rounds, looks, sleeps; }
          sleeps, clock := sleeps + [clock], clock + 1;
        }
      }
      ready := false;
    }
  }

  /** What one release of a campaign is about. */
  datatype Attempt = Attempt(
    records: map<Package, string>, resuming: bool, limits: Limits, prompt: bool, known: set<Package>)

  /** Releases of one version, one after the other and with nobody else publishing it: each
      may publish another build, read stale answers, lose uploads and stop anywhere. */
  method Campaign(version: string, attempts: seq<Attempt>) returns (held: map<Package, Doc>)
    requires forall k | 0 <= k < |attempts| :: forall p :: p in attempts[k].records
    ensures Staged(held)
    ensures held == map[] || exists k | 0 <= k < |attempts| :: FromBuild(held, version, attempts[k].records)
  {
    held := map[];
    for n := 0 to |attempts|
      invariant Staged(held)
      invariant held == map[] || exists k | 0 <= k < n :: FromBuild(held, version, attempts[k].records)
    {
      var release := new Publication(version, attempts[n].records, true, attempts[n].prompt, attempts[n].known, held);
      var _, _ := release.Release(attempts[n].limits, attempts[n].resuming);
      held := release.held;
    }
  }
}
