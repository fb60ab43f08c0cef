/** scripts/github_release.py: the draft and publish protocol of one tag's GitHub release.

    Reads are linearizable and nobody else writes releases of this tag, but every request
    may fail, a write may be applied although its response is lost, an upload may stop
    halfway, and a run may end after any step and be started again in either mode. */
module GithubRelease {
  import opened Outcomes
  import opened Sequences

  // ----- qualify_run: which execution of a job counts -----

  datatype Job = Job(name: string, attempt: int, completed: bool, success: bool)

  function Executions(jobs: seq<Job>, name: string): seq<Job>
  {
    if jobs == [] then []
    else (if jobs[0].name == name then [jobs[0]] else []) + Executions(jobs[1..], name)
  }

  function Attempts(jobs: seq<Job>): (r: seq<int>)
    ensures |r| == |jobs| && forall i | 0 <= i < |r| :: r[i] == jobs[i].attempt
  {
    seq(|jobs|, (i: nat) requires i < |jobs| => jobs[i].attempt)
  }

  /** The newest attempt. */
  function Latest(jobs: seq<Job>): (m: int)
    requires jobs != []
    ensures exists i | 0 <= i < |jobs| :: jobs[i].attempt == m
    ensures forall i | 0 <= i < |jobs| :: jobs[i].attempt <= m
  {
    var attempts := Attempts(jobs);
    assert forall i | 0 <= i < |jobs| :: attempts[i] == jobs[i].attempt;
    Largest(attempts)
  }

  function OfAttempt(jobs: seq<Job>, attempt: int): seq<Job>
  {
    if jobs == [] then []
    else (if jobs[0].attempt == attempt then [jobs[0]] else []) + OfAttempt(jobs[1..], attempt)
  }

  /** The check of one prerequisite job. */
  predicate Succeeded(jobs: seq<Job>, name: string, current: int)
  {
    var matches := Executions(jobs, name);
    && matches != []
    && (forall i | 0 <= i < |matches| :: 1 <= matches[i].attempt <= current)
    && var latest := OfAttempt(matches, Latest(matches));
       |latest| == 1 && latest[0].completed && latest[0].success
  }

  lemma {:induction false} ExecutionsAre(jobs: seq<Job>, name: string, j: Job)
    ensures j in Executions(jobs, name) <==> j in jobs && j.name == name
  {
    if jobs != [] {
      ExecutionsAre(jobs[1..], name, j);
      assert jobs == [jobs[0]] + jobs[1..];
    }
  }

  lemma {:induction false} OfAttemptAre(jobs: seq<Job>, attempt: int, j: Job)
    ensures j in OfAttempt(jobs, attempt) <==> j in jobs && j.attempt == attempt
  {
    if jobs != [] {
      OfAttemptAre(jobs[1..], attempt, j);
      assert jobs == [jobs[0]] + jobs[1..];
    }
  }

  lemma {:induction false} ExecutionsJoin(a: seq<Job>, b: seq<Job>, name: string)
    ensures Executions(a + b, name) == Executions(a, name) + Executions(b, name)
  {
    if a == [] { assert a + b == b; } else {
      ExecutionsJoin(a[1..], b, name);
      assert (a + b)[0] == a[0] && (a + b)[1..] == a[1..] + b;
      Associates(if a[0].name == name then [a[0]] else [], Executions(a[1..], name), Executions(b, name));
    }
  }

  lemma {:induction false} OfAttemptJoin(a: seq<Job>, b: seq<Job>, attempt: int)
    ensures OfAttempt(a + b, attempt) == OfAttempt(a, attempt) + OfAttempt(b, attempt)
  {
    if a == [] { assert a + b == b; } else {
      OfAttemptJoin(a[1..], b, attempt);
      assert (a + b)[0] == a[0] && (a + b)[1..] == a[1..] + b;
      Associates(if a[0].attempt == attempt then [a[0]] else [], OfAttempt(a[1..], attempt), OfAttempt(b, attempt));
    }
  }

  /** The executions of a name and attempt, around one of them. */
  lemma Around(jobs: seq<Job>, i: nat, name: string)
    requires i < |jobs| && jobs[i].name == name
    ensures var n := jobs[i].attempt;
      OfAttempt(Executions(jobs, name), n) ==
        OfAttempt(Executions(jobs[..i], name), n) + ([jobs[i]] + OfAttempt(Executions(jobs[i + 1..], name), n))
  {
    var left, right, n := jobs[..i], jobs[i + 1..], jobs[i].attempt;
    assert jobs == left + ([jobs[i]] + right);
    ExecutionsJoin(left, [jobs[i]] + right, name);
    OfAttemptJoin(Executions(left, name), Executions([jobs[i]] + right, name), n);
  }

  /** Execution i has succeeded, and every other one of that name is of an older attempt. */
  ghost predicate Decides(jobs: seq<Job>, i: nat, name: string, current: int)
    requires i < |jobs|
  {
    && jobs[i].name == name && jobs[i].completed && jobs[i].success && 1 <= jobs[i].attempt <= current
    && forall k | 0 <= k < |jobs| && k != i && jobs[k].name == name :: 1 <= jobs[k].attempt < jobs[i].attempt
  }

  /** A job counts as succeeded exactly by the newest of its executions: an older success
      never hides a newer failure, and two executions in one attempt never count. */
  lemma NewestDecides(jobs: seq<Job>, name: string, current: int)
    ensures Succeeded(jobs, name, current) <==> exists i | 0 <= i < |jobs| :: Decides(jobs, i, name, current)
  {
    hide OfAttempt, Executions;
    var matches := Executions(jobs, name);
    forall j ensures j in matches <==> j in jobs && j.name == name { ExecutionsAre(jobs, name, j); }
    if Succeeded(jobs, name, current) {
      var newest := Latest(matches);
      var j := OfAttempt(matches, newest)[0];
      OfAttemptAre(matches, newest, j);
      var i :| 0 <= i < |jobs| && jobs[i] == j;
      Around(jobs, i, name);
      forall k | 0 <= k < |jobs| && k != i && jobs[k].name == name ensures 1 <= jobs[k].attempt < newest {
        assert jobs[k] in matches;
        if jobs[k].attempt == newest { Beside(jobs, i, k, name); }
      }
      assert Decides(jobs, i, name, current);
    }
    if i: nat :| i < |jobs| && Decides(jobs, i, name, current) {
      Alone(jobs, i, name, current);
    }
  }

  /** Another one of the same attempt is beside it. */
  lemma Beside(jobs: seq<Job>, i: nat, k: nat, name: string)
    requires i < |jobs| && k < |jobs| && i != k && jobs[i].name == jobs[k].name == name
    requires jobs[i].attempt == jobs[k].attempt
    ensures |OfAttempt(Executions(jobs, name), jobs[i].attempt)| > 1
  {
    hide OfAttempt, Executions;
    Around(jobs, i, name);
    var side := if k < i then jobs[..i] else jobs[i + 1..];
    assert jobs[k] == side[if k < i then k else k - i - 1];
    ExecutionsAre(side, name, jobs[k]);
    OfAttemptAre(Executions(side, name), jobs[i].attempt, jobs[k]);
  }

  lemma Alone(jobs: seq<Job>, i: nat, name: string, current: int)
    requires i < |jobs| && Decides(jobs, i, name, current)
    ensures Succeeded(jobs, name, current)
  {
    hide OfAttempt, Executions;
    var matches, n := Executions(jobs, name), jobs[i].attempt;
    forall j ensures j in matches <==> j in jobs && j.name == name { ExecutionsAre(jobs, name, j); }
    assert jobs[i] in matches;
    Around(jobs, i, name);
    NoneOfAttempt(jobs[..i], name, n);
    NoneOfAttempt(jobs[i + 1..], name, n);
    assert [] + ([jobs[i]] + []) == [jobs[i]];
    assert Latest(matches) == n;
  }

  lemma NoneOfAttempt(jobs: seq<Job>, name: string, attempt: int)
    requires forall k | 0 <= k < |jobs| && jobs[k].name == name :: jobs[k].attempt < attempt
    ensures OfAttempt(Executions(jobs, name), attempt) == []
  {
    var found := OfAttempt(Executions(jobs, name), attempt);
    if found != [] {
      OfAttemptAre(Executions(jobs, name), attempt, found[0]);
      ExecutionsAre(jobs, name, found[0]);
      assert false;
    }
  }

  // ----- releases -----

  /** What the server stores of an asset.  complete: its state is "uploaded". */
  datatype Asset = Asset(name: string, complete: bool, size: nat, digest: string)

  datatype File = File(size: nat, digest: string)

  datatype Release = Release(id: nat, target: string, name: string, body: string, draft: bool, prerelease: bool,
                             assets: seq<Asset>)

  /** What one tag's release has to look like: the identity, and the files of the bundle. */
  datatype Plan = Plan(target: string, name: string, body: string, files: map<string, File>)

  /** verify_release */
  predicate Identified(r: Release, p: Plan)
  {
    r.target == p.target && r.name == p.name && r.body == p.body && !r.prerelease
  }

  /** A file of the bundle as an asset. */
  function Whole(name: string, p: Plan): (a: Asset)
    requires name in p.files
    ensures Exact(a, p) && a.name == name
  {
    Asset(name, true, p.files[name].size, p.files[name].digest)
  }

  predicate Exact(a: Asset, p: Plan)
  {
    a.name in p.files && a.complete && a.size == p.files[a.name].size && a.digest == p.files[a.name].digest
  }

  function Names(assets: seq<Asset>): set<string>
  {
    set i | 0 <= i < |assets| :: assets[i].name
  }

  predicate Distinct(assets: seq<Asset>)
  {
    forall i, j | 0 <= i < j < |assets| :: assets[i].name != assets[j].name
  }

  predicate AllExact(assets: seq<Asset>, p: Plan)
  {
    Distinct(assets) && forall i | 0 <= i < |assets| :: Exact(assets[i], p)
  }

  /** The release carries exactly the files of the bundle. */
  predicate Full(r: Release, p: Plan)
  {
    AllExact(r.assets, p) && Names(r.assets) == p.files.Keys
  }

  /** What a stopped upload may leave: a file of the bundle, with its bytes if it is complete. */
  predicate Sound(a: Asset, p: Plan)
  {
    a.name in p.files && (a.complete ==> Exact(a, p))
  }

  /** The release as it has to be: its text as planned, and each file of the bundle once,
      complete, with its size and digest, and nothing else. */
  ghost predicate AsPlanned(r: Release, p: Plan)
  {
    && r == Release(r.id, p.target, p.name, p.body, r.draft, false, r.assets)
    && (forall i, j | 0 <= i < j < |r.assets| :: r.assets[i].name != r.assets[j].name)
    && forall a :: a in r.assets <==> a.name in p.files && a == Asset(
      a.name, true, p.files[a.name].size, p.files[a.name].digest)
  }

  lemma AsPlannedExactly(r: Release, p: Plan)
    ensures AsPlanned(r, p) <==> Identified(r, p) && Full(r, p)
  {
    hide Names;
    if Identified(r, p) && Full(r, p) {
      forall a ensures a in r.assets <==> a.name in p.files && Exact(a, p) { FullHolds(r, p, a); }
    }
    if AsPlanned(r, p) { PlannedIsFull(r, p); }
  }

  lemma FullHolds(r: Release, p: Plan, a: Asset)
    requires Full(r, p)
    ensures a in r.assets <==> a.name in p.files && Exact(a, p)
  {
    if a.name in p.files && Exact(a, p) {
      assert a.name in Names(r.assets);
      var i :| 0 <= i < |r.assets| && r.assets[i].name == a.name;
      assert Exact(r.assets[i], p) && r.assets[i] == a;
    }
  }

  lemma PlannedIsFull(r: Release, p: Plan)
    requires AsPlanned(r, p)
    ensures Full(r, p)
  {
    forall i | 0 <= i < |r.assets| ensures Exact(r.assets[i], p) && r.assets[i].name in p.files.Keys {
      assert r.assets[i] in r.assets;
    }
    forall n | n in p.files.Keys ensures n in Names(r.assets) {
      assert Whole(n, p) in r.assets;
    }
    assert Names(r.assets) == p.files.Keys;
  }

  datatype Mode = Draft | Publish

  /** What one run in a mode may do to the releases of the tag. */
  ghost predicate Changed(rs: seq<Release>, ts: seq<Release>, p: Plan, mode: Mode)
  {
    || rs == ts
    || (mode.Draft? && rs == [] && |ts| == 1 && ts[0].draft && Identified(ts[0], p) && Added([], ts[0].assets, p))
    || (mode.Draft? && |rs| == |ts| == 1 && rs[0].draft && Identified(rs[0], p) && AllExact(rs[0].assets, p)
        && ts[0] == rs[0].(assets := ts[0].assets) && Added(rs[0].assets, ts[0].assets, p))
    || (mode.Publish? && |rs| == |ts| == 1 && rs[0].draft && Identified(rs[0], p) && Full(rs[0], p)
        && ts[0] == rs[0].(draft := false))
  }

  /** Assets are only added, each under a new name of the bundle. */
  ghost predicate Added(a: seq<Asset>, b: seq<Asset>, p: Plan)
  {
    a <= b && Distinct(b) && forall i | |a| <= i < |b| :: Sound(b[i], p)
  }

  lemma AddedOne(a: seq<Asset>, b: seq<Asset>, x: Asset, p: Plan)
    requires a <= b && AllExact(b, p) && Sound(x, p) && x.name !in Names(b)
    ensures Added(a, b + [x], p)
  {
    assert forall i | 0 <= i < |b| :: b[i].name in Names(b);
  }

  lemma WholeOne(b: seq<Asset>, name: string, p: Plan)
    requires AllExact(b, p) && name in p.files && name !in Names(b)
    ensures AllExact(b + [Whole(name, p)], p) && name in Names(b + [Whole(name, p)])
  {
    hide Exact;
    assert forall i | 0 <= i < |b| :: b[i].name in Names(b);
    assert (b + [Whole(name, p)])[|b|].name == name;
  }

  lemma NowFull(before: Release, after: Release, p: Plan)
    requires before.assets <= after.assets && AllExact(after.assets, p)
    requires p.files.Keys - Names(before.assets) <= Names(after.assets)
    ensures Full(after, p)
  {
    NamesGrow(before.assets, after.assets);
    forall n | n in p.files.Keys ensures n in Names(after.assets) {
      if n !in Names(before.assets) { assert n in p.files.Keys - Names(before.assets); }
    }
    assert Names(after.assets) <= p.files.Keys;
  }

  lemma NamesGrow(a: seq<Asset>, b: seq<Asset>)
    requires a <= b
    ensures Names(a) <= Names(b)
  {
    forall i | 0 <= i < |a| ensures a[i].name in Names(b) { assert b[i] == a[i]; }
  }

  lemma AddedExact(a: seq<Asset>, b: seq<Asset>, p: Plan)
    requires a <= b && AllExact(b, p)
    ensures Added(a, b, p)
  {
  }

  /** Does a request get through?  reliable: every one does. */
  method Answers(reliable: bool) returns (ok: bool)
    ensures reliable ==> ok
  {
    if reliable { ok := true; } else { ok := *; }
  }

  /** find_release */
  method Find(releases: seq<Release>, reliable: bool) returns (r: Result<Option<Release>>)
    ensures r.Ok? ==> |releases| <= 1 && r.value == if releases == [] then None else Some(releases[0])
    ensures reliable && |releases| <= 1 ==> r.Ok?
  {
    var answered := Answers(reliable);
    if !answered || |releases| > 1 { return Refused; }
    r := Ok(if releases == [] then None else Some(releases[0]));
  }

  /** verify_assets: the files the release still lacks. */
  method Missing(r: Release, plan: Plan, reliable: bool) returns (missing: Result<set<string>>)
    ensures missing.Ok? ==> AllExact(r.assets, plan) && missing.value == plan.files.Keys - Names(r.assets)
    ensures missing.Ok? ==> (missing.value == {} <==> Full(r, plan))
    ensures reliable && AllExact(r.assets, plan) ==> missing.Ok?
  {
    var answered := Answers(reliable);
    if !answered { return Refused; }
    var seen: set<string> := {};
    for k := 0 to |r.assets|
      invariant AllExact(r.assets[..k], plan) && seen == Names(r.assets[..k])
    {
      var a := r.assets[k];
      assert r.assets[..k + 1] == r.assets[..k] + [a];
      if a.name !in plan.files || a.name in seen { return Refused; }
      if !a.complete || a.size != plan.files[a.name].size || a.digest != plan.files[a.name].digest { return Refused; }
      seen := seen + {a.name};
    }
    assert r.assets[..|r.assets|] == r.assets;
    assert forall n | n in Names(r.assets) :: n in plan.files;
    forall n | n in plan.files.Keys && plan.files.Keys - Names(r.assets) == {} ensures n in Names(r.assets) {
      assert n !in plan.files.Keys - Names(r.assets);
    }
    missing := Ok(plan.files.Keys - seen);
  }

  /** What a run in a mode can take up: nothing yet, a draft of the bundle's files, or, also
      for publishing, a release with all of them. */
  ghost predicate Startable(rs: seq<Release>, p: Plan, mode: Mode)
  {
    && |rs| <= 1 && (rs == [] ==> mode.Draft?)
    && (rs != [] ==>
          && Identified(rs[0], p) && AllExact(rs[0].assets, p)
          && ((rs[0].draft && mode.Draft?) || Full(rs[0], p)))
  }

  // ----- the order of requests -----

  datatype Event = Qualification(mode: Mode) | Looked | Creation | Transfer(name: string) | Publication

  /** What has to come right before a write: a qualification in its mode, and for an upload
      also a look at the release as it stands. */
  predicate Due(log: seq<Event>, e: Event)
  {
    match e
    case Creation => log != [] && log[|log| - 1] == Qualification(Draft)
    case Publication => log != [] && log[|log| - 1] == Qualification(Publish)
    case Transfer(_) => |log| >= 2 && log[|log| - 1] == Looked && log[|log| - 2] == Qualification(Draft)
    case _ => true
  }

  lemma DueAfterLook(log: seq<Event>, name: string)
    ensures Due(log + [Qualification(Draft)] + [Looked], Transfer(name))
  {
  }

  /** No write was sent on an older qualification or an older look: right before a creation
      stands a qualification for drafting, before a publication one for publishing, and
      before an upload one for drafting and then a look. */
  ghost predicate Guarded(log: seq<Event>)
  {
    forall i | 0 <= i < |log| :: OnTime(log, i)
  }

  ghost predicate OnTime(log: seq<Event>, i: nat)
    requires i < |log|
  {
    && (log[i] == Creation ==> i > 0 && log[i - 1] == Qualification(Draft))
    && (log[i] == Publication ==> i > 0 && log[i - 1] == Qualification(Publish))
    && (log[i].Transfer? ==> i > 1 && log[i - 2] == Qualification(Draft) && log[i - 1] == Looked)
  }

  lemma GuardedThen(log: seq<Event>, e: Event)
    requires Guarded(log) && Due(log, e)
    ensures Guarded(log + [e])
  {
    var longer := log + [e];
    forall i | 0 <= i < |longer| ensures OnTime(longer, i) {
      if i < |log| { assert OnTime(log, i); }
    }
  }

  /** From there on, at most five reads, each right after a qualification for drafting. */
  ghost predicate Reading(log: seq<Event>, start: nat)
  {
    && start <= |log| <= start + 10
    && forall i | start <= i < |log| :: log[i] == (if (i - start) % 2 == 0 then Qualification(Draft) else Looked)
  }

  /** The releases of one tag on the server, and one run of the script after another. */
  class Repository {
    const plan: Plan

    /** Whether every request of this run succeeds. */
    const reliable: bool

    /** The releases of the tag. */
    var releases: seq<Release>

    /** The writes that were sent, and everything in its order. */
    var creates: nat
    var uploads: nat
    var publications: nat
    var log: seq<Event>

    constructor (plan: Plan, releases: seq<Release>, reliable: bool)
      ensures this.plan == plan && this.releases == releases && this.reliable == reliable
      ensures log == [] && Writes() == (0, 0, 0)
    {
      this.plan, this.releases, this.reliable := plan, releases, reliable;
      creates, uploads, publications, log := 0, 0, 0, [];
    }

    function Writes(): (nat, nat, nat)
      reads this
    {
      (creates, uploads, publications)
    }

    /** qualify_run */
    method Qualify(mode: Mode) returns (ok: bool)
      requires Guarded(log)
      modifies this`log
      ensures Guarded(log) && (reliable ==> ok)
      ensures log == if ok then old(log) + [Qualification(mode)] else old(log)
    {
      ok := Answers(reliable);
      if ok {
        GuardedThen(log, Qualification(mode));
        log := log + [Qualification(mode)];
      }
    }

    /** find_release, as one request. */
    method Look() returns (r: Result<Option<Release>>)
      requires Guarded(log)
      modifies this`log
      ensures Guarded(log) && log == old(log) + [Looked]
      ensures r.Ok? ==> |releases| <= 1 && r.value == if releases == [] then None else Some(releases[0])
      ensures reliable && |releases| <= 1 ==> r.Ok?
    {
      GuardedThen(log, Looked);
      log := log + [Looked];
      r := Find(releases, reliable);
    }

    /** POST releases: the draft is created or not, whatever becomes of the response. */
    method Create()
      requires Guarded(log) && Due(log, Creation) && releases == []
      modifies this
      ensures Guarded(log) && Writes() == (old(creates) + 1, old(uploads), old(publications))
      ensures log == old(log) + [Creation]
      ensures releases == [] || (|releases| == 1 && releases[0].draft && Identified(releases[0], plan)
        && releases[0].assets == [])
      ensures reliable ==> releases != []
    {
      GuardedThen(log, Creation);
      creates, log := creates + 1, log + [Creation];
      var applied := Answers(reliable);
      if applied {
        var id: nat := *;
        releases := [Release(id, plan.target, plan.name, plan.body, true, false, [])];
      }
    }

    /** gh release upload without --clobber: nothing, half an asset, or the whole file. */
    method Upload(name: string)
      requires Guarded(log) && Due(log, Transfer(name))
      requires |releases| == 1 && name in plan.files && name !in Names(releases[0].assets)
      modifies this`releases, this`uploads, this`log
      ensures Guarded(log) && Writes() == (old(creates), old(uploads) + 1, old(publications))
      ensures log == old(log) + [Transfer(name)]
      ensures releases == old(releases)
        || exists a: Asset ::
          a.name == name && Sound(a, plan) && releases == [old(releases)[0].(assets := old(releases)[0].assets + [a])]
      ensures reliable ==> releases == [old(releases)[0].(assets := old(releases)[0].assets + [Whole(name, plan)])]
    {
      GuardedThen(log, Transfer(name));
      uploads, log := uploads + 1, log + [Transfer(name)];
      var applied := Answers(reliable);
      var complete := Answers(reliable);
      if applied {
        var a :=
          if complete then Whole(name, plan)
          else Asset(name, false, 0, "");
        releases := [releases[0].(assets := releases[0].assets + [a])];
      }
    }

    /** PATCH of the draft flag: applied or not, whatever becomes of the response. */
    method MakePublic(id: nat)
      requires Guarded(log) && Due(log, Publication) && |releases| == 1 && releases[0].id == id
      modifies this`releases, this`publications, this`log
      ensures Guarded(log) && Writes() == (old(creates), old(uploads), old(publications) + 1)
      ensures log == old(log) + [Publication]
      ensures releases == old(releases) || releases == [old(releases)[0].(draft := false)]
      ensures reliable ==> releases == [old(releases)[0].(draft := false)]
    {
      GuardedThen(log, Publication);
      publications, log := publications + 1, log + [Publication];
      var applied := Answers(reliable);
      if applied { releases := [releases[0].(draft := false)]; }
    }

    /** Create the draft and read it back. */
    method PrepareDraft() returns (r: Result<Release>)
      requires Guarded(log) && Due(log, Creation) && releases == []
      modifies this
      ensures Guarded(log) && old(log) <= log && Reading(log, |old(log)| + 1)
      ensures Changed([], releases, plan, Draft) && Writes() == (old(creates) + 1, old(uploads), old(publications))
      ensures r.Ok? ==> releases == [r.value] && r.value.assets == []
      ensures reliable ==> r.Ok?
    {
      Create();
      assert Changed([], releases, plan, Draft);
      for attempt := 0 to 5
        invariant releases == [] || (|releases| == 1 && releases[0].draft && Identified(releases[0], plan)
          && releases[0].assets == [])
        invariant Writes() == (old(creates) + 1, old(uploads), old(publications)) && Guarded(log)
        invariant reliable ==> attempt == 0 && releases != []
        invariant |log| == |old(log)| + 1 + 2 * attempt && old(log) <= log && Reading(log, |old(log)| + 1)
      {
        var ok := Qualify(Draft);
        if !ok { return Refused; }
        var found := Look();
        if found.Refused? { return Refused; }
        if found.value.Some? { return Ok(found.value.value); }
      }
      r := Refused;
    }

    /** Upload one missing file, after a new qualification and a new look at the release, and
        read it back exactly. */
    method UploadOne(release: Release, name: string) returns (ok: bool)
      requires |releases| == 1 && releases[0].draft && Identified(releases[0], plan) && releases[0].id == release.id
      requires AllExact(releases[0].assets, plan) && name in plan.files && Guarded(log)
      modifies this`releases, this`uploads, this`log
      ensures Guarded(log) && old(log) <= log && Writes() == (old(creates), uploads, old(publications))
      ensures |releases| == 1 && releases[0] == old(releases)[0].(assets := releases[0].assets)
      ensures releases == old(releases)
        || exists a :: Sound(a, plan) && a.name !in Names(old(releases)[0].assets)
             && releases[0].assets == old(releases)[0].assets + [a]
      ensures ok ==> AllExact(releases[0].assets, plan) && name in Names(releases[0].assets)
      ensures reliable ==> ok
    {
      hide Guarded, Due, AllExact, Sound, Exact, Names;
      var current := Qualify(Draft);
      if !current { return false; }
      var found := Look();
      if found.Refused? || found.value.None? || found.value.value.id != release.id { return false; }
      var now := found.value.value;
      if !Identified(now, plan) || !now.draft { return false; }
      var remaining := Missing(now, plan, reliable);
      if remaining.Refused? { return false; }
      if name in remaining.value {
        DueAfterLook(log[..|log| - 2], name);
        assert log == log[..|log| - 2] + [Qualification(Draft)] + [Looked];
        WholeOne(now.assets, name, plan);
        Upload(name);
        var after := Missing(releases[0], plan, reliable);
        if after.Refused? || name in after.value { return false; }
      }
      ok := true;
    }

    /** Upload what is missing, one file after the other. */
    method UploadMissing(release: Release, missing: set<string>) returns (ok: bool)
      requires releases == [release] && release.draft && Identified(release, plan) && AllExact(release.assets, plan)
      requires Guarded(log) && missing == plan.files.Keys - Names(release.assets)
      modifies this`releases, this`uploads, this`log
      ensures Guarded(log) && old(log) <= log
      ensures Changed([release], releases, plan, Draft)
      ensures Writes() == (old(creates), uploads, old(publications))
      ensures missing == {} ==> uploads == old(uploads) && releases == [release]
      ensures ok ==> |releases| == 1 && Full(releases[0], plan)
      ensures reliable ==> ok
    {
      hide Guarded, AllExact, Added, Sound, Exact, Names;
      AddedExact(release.assets, release.assets, plan);
      var names := missing;
      while names != {}
        invariant |releases| == 1 && releases[0] == release.(assets := releases[0].assets)
        invariant AllExact(releases[0].assets, plan) && release.assets <= releases[0].assets
        invariant Changed([release], releases, plan, Draft)
        invariant names <= missing && missing - names <= Names(releases[0].assets)
        invariant Writes() == (old(creates), uploads, old(publications)) && Guarded(log) && old(log) <= log
        invariant missing == {} ==> uploads == old(uploads) && releases == [release] && names == {}
        decreases names
      {
        var name :| name in names;
        names := names - {name};
        ghost var now := releases[0].assets;
        var done := UploadOne(release, name);
        if releases[0].assets != now { AddedOne(release.assets, now, releases[0].assets[|now|], plan); }
        assert Changed([release], releases, plan, Draft);
        NamesGrow(now, releases[0].assets);
        if !done { return false; }
      }
      NowFull(release, releases[0], plan);
      ok := true;
    }

    /** Look at the complete draft once more, and publish it in that mode. */
    method Finish(release: Release, mode: Mode) returns (r: Result<()>)
      requires |releases| == 1 && releases[0].draft && Identified(releases[0], plan) && Full(releases[0], plan)
      requires Guarded(log)
      modifies this
      ensures Guarded(log) && old(log) <= log && creates == old(creates) && uploads == old(uploads)
      ensures mode.Draft? ==> publications == old(publications)
      ensures releases == old(releases) || (mode.Publish? && releases == [old(releases)[0].(draft := false)])
      ensures r.Ok? ==> |releases| == 1 && Full(releases[0], plan) && (mode.Publish? ==> !releases[0].draft)
      ensures reliable && releases[0].id == release.id ==> r.Ok?
    {
      hide Guarded, Sound, Exact, Names;
      var again := Look();
      if again.Refused? || again.value.None? || again.value.value.id != release.id { return Refused; }
      var now := again.value.value;
      if !Identified(now, plan) { return Refused; }
      var still := Missing(now, plan, reliable);
      if still.Refused? || still.value != {} { return Refused; }
      var ready := Qualify(mode);
      if !ready { return Refused; }
      if mode.Draft? && !now.draft {
        // Only another writer could have published the draft since it was read.
        assert false;
      }
      if mode.Publish? && now.draft {
        MakePublic(now.id);
        var result := Look();
        if result.Refused? || result.value.None? || result.value.value.id != release.id { return Refused; }
        var public := result.value.value;
        if !Identified(public, plan) || public.draft { return Refused; }
        var last := Missing(public, plan, reliable);
        if last.Refused? || last.value != {} { return Refused; }
      }
      r := Ok(());
    }

    /** What is done with a draft: its missing files are uploaded, unless it is to be
        published, which needs all of them. */
    method Complete(release: Release, missing: set<string>, mode: Mode) returns (r: Result<()>)
      requires releases == [release] && release.draft && Identified(release, plan) && AllExact(release.assets, plan)
      requires Guarded(log) && missing == plan.files.Keys - Names(release.assets)
      requires missing == {} <==> Full(release, plan)
      modifies this
      ensures Guarded(log) && old(log) <= log && creates == old(creates)
      ensures Changed([release], releases, plan, mode)
      ensures mode.Publish? ==> uploads == old(uploads)
      ensures mode.Draft? ==> publications == old(publications)
      ensures r.Ok? ==> |releases| == 1 && Identified(releases[0], plan) && Full(releases[0], plan)
      ensures r.Ok? && mode.Publish? ==> !releases[0].draft && Full(release, plan)
      ensures reliable && (mode.Draft? || Full(release, plan)) ==> r.Ok?
    {
      hide Guarded, Sound, Exact, Names, AllExact, Added;
      if mode.Publish? && missing != {} { return Refused; }
      var uploaded := UploadMissing(release, missing);
      if !uploaded { return Refused; }
      r := Finish(release, mode);
    }

    /** manage */
    method Manage(mode: Mode) returns (r: Result<()>)
      requires Guarded(log)
      modifies this
      ensures Guarded(log) && old(log) <= log
      ensures if log == old(log) then r.Refused? && releases == old(releases) && Writes() == old(Writes())
        else log[|old(log)|] == Qualification(mode)
      ensures r.Ok? && old(releases) != [] && !old(releases)[0].draft ==>
        log == old(log) + [Qualification(mode)] + [Looked] + [Qualification(Publish)]
      ensures Changed(old(releases), releases, plan, mode)
      ensures mode.Publish? ==> creates == old(creates) && uploads == old(uploads)
      ensures mode.Draft? ==> publications == old(publications)
      ensures old(releases) != []
        && !(old(releases)[0].draft && Identified(old(releases)[0], plan) && AllExact(old(releases)[0].assets, plan))
        ==> Writes() == old(Writes())
      ensures r.Ok? ==> |releases| == 1 && AsPlanned(releases[0], plan)
      ensures r.Ok? && mode.Publish? ==> !releases[0].draft
      ensures r.Ok? ==> Startable(old(releases), plan, mode)
      ensures reliable && Startable(old(releases), plan, mode) ==> r.Ok?
    {
      hide Guarded, Sound, Exact, Names, AsPlanned;
      var start := Qualify(mode);
      if !start { return Refused; }
      var found := Look();
      if found.Refused? { return Refused; }
      var release: Release;
      if found.value.Some? {
        release := found.value.value;
      } else {
        if mode.Publish? { return Refused; }
        var current := Qualify(Draft);
        if !current { return Refused; }
        var created := PrepareDraft();
        if created.Refused? { return Refused; }
        release := created.value;
      }
      if !Identified(release, plan) { return Refused; }
      var missing := Missing(release, plan, reliable);
      if missing.Refused? { return Refused; }
      if !release.draft {
        var published := Qualify(Publish);
        if !published || missing.value != {} { return Refused; }
        AsPlannedExactly(release, plan);
        return Ok(());
      }
      r := Complete(release, missing.value, mode);
      AsPlannedExactly(releases[0], plan);
    }
  }

  // ----- campaigns of runs -----

  /** What holds between the runs: one release at most, drafted as planned, with sound
      assets only, and public only with exactly the files of the bundle. */
  ghost predicate Safe(rs: seq<Release>, p: Plan)
  {
    |rs| <= 1 && forall i | 0 <= i < |rs| ::
      && Identified(rs[i], p) && Distinct(rs[i].assets)
      && (forall j | 0 <= j < |rs[i].assets| :: Sound(rs[i].assets[j], p))
      && (!rs[i].draft ==> Full(rs[i], p))
  }

  lemma RunKeepsSafe(rs: seq<Release>, ts: seq<Release>, p: Plan, mode: Mode)
    requires Safe(rs, p) && Changed(rs, ts, p, mode)
    ensures Safe(ts, p)
  {
  }

  /** A sequence of runs, crashed or not. */
  ghost predicate Campaign(states: seq<seq<Release>>, modes: seq<Mode>, p: Plan)
  {
    |states| == |modes| + 1 && forall k | 0 <= k < |modes| :: Changed(states[k], states[k + 1], p, modes[k])
  }

  /** The later state has the same release or more of it. */
  ghost predicate Grew(rs: seq<Release>, ts: seq<Release>)
  {
    |rs| <= |ts| && forall i | 0 <= i < |rs| ::
      && ts[i] == rs[i].(assets := ts[i].assets, draft := ts[i].draft) && rs[i].assets <= ts[i].assets
      && (!rs[i].draft ==> ts[i] == rs[i])
  }

  lemma {:induction false} CampaignGrows(states: seq<seq<Release>>, modes: seq<Mode>, p: Plan, i: nat, j: nat)
    requires Campaign(states, modes, p) && Safe(states[0], p) && i <= j < |states|
    ensures Safe(states[j], p) && Grew(states[i], states[j])
    decreases j
  {
    if j > 0 {
      CampaignGrows(states, modes, p, if i == j then j - 1 else i, j - 1);
      assert Changed(states[j - 1], states[j], p, modes[j - 1]);
      RunKeepsSafe(states[j - 1], states[j], p, modes[j - 1]);
    }
  }

  /** Whatever sequence of runs starts without a release of the tag: there is at most one,
      its assets are only ever added and complete ones have the planned bytes, it becomes
      public only in a publishing run that found exactly the planned files, and from then
      on it never changes. */
  lemma CampaignSafe(states: seq<seq<Release>>, modes: seq<Mode>, p: Plan, i: nat, j: nat)
    requires Campaign(states, modes, p) && states[0] == [] && i <= j < |states|
    ensures |states[j]| <= 1 && Grew(states[i], states[j])
    ensures forall r | r in states[j] :: r.target == p.target && r.name == p.name && r.body == p.body && !r.prerelease
    ensures forall r, a | r in states[j] && a in r.assets ::
      a.name in p.files && (a.complete ==> a == Asset(a.name, true, p.files[a.name].size, p.files[a.name].digest))
    ensures states[i] != [] && !states[i][0].draft ==> states[j] == states[i] && AsPlanned(states[j][0], p)
    ensures states[j] != [] && !states[j][0].draft ==>
      exists k :: 0 <= k < j && modes[k].Publish? && |states[k]| == 1 && states[k][0].draft && Full(states[k][0], p)
        && states[k + 1] == states[j] && states[j] == [states[k][0].(draft := false)]
  {
    CampaignGrows(states, modes, p, i, j);
    if states[j] != [] { AsPlannedExactly(states[j][0], p); }
    if states[j] != [] && !states[j][0].draft { var k := BecamePublic(states, modes, p, j); }
  }

  lemma {:induction false} BecamePublic(states: seq<seq<Release>>, modes: seq<Mode>, p: Plan, j: nat) returns (k: nat)
    requires Campaign(states, modes, p) && states[0] == [] && j < |states| && states[j] != [] && !states[j][0].draft
    ensures k < j && modes[k].Publish? && |states[k]| == 1 && states[k][0].draft && Full(states[k][0], p)
      && states[k + 1] == states[j] && states[j] == [states[k][0].(draft := false)]
  {
    assert Changed(states[j - 1], states[j], p, modes[j - 1]);
    if states[j - 1] == states[j] { k := BecamePublic(states, modes, p, j - 1); } else { k := j - 1; }
  }
}
