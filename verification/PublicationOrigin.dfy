/** scripts/pypi_channel_publication.py: which job record is the execution that published.

    GitHub re-exposes an earlier successful job in later attempts of the same run.  Such an
    alias repeats the facts of the execution but was created after it; a genuine record was
    created before it started. */
module PublicationOrigin {
  import opened Outcomes
  import opened Sequences

  // ----- records -----

  datatype Conclusion = Success | Skipped | OtherConclusion

  /** A timestamp as GitHub writes it, and the instant it denotes. */
  datatype Time = Time(text: string, at: int)

  /** None is a missing time. */
  datatype Step = Step(number: int, name: string, completed: bool, conclusion: Conclusion,
                       begin: Option<Time>, end: Option<Time>)

  datatype Runner = Runner(id: int, name: string, group: Option<int>, groupName: string, labels: seq<string>)

  /** inScope: run, head and branch are those of the run.  wellFormed: no text is missing or
      blank, and every time that is there parses. */
  datatype Job = Job(id: int, attempt: int, completed: bool, success: bool, inScope: bool, wellFormed: bool,
                     name: string, workflow: string, runner: Runner,
                     created: Time, started: Time, ended: Time, steps: seq<Step>)

  const HOSTED := "GitHub Actions"

  /** GitHub shows its default group as null or as zero. */
  function GroupOf(r: Runner): Option<int>
  {
    if r.group.None? && r.groupName == HOSTED then Some(0) else r.group
  }

  predicate ValidRunner(r: Runner)
  {
    r.id >= 1 && GroupOf(r).Some? && GroupOf(r).value >= 0 && r.labels != []
    && NoRepeats(r.labels)
  }

  /** The steps of an execution, each within it, in the order of their numbers. */
  predicate ValidSteps(steps: seq<Step>, started: int, ended: int)
  {
    steps != [] && ValidUpto(steps, |steps|, started, ended) && SuccessUpto(steps, |steps|)
  }

  predicate ValidUpto(steps: seq<Step>, n: nat, started: int, ended: int)
    requires n <= |steps|
  {
    forall i | 0 <= i < n :: InOrder(steps, i) && ValidStep(steps[i], started, ended)
  }

  predicate SuccessUpto(steps: seq<Step>, n: nat)
    requires n <= |steps|
  {
    exists i | 0 <= i < n :: steps[i].conclusion.Success?
  }

  predicate InOrder(steps: seq<Step>, i: nat)
    requires i < |steps|
  {
    steps[i].number > if i == 0 then 0 else steps[i - 1].number
  }

  predicate ValidStep(s: Step, started: int, ended: int)
  {
    && s.name != "" && s.completed && !s.conclusion.OtherConclusion?
    && ((s.conclusion.Skipped? && s.begin.None? && s.end.None?)
        || (s.begin.Some? && s.end.Some? && started <= s.begin.value.at <= s.end.value.at <= ended))
  }

  /** The checks of _publisher_execution on a record. */
  predicate Valid(j: Job)
  {
    && j.id >= 1 && j.inScope && j.wellFormed && ValidRunner(j.runner)
    && j.started.at <= j.ended.at && !(j.started.at < j.created.at <= j.ended.at)
    && ValidSteps(j.steps, j.started.at, j.ended.at)
  }

  predicate Genuine(j: Job) { j.created.at <= j.started.at }

  /** What identifies an execution.  Times are compared as they are written: two texts for
      one instant differ. */
  datatype Facts = Facts(name: string, workflow: string, started: string, ended: string,
                         runner: Runner, steps: seq<StepFacts>)

  datatype StepFacts = StepFacts(number: int, name: string, conclusion: Conclusion,
                                 begin: Option<string>, end: Option<string>)

  function Written(t: Option<Time>): Option<string>
  {
    if t.None? then None else Some(t.value.text)
  }

  function StepsOf(steps: seq<Step>): (r: seq<StepFacts>)
  {
    seq(|steps|, (i: nat) requires i < |steps| =>
      StepFacts(steps[i].number, steps[i].name, steps[i].conclusion, Written(steps[i].begin), Written(steps[i].end)))
  }

  /** The identity _publisher_execution returns. */
  function FactsOf(j: Job): Facts
  {
    Facts(j.name, j.workflow, j.started.text, j.ended.text, j.runner.(group := GroupOf(j.runner)), StepsOf(j.steps))
  }

  /** The loop over the steps. */
  method CheckSteps(steps: seq<Step>, started: int, ended: int) returns (ok: bool)
    ensures ok <==> ValidSteps(steps, started, ended)
  {
    hide ValidUpto, SuccessUpto, ValidStep;
    NoSteps(steps, started, ended);
    if steps == [] { return false; }
    var previous, succeeded := 0, false;
    for k := 0 to |steps|
      invariant previous == if k == 0 then 0 else steps[k - 1].number
      invariant ValidUpto(steps, k, started, ended) && (succeeded <==> SuccessUpto(steps, k))
    {
      var s := steps[k];
      NextStep(steps, k, started, ended);
      if s.number <= previous { return false; }
      var valid := CheckStep(s, started, ended);
      if !valid { return false; }
      previous := s.number;
      if s.conclusion.Success? { succeeded := true; }
    }
    ok := succeeded;
  }

  lemma NoSteps(steps: seq<Step>, started: int, ended: int)
    ensures ValidUpto(steps, 0, started, ended) && !SuccessUpto(steps, 0)
  {
  }

  lemma NextStep(steps: seq<Step>, k: nat, started: int, ended: int)
    requires k < |steps|
    ensures ValidUpto(steps, k + 1, started, ended) <==>
      ValidUpto(steps, k, started, ended) && InOrder(steps, k) && ValidStep(steps[k], started, ended)
    ensures SuccessUpto(steps, k + 1) <==> SuccessUpto(steps, k) || steps[k].conclusion.Success?
    ensures ValidUpto(steps, |steps|, started, ended) ==> ValidUpto(steps, k + 1, started, ended)
  {
    hide ValidStep;
    if SuccessUpto(steps, k) {
      var i :| 0 <= i < k && steps[i].conclusion.Success?;
      assert SuccessUpto(steps, k + 1);
    }
  }

  /** The checks on one step. */
  method CheckStep(s: Step, started: int, ended: int) returns (ok: bool)
    ensures ok <==> ValidStep(s, started, ended)
  {
    if s.name == "" || !s.completed || s.conclusion.OtherConclusion? { return false; }
    if s.conclusion.Skipped? && s.begin.None? && s.end.None? { return true; }
    ok := s.begin.Some? && s.end.Some? && started <= s.begin.value.at <= s.end.value.at <= ended;
  }

  /** A runner with an id, a group, which GitHub shows as null for its default one, and
      distinct labels. */
  ghost predicate ProperRunner(r: Runner)
  {
    && r.id > 0 && r.labels != [] && multiset(r.labels) == multiset(set name | name in r.labels)
    && match r.group { case None => r.groupName == "GitHub Actions" case Some(group) => group >= 0 }
  }

  /** A step that was completed in time, or skipped without a time. */
  ghost predicate ProperStep(s: Step, started: int, ended: int)
  {
    && |s.name| > 0 && s.completed && s.conclusion in {Success, Skipped}
    && match (s.begin, s.end) {
         case (None, None) => s.conclusion == Skipped
         case (Some(begin), Some(end)) => started <= begin.at && begin.at <= end.at && end.at <= ended
         case _ => false
       }
  }

  /** The record of a finished execution in this run: it ended no sooner than it began, was
      created before it began or after it ended, and its steps, of which one succeeded, are
      numbered upwards from one. */
  ghost predicate ProperRecord(j: Job)
  {
    && j.id > 0 && j.inScope && j.wellFormed && ProperRunner(j.runner)
    && j.started.at <= j.ended.at && (j.created.at <= j.started.at || j.created.at > j.ended.at)
    && ProperSteps(j.steps, j.started.at, j.ended.at)
  }

  ghost predicate ProperSteps(steps: seq<Step>, started: int, ended: int)
  {
    && (exists i | 0 <= i < |steps| :: steps[i].conclusion == Success)
    && (forall i | 0 <= i < |steps| :: ProperStep(steps[i], started, ended) && steps[i].number > 0)
    && (forall i, k | 0 <= i < k < |steps| :: steps[i].number < steps[k].number)
  }

  /** Two records show the same execution: everything but id, attempt and creation is written
      the same, and a null default group is group zero. */
  ghost predicate SameExecution(a: Job, b: Job)
  {
    && a.name == b.name && a.workflow == b.workflow
    && a.started.text == b.started.text && a.ended.text == b.ended.text
    && a.runner.(group := None) == b.runner.(group := None)
    && (a.runner.group == b.runner.group
        || (a.runner.groupName == "GitHub Actions" && {a.runner.group, b.runner.group} == {None, Some(0)}))
    && |a.steps| == |b.steps| && forall i | 0 <= i < |a.steps| :: SameStep(a.steps[i], b.steps[i])
  }

  ghost predicate SameStep(s: Step, t: Step)
  {
    && s.number == t.number && s.name == t.name && s.conclusion == t.conclusion
    && SameText(s.begin, t.begin) && SameText(s.end, t.end)
  }

  ghost predicate SameText(a: Option<Time>, b: Option<Time>)
  {
    a == b || (a.Some? && b.Some? && a.value.text == b.value.text)
  }

  lemma FactsExactly(a: Job, b: Job)
    ensures FactsOf(a) == FactsOf(b) <==> SameExecution(a, b)
  {
    StepsExactly(a.steps, b.steps);
    var x, y := a.runner, b.runner;
    assert x.(group := GroupOf(x)) == y.(group := GroupOf(y)) <==>
      x.(group := None) == y.(group := None) && GroupOf(x) == GroupOf(y);
    if x.group == None && y.group == Some(0) { assert {x.group, y.group} == {None, Some(0)}; }
    if x.group == Some(0) && y.group == None { assert {x.group, y.group} == {None, Some(0)}; }
    if {x.group, y.group} == {None, Some(0)} {
      assert x.group in {None, Some(0)} && y.group in {None, Some(0)};
    }
  }

  lemma StepsExactly(a: seq<Step>, b: seq<Step>)
    ensures StepsOf(a) == StepsOf(b) <==> |a| == |b| && forall i | 0 <= i < |a| :: SameStep(a[i], b[i])
  {
    if StepsOf(a) == StepsOf(b) {
      assert |StepsOf(a)| == |a| && |StepsOf(b)| == |b|;
      forall i | 0 <= i < |a| ensures SameStep(a[i], b[i]) { assert StepsOf(a)[i] == StepsOf(b)[i]; }
    }
  }

  lemma {:induction false} NumbersRise(steps: seq<Step>, n: nat)
    requires n <= |steps| && forall i | 0 <= i < n :: InOrder(steps, i)
    ensures forall i | 0 <= i < n :: steps[i].number > 0
    ensures forall i, k | 0 <= i < k < n :: steps[i].number < steps[k].number
  {
    if n > 0 {
      NumbersRise(steps, n - 1);
      assert InOrder(steps, n - 1);
    }
  }

  lemma {:induction false} NoRepeatsExactly(s: seq<string>)
    ensures NoRepeats(s) <==> multiset(s) == multiset(set x | x in s)
  {
    var all := set x | x in s;
    if NoRepeats(s) {
      forall x ensures multiset(s)[x] == multiset(all)[x] {
        OnceCounts(s, x);
        assert x in s <==> x in multiset(s);
      }
    }
    if multiset(s) == multiset(all) {
      forall i, k | 0 <= i < k < |s| ensures s[i] != s[k] {
        if s[i] == s[k] { TwiceCounts(s, i, k); }
      }
    }
  }

  /** _publisher_execution accepts exactly these records. */
  lemma ValidExactly(j: Job)
    ensures Valid(j) <==> ProperRecord(j)
  {
    hide ValidSteps, ProperSteps, NoRepeats;
    NoRepeatsExactly(j.runner.labels);
    if ValidSteps(j.steps, j.started.at, j.ended.at) { ValidAreProper(j.steps, j.started.at, j.ended.at); }
    if ProperSteps(j.steps, j.started.at, j.ended.at) { ProperAreValid(j.steps, j.started.at, j.ended.at); }
  }

  lemma ValidAreProper(steps: seq<Step>, started: int, ended: int)
    requires ValidSteps(steps, started, ended)
    ensures ProperSteps(steps, started, ended)
  {
    hide ProperStep, ValidStep, InOrder;
    NumbersRise(steps, |steps|);
    forall i | 0 <= i < |steps| ensures ProperStep(steps[i], started, ended) {
      StepExactly(steps[i], started, ended);
    }
  }

  lemma ProperAreValid(steps: seq<Step>, started: int, ended: int)
    requires ProperSteps(steps, started, ended)
    ensures ValidSteps(steps, started, ended)
  {
    hide ProperStep, ValidStep;
    forall i | 0 <= i < |steps| ensures InOrder(steps, i) && ValidStep(steps[i], started, ended) {
      StepExactly(steps[i], started, ended);
    }
  }

  lemma StepExactly(s: Step, started: int, ended: int)
    ensures ProperStep(s, started, ended) <==> ValidStep(s, started, ended)
  {
  }

  /** _publisher_execution */
  method PublisherExecution(j: Job) returns (r: Result<(Facts, bool)>)
    ensures r == if Valid(j) then Ok((FactsOf(j), Genuine(j))) else Refused
    ensures r.Ok? <==> ProperRecord(j)
    ensures r.Ok? ==> (r.value.1 <==> j.created.at <= j.started.at)
  {
    ValidExactly(j);
    hide ProperRecord;
    hide ValidRunner, FactsOf, ValidSteps;
    if j.id < 1 || !j.inScope || !j.wellFormed { return Refused; }
    if !ValidRunner(j.runner) { return Refused; }
    if j.started.at > j.ended.at || j.started.at < j.created.at <= j.ended.at { return Refused; }
    var steps := CheckSteps(j.steps, j.started.at, j.ended.at);
    if !steps { return Refused; }
    r := Ok((FactsOf(j), Genuine(j)));
  }

  // ----- choosing -----

  function Filter<T>(s: seq<T>, f: T -> bool): seq<T>
  {
    if s == [] then [] else (if f(s[0]) then [s[0]] else []) + Filter(s[1..], f)
  }

  lemma {:induction false} FilterCounts<T>(s: seq<T>, f: T -> bool, x: T)
    ensures multiset(Filter(s, f))[x] == if f(x) then multiset(s)[x] else 0
  {
    if s != [] {
      FilterCounts(s[1..], f, x);
      assert s == [s[0]] + s[1..];
    }
  }

  /** x is the only element that satisfies f, and occurs once. */
  ghost predicate Lone<T(!new)>(s: seq<T>, f: T -> bool, x: T)
  {
    f(x) && multiset(s)[x] == 1 && forall y | y in multiset(s) && f(y) :: y == x
  }

  lemma FilterLone<T(!new)>(s: seq<T>, f: T -> bool, x: T)
    ensures Filter(s, f) == [x] <==> Lone(s, f, x)
  {
    var t := Filter(s, f);
    forall y ensures multiset(t)[y] == if f(y) then multiset(s)[y] else 0 { FilterCounts(s, f, y); }
    if t == [x] {
      forall y | y in multiset(s) && f(y) ensures y == x { assert y in multiset(t); }
      assert multiset(t)[x] == 1;
    }
    if Lone(s, f, x) {
      assert multiset(t) == multiset{x};
      assert |t| == |multiset(t)| == 1;
      assert t[0] in multiset(t);
    }
  }

  lemma {:induction false} FilterNone<T(!new)>(s: seq<T>, f: T -> bool)
    requires forall y | y in multiset(s) :: !f(y)
    ensures Filter(s, f) == []
  {
    if s != [] {
      assert s == [s[0]] + s[1..];
      FilterNone(s[1..], f);
    }
  }

  predicate Successful(j: Job) { j.completed && j.success }

  predicate DistinctIds(jobs: seq<Job>)
  {
    forall i, k | 0 <= i < k < |jobs| :: jobs[i].id != jobs[k].id
  }

  function Attempts(jobs: seq<Job>): (r: seq<int>)
    ensures |r| == |jobs| && forall i | 0 <= i < |r| :: r[i] == jobs[i].attempt
  {
    seq(|jobs|, (i: nat) requires i < |jobs| => jobs[i].attempt)
  }

  /** The newest attempt. */
  function Latest(jobs: seq<Job>): (m: int)
    requires jobs != []
    ensures exists i | 0 <= i < |jobs| :: jobs[i].attempt == m
    ensures forall i | 0 <= i < |jobs| :: jobs[i].attempt <= m
  {
    var attempts := Attempts(jobs);
    assert forall i | 0 <= i < |jobs| :: attempts[i] == jobs[i].attempt;
    Largest(attempts)
  }

  function Of(jobs: seq<Job>, attempt: int): seq<Job>
  {
    Filter(jobs, (j: Job) => j.attempt == attempt)
  }

  /** The selection of publication_run for one job name. */
  function Selected(jobs: seq<Job>, current: int): Result<Job>
  {
    if jobs == [] || exists i | 0 <= i < |jobs| :: !(1 <= jobs[i].attempt <= current) then Refused
    else
      var newest := Of(jobs, Latest(jobs));
      if |newest| != 1 || !Successful(newest[0]) || newest[0].id < 1 then Refused else Ok(newest[0])
  }

  predicate Earlier(j: Job, selected: Job)
  {
    Successful(j) && Genuine(j) && j.attempt < selected.attempt && FactsOf(j) == FactsOf(selected)
  }

  function Origins(jobs: seq<Job>, selected: Job): seq<Job>
  {
    Filter(jobs, (j: Job) => Earlier(j, selected))
  }

  /** An alias that follows the origin. */
  predicate Alias(j: Job, selected: Job)
  {
    Successful(j) && Valid(j) && FactsOf(j) == FactsOf(selected)
  }

  /** _publication_origin */
  method FindOrigin(selected: Job, jobs: seq<Job>) returns (r: Result<Job>)
    ensures r == Origin(selected, jobs)
  {
    hide Valid, FactsOf, Filter, Genuine, Of, Origins, DistinctIds;
    var successful := Filter(jobs, Successful);
    for k := 0 to |successful|
      invariant forall i | 0 <= i < k :: Valid(successful[i])
    {
      var execution := PublisherExecution(successful[k]);
      if execution.Refused? { return Refused; }
    }
    if !DistinctIds(successful) { return Refused; }
    var execution := PublisherExecution(selected);
    if execution.Refused? { return Refused; }
    var original := execution.value.1;
    var origins := Origins(jobs, selected);
    if |origins| + (if original then 1 else 0) > 1 { return Refused; }
    if origins == [] && !original { return Refused; }
    var origin := if origins != [] then origins[0] else selected;
    if |Of(jobs, origin.attempt)| != 1 { return Refused; }
    for k := 0 to |jobs|
      invariant forall i | 0 <= i < k :: jobs[i].attempt <= origin.attempt || Alias(jobs[i], selected)
    {
      if jobs[k].attempt > origin.attempt {
        if !Successful(jobs[k]) { return Refused; }
        var later := PublisherExecution(jobs[k]);
        if later.Refused? || later.value.0 != execution.value.0 { return Refused; }
      }
    }
    r := Ok(origin);
  }

  /** What FindOrigin answers. */
  function Origin(selected: Job, jobs: seq<Job>): Result<Job>
  {
    var successful, origins, original := Filter(jobs, Successful), Origins(jobs, selected), Genuine(selected);
    if !(forall i | 0 <= i < |successful| :: Valid(successful[i])) || !DistinctIds(successful)
      || !Valid(selected) then Refused
    else if |origins| + (if original then 1 else 0) != 1 then Refused
    else
      var origin := if origins != [] then origins[0] else selected;
      if |Of(jobs, origin.attempt)| != 1 then Refused
      else if exists i | 0 <= i < |jobs| ::
        !(jobs[i].attempt <= origin.attempt || Alias(jobs[i], selected)) then Refused
      else Ok(origin)
  }

  /** publication_run's answer for the publisher's records. */
  function Publication(jobs: seq<Job>, current: int): Result<Job>
  {
    match Selected(jobs, current)
    case Refused => Refused
    case Ok(selected) => Origin(selected, jobs)
  }

  // ----- what the answer means -----

  /** What the meaning below is about: a record is genuine if it was created no later than
      it began, and an alias is a proper record of the same execution. */
  lemma RecordsExactly(j: Job, selected: Job)
    ensures Successful(j) <==> j.completed && j.success
    ensures Genuine(j) <==> j.created.at <= j.started.at
    ensures Alias(j, selected) <==> j.completed && j.success && ProperRecord(j) && SameExecution(j, selected)
  {
    ValidExactly(j);
    FactsExactly(j, selected);
  }

  /** The records are attempts of this run, the successful ones are valid executions, and no
      two of those share an id. */
  ghost predicate Sound(jobs: seq<Job>, current: int)
  {
    && (forall j | j in multiset(jobs) :: 1 <= j.attempt <= current)
    && (forall j | j in multiset(jobs) && Successful(j) :: Valid(j) && multiset(jobs)[j] == 1)
    && (forall j, k | j in multiset(jobs) && k in multiset(jobs) && Successful(j) && Successful(k)
      && j.id == k.id :: j == k)
  }

  /** selected is the only record of the newest attempt. */
  ghost predicate Newest(jobs: seq<Job>, selected: Job)
  {
    && multiset(jobs)[selected] == 1
    && forall j | j in multiset(jobs) :: j == selected || j.attempt < selected.attempt
  }

  /** o is the only genuine execution with the facts of the newest record, the only record
      of its attempt, and everything later is an alias of it. */
  ghost predicate IsOrigin(jobs: seq<Job>, selected: Job, o: Job)
  {
    && multiset(jobs)[o] == 1 && Genuine(o) && Alias(o, selected)
    && (forall j | j in multiset(jobs) :: j == o || j.attempt != o.attempt)
    && (forall j | j in multiset(jobs) && j.attempt > o.attempt :: Alias(j, selected) && !Genuine(j))
    && (forall j | j in multiset(jobs) && Successful(j) && Genuine(j) && FactsOf(j) == FactsOf(selected) :: j == o)
  }

  ghost predicate Published(jobs: seq<Job>, current: int, o: Job)
  {
    Sound(jobs, current) && exists s: Job :: Newest(jobs, s) && Successful(s) && IsOrigin(jobs, s, o)
  }

  lemma NewestIsSelected(jobs: seq<Job>, current: int, s: Job)
    requires Newest(jobs, s) && Successful(s) && Sound(jobs, current)
    ensures Selected(jobs, current) == Ok(s)
  {
    hide Sound, Valid, Filter;
    var f := (j: Job) => j.attempt == Latest(jobs);
    NewestIsLone(jobs, s, f);
    FilterLone(jobs, f, s);
    ValidId(jobs, current, s);
  }

  lemma NewestIsLone(jobs: seq<Job>, s: Job, f: Job -> bool)
    requires Newest(jobs, s) && jobs != [] && f == ((j: Job) => j.attempt == Latest(jobs))
    ensures Lone(jobs, f, s)
  {
    var i :| 0 <= i < |jobs| && jobs[i].attempt == Latest(jobs);
    assert jobs[i] in multiset(jobs) && s in multiset(jobs);
  }

  lemma ValidId(jobs: seq<Job>, current: int, s: Job)
    requires Newest(jobs, s) && Successful(s) && Sound(jobs, current)
    ensures s.id >= 1 && forall i | 0 <= i < |jobs| :: 1 <= jobs[i].attempt <= current
  {
    assert s in multiset(jobs);
    forall i | 0 <= i < |jobs| ensures 1 <= jobs[i].attempt <= current { assert jobs[i] in multiset(jobs); }
  }

  lemma SelectedIsNewest(jobs: seq<Job>, current: int)
    requires Selected(jobs, current).Ok?
    ensures Newest(jobs, Selected(jobs, current).value) && Successful(Selected(jobs, current).value)
    ensures forall j | j in multiset(jobs) :: 1 <= j.attempt <= current
  {
    var s := Selected(jobs, current).value;
    var f := (j: Job) => j.attempt == Latest(jobs);
    assert Filter(jobs, f) == [s];
    FilterLone(jobs, f, s);
  }

  lemma SuccessfulAre(jobs: seq<Job>, current: int)
    requires forall j | j in multiset(jobs) :: 1 <= j.attempt <= current
    ensures Sound(jobs, current) <==>
      var t := Filter(jobs, Successful); (forall i | 0 <= i < |t| :: Valid(t[i])) && DistinctIds(t)
  {
    hide Valid, Sound;
    var t := Filter(jobs, Successful);
    if Sound(jobs, current) { SoundFilters(jobs, current); }
    if (forall i | 0 <= i < |t| :: Valid(t[i])) && DistinctIds(t) { FilterSound(jobs, current); }
  }

  lemma SoundFilters(jobs: seq<Job>, current: int)
    requires Sound(jobs, current)
    ensures var t := Filter(jobs, Successful); (forall i | 0 <= i < |t| :: Valid(t[i])) && DistinctIds(t)
  {
    hide Valid, Filter;
    var t := Filter(jobs, Successful);
    forall j
      ensures multiset(t)[j] == if Successful(j) then multiset(jobs)[j] else 0
    {
      FilterCounts(jobs, Successful, j);
    }
    forall i | 0 <= i < |t| ensures Valid(t[i]) { assert t[i] in multiset(t); }
    forall i, k | 0 <= i < k < |t| ensures t[i].id != t[k].id {
      assert t[i] in multiset(t) && t[k] in multiset(t);
      if t[i] == t[k] { TwiceCounts(t, i, k); }
    }
  }

  lemma FilterSound(jobs: seq<Job>, current: int)
    requires forall j | j in multiset(jobs) :: 1 <= j.attempt <= current
    requires var t := Filter(jobs, Successful); (forall i | 0 <= i < |t| :: Valid(t[i])) && DistinctIds(t)
    ensures Sound(jobs, current)
  {
    hide Valid, Filter;
    var t := Filter(jobs, Successful);
    forall j
      ensures multiset(t)[j] == if Successful(j) then multiset(jobs)[j] else 0
    {
      FilterCounts(jobs, Successful, j);
    }
    forall j | j in multiset(jobs) && Successful(j) ensures Valid(j) && multiset(jobs)[j] == 1 {
      assert j in multiset(t);
      DistinctOnce(t, j);
    }
    forall j, k | j in multiset(jobs) && k in multiset(jobs) && Successful(j) && Successful(k) && j.id == k.id
      ensures j == k
    {
      assert j in multiset(t) && k in multiset(t);
    }
  }

  lemma {:induction false} DistinctOnce(t: seq<Job>, j: Job)
    requires DistinctIds(t)
    ensures multiset(t)[j] <= 1
  {
    if t != [] {
      assert t == [t[0]] + t[1..];
      DistinctOnce(t[1..], j);
      forall i | 0 <= i < |t[1..]| ensures t[1..][i] != t[0] { assert t[1..][i] == t[i + 1]; }
    }
  }

  /** Before the origin there is no other candidate for it. */
  lemma OriginsAre(jobs: seq<Job>, s: Job, o: Job)
    requires Newest(jobs, s) && Successful(s) && IsOrigin(jobs, s, o)
    ensures Origins(jobs, s) == if o == s then [] else [o]
    ensures o == s <==> Genuine(s)
  {
    hide Valid, FactsOf, Filter;
    var f := (j: Job) => Earlier(j, s);
    assert s in multiset(jobs) && o in multiset(jobs);
    if o == s {
      FilterNone(jobs, f);
    } else {
      FilterLone(jobs, f, o);
    }
  }

  lemma NothingElse(jobs: seq<Job>, s: Job, o: Job)
    requires IsOrigin(jobs, s, o)
    ensures |Of(jobs, o.attempt)| == 1
    ensures forall i | 0 <= i < |jobs| :: jobs[i].attempt <= o.attempt || Alias(jobs[i], s)
  {
    hide Valid, FactsOf, Filter, Genuine, Alias;
    FilterLone(jobs, (j: Job) => j.attempt == o.attempt, o);
    forall i | 0 <= i < |jobs| ensures jobs[i].attempt <= o.attempt || Alias(jobs[i], s) {
      assert jobs[i] in multiset(jobs);
    }
  }

  lemma OriginFound(jobs: seq<Job>, current: int, s: Job, o: Job)
    requires Sound(jobs, current) && Newest(jobs, s) && Successful(s) && IsOrigin(jobs, s, o)
    ensures Origin(s, jobs) == Ok(o)
  {
    hide Valid, FactsOf, Filter, Origins, Of, Alias, Genuine;
    SuccessfulAre(jobs, current);
    OriginsAre(jobs, s, o);
    NothingElse(jobs, s, o);
    assert s in multiset(jobs);
  }

  lemma FoundIsOrigin(jobs: seq<Job>, current: int, s: Job)
    requires (forall j | j in multiset(jobs) :: 1 <= j.attempt <= current) && Newest(jobs, s) && Successful(s)
    requires Origin(s, jobs).Ok?
    ensures Sound(jobs, current) && IsOrigin(jobs, s, Origin(s, jobs).value)
  {
    hide Valid, FactsOf, Filter;
    SuccessfulAre(jobs, current);
    var o := Origin(s, jobs).value;
    var f, g := (j: Job) => Earlier(j, s), (j: Job) => j.attempt == o.attempt;
    var origins := Filter(jobs, f);
    assert Filter(jobs, g) == [Filter(jobs, g)[0]];
    FilterLone(jobs, g, Filter(jobs, g)[0]);
    assert s in multiset(jobs);
    if Genuine(s) {
      forall j ensures !(f(j) && j in multiset(jobs)) { FilterCounts(jobs, f, j); }
    } else {
      assert origins == [o];
      FilterLone(jobs, f, o);
    }
    assert Filter(jobs, g)[0] == o;
    forall j | j in multiset(jobs) && Successful(j) && Genuine(j) && FactsOf(j) == FactsOf(s) ensures j == o {
      assert j == s || f(j);
    }
  }

  /** Exactly when a record is returned: the records are sound, and it is the one genuine
      execution behind the newest record, with nothing but its aliases after it. */
  lemma PublishedExactly(jobs: seq<Job>, current: int, o: Job)
    ensures Publication(jobs, current) == Ok(o) <==> Published(jobs, current, o)
  {
    if Published(jobs, current, o) {
      var s :| Newest(jobs, s) && Successful(s) && IsOrigin(jobs, s, o);
      NewestIsSelected(jobs, current, s);
      OriginFound(jobs, current, s, o);
    }
    if Publication(jobs, current) == Ok(o) {
      SelectedIsNewest(jobs, current);
      FoundIsOrigin(jobs, current, Selected(jobs, current).value);
    }
  }

  lemma SamePublished(a: seq<Job>, b: seq<Job>, current: int, o: Job)
    requires multiset(a) == multiset(b) && Published(a, current, o)
    ensures Published(b, current, o)
  {
    hide Valid, Alias, Genuine, FactsOf, Successful;
    var s :| Newest(a, s) && Successful(s) && IsOrigin(a, s, o);
    assert Newest(b, s) && IsOrigin(b, s, o);
  }

  /** The order in which the records are listed makes no difference. */
  lemma OrderIndependent(a: seq<Job>, b: seq<Job>, current: int)
    requires multiset(a) == multiset(b)
    ensures Publication(a, current) == Publication(b, current)
  {
    hide Published, Publication;
    var x, y := Publication(a, current), Publication(b, current);
    if x.Ok? {
      PublishedExactly(a, current, x.value);
      SamePublished(a, b, current, x.value);
      PublishedExactly(b, current, x.value);
    } else if y.Ok? {
      PublishedExactly(b, current, y.value);
      SamePublished(b, a, current, y.value);
      PublishedExactly(a, current, y.value);
    }
  }
}
