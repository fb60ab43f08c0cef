/** FixtureDispatchTracker of both test runners: crediting tests withheld by a fixture skip.

    The runner is unittest.TestSuite.run, reduced to what decides whether a test is started:
    before each test it handles the module fixture, then the class fixture, and withholds
    the test when either is marked as failed. */
module FixtureTracker {
  import opened Outcomes

  /** A test class.  obj: which class object it is.  inherited: the classes after it in its
      method resolution order, where getattr also looks for _classSetupFailed.  marked:
      __unittest_skip__ is set. */
  datatype TestClass = TestClass(obj: nat, name: string, mod: string, marked: bool, inherited: seq<TestClass>)

  datatype Outcome = Passed | Skipped | Failed

  /** What setUpModule or setUpClass would do if it ran now: its own outcome, and whether a
      cleanup run after a failure raises SkipTest. */
  datatype Fixture = Fixture(outcome: Outcome, cleanupSkips: bool)

  /** One test reached by the runner.  known: the object is among the allocated cases and
      still has the type it was allocated with. */
  datatype Dispatch = Dispatch(id: string, cls: TestClass, known: bool, moduleFixture: Fixture, classFixture: Fixture)

  /** The flags of the runner: _previousTestClass, _moduleSetUpFailed, and the classes
      whose own _classSetupFailed attribute was set. */
  datatype Runner = Runner(previous: Option<TestClass>, moduleFailed: bool, classFlags: map<TestClass, bool>)

  const START := Runner(None, false, map[])

  /** A SkipTest was reported under the name of this fixture. */
  predicate ReportsSkip(f: Fixture)
  {
    f.outcome == Skipped || (f.outcome == Failed && f.cleanupSkips)
  }

  /** The failure flag of a class, its own or else the nearest inherited one. */
  function ClassFailed(flags: map<TestClass, bool>, cls: TestClass): bool
  {
    if cls in flags then flags[cls] else InheritedFailed(flags, cls.inherited)
  }

  function InheritedFailed(flags: map<TestClass, bool>, classes: seq<TestClass>): bool
  {
    if classes == [] then false
    else if classes[0] in flags then flags[classes[0]]
    else InheritedFailed(flags, classes[1..])
  }

  /** The first class of the resolution order that carries the flag decides. */
  lemma {:induction false} FirstFlagDecides(flags: map<TestClass, bool>, classes: seq<TestClass>)
    ensures InheritedFailed(flags, classes) <==>
      exists i | 0 <= i < |classes| :: FlaggedAt(flags, classes, i)
  {
    if classes != [] {
      FirstFlagDecides(flags, classes[1..]);
      if classes[0] in flags {
        assert FlaggedAt(flags, classes, 0) <==> flags[classes[0]];
      } else {
        forall i | 0 <= i < |classes| - 1
          ensures FlaggedAt(flags, classes, i + 1) <==> FlaggedAt(flags, classes[1..], i)
        {
          assert forall k | 0 <= k < i :: classes[1..][k] == classes[k + 1];
          if FlaggedAt(flags, classes[1..], i) {
            assert forall k | 1 <= k < i + 1 :: classes[k] == classes[1..][k - 1];
          }
        }
        if i: nat :| i < |classes| && FlaggedAt(flags, classes, i) { assert FlaggedAt(flags, classes[1..], i - 1); }
      }
    }
  }

  ghost predicate FlaggedAt(flags: map<TestClass, bool>, classes: seq<TestClass>, i: nat)
    requires i < |classes|
  {
    classes[i] in flags && flags[classes[i]] && forall k | 0 <= k < i :: classes[k] !in flags
  }

  lemma ClassFailedExactly(flags: map<TestClass, bool>, cls: TestClass)
    ensures ClassFailed(flags, cls) <==>
      exists i | 0 <= i <= |cls.inherited| :: FlaggedAt(flags, [cls] + cls.inherited, i)
  {
    FirstFlagDecides(flags, [cls] + cls.inherited);
    assert ([cls] + cls.inherited)[1..] == cls.inherited;
  }

  predicate RunsModuleFixture(r: Runner, d: Dispatch)
  {
    r.previous.None? || r.previous.value.mod != d.cls.mod
  }

  function AfterModule(r: Runner, d: Dispatch): Runner
  {
    if RunsModuleFixture(r, d) then r.(moduleFailed := d.moduleFixture.outcome != Passed) else r
  }

  /** For the runner as the module handler left it. */
  predicate RunsClassFixture(r: Runner, d: Dispatch)
  {
    r.previous != Some(d.cls) && !r.moduleFailed && !d.cls.marked
  }

  function AfterClass(r: Runner, d: Dispatch): Runner
  {
    var flags :=
      if RunsClassFixture(r, d) then r.classFlags[d.cls := d.classFixture.outcome != Passed] else r.classFlags;
    Runner(Some(d.cls), r.moduleFailed, flags)
  }

  function Dispatched(r: Runner, d: Dispatch): Runner
  {
    AfterClass(AfterModule(r, d), d)
  }

  /** The runner after the first n tests of a run. */
  function RunnerAt(ds: seq<Dispatch>, n: nat): Runner
    requires n <= |ds|
  {
    if n == 0 then START else Dispatched(RunnerAt(ds, n - 1), ds[n - 1])
  }

  predicate Withheld(ds: seq<Dispatch>, i: nat)
    requires i < |ds|
  {
    var r := RunnerAt(ds, i + 1);
    r.moduleFailed || ClassFailed(r.classFlags, ds[i].cls)
  }

  // ----- the tracker -----

  /** episodes, module_dispatch and skipped.  A test is named by its position, which
      stands for the identity of the test object. */
  datatype Tracked = Tracked(
    moduleEpisode: Option<string>,
    classEpisode: Option<TestClass>,
    moduleDispatch: Option<(nat, string)>,
    skipped: multiset<string>
  )

  const NOTHING := Tracked(None, None, None, multiset{})

  /** complete_dispatch for the module phase; r is the runner before the handler ran. */
  function CompleteModule(t: Tracked, r: Runner, i: nat, d: Dispatch): Tracked
  {
    if !d.known then t
    else
      var current := d.cls.mod;
      var failed := AfterModule(r, d).moduleFailed;
      var hadSkip := RunsModuleFixture(r, d) && ReportsSkip(d.moduleFixture);
      var same := r.previous.Some? && current == r.previous.value.mod;
      t.(
        moduleDispatch := Some((i, current)),
        moduleEpisode :=
          if !same || !failed || hadSkip then (if hadSkip && failed then Some(current) else None)
          else t.moduleEpisode
      )
  }

  /** complete_dispatch for the class phase; r is the runner after the module handler. */
  function CompleteClass(t: Tracked, r: Runner, i: nat, d: Dispatch): Tracked
  {
    if !d.known then t
    else
      var after := AfterClass(r, d);
      var failed := ClassFailed(after.classFlags, d.cls);
      var hadSkip := RunsClassFixture(r, d) && ReportsSkip(d.classFixture);
      var episode :=
        if Some(d.cls) != r.previous || !failed || hadSkip then (if hadSkip && failed then Some(d.cls) else None)
        else t.classEpisode;
      var moduleBlocked := after.moduleFailed && t.moduleDispatch.Some? && t.moduleDispatch.value.0 == i
        && t.moduleEpisode.Some? && t.moduleEpisode.value == t.moduleDispatch.value.1;
      var classBlocked := failed && episode == Some(d.cls);
      t.(
        classEpisode := episode,
        skipped := if moduleBlocked || classBlocked then t.skipped + multiset{d.id} else t.skipped
      )
  }

  /** Tracking that observes every dispatch. */
  function Observe(t: Tracked, r: Runner, i: nat, d: Dispatch): Tracked
  {
    CompleteClass(CompleteModule(t, r, i, d), AfterModule(r, d), i, d)
  }

  function EagerAt(ds: seq<Dispatch>, n: nat): Tracked
    requires n <= |ds|
  {
    if n == 0 then NOTHING else Observe(EagerAt(ds, n - 1), RunnerAt(ds, n - 1), n - 1, ds[n - 1])
  }

  /** Tracking as shipped: profiling starts at the first reported fixture skip and stops
      after a class dispatch that leaves no episode open. */
  datatype Lazy = Lazy(tracked: Tracked, active: bool)

  function LazyModule(z: Lazy, r: Runner, i: nat, d: Dispatch): Lazy
  {
    var active := z.active || (RunsModuleFixture(r, d) && ReportsSkip(d.moduleFixture));
    Lazy(if active then CompleteModule(z.tracked, r, i, d) else z.tracked, active)
  }

  function LazyClass(z: Lazy, r: Runner, i: nat, d: Dispatch): Lazy
  {
    var active := z.active || (RunsClassFixture(r, d) && ReportsSkip(d.classFixture));
    var t := if active then CompleteClass(z.tracked, r, i, d) else z.tracked;
    Lazy(t, active && (t.moduleEpisode.Some? || t.classEpisode.Some?))
  }

  function LazyStep(z: Lazy, r: Runner, i: nat, d: Dispatch): Lazy
  {
    LazyClass(LazyModule(z, r, i, d), AfterModule(r, d), i, d)
  }

  function LazyAt(ds: seq<Dispatch>, n: nat): Lazy
    requires n <= |ds|
  {
    if n == 0 then Lazy(NOTHING, false) else LazyStep(LazyAt(ds, n - 1), RunnerAt(ds, n - 1), n - 1, ds[n - 1])
  }

  // ----- lazy tracking refines always-on tracking -----

  /** Same counter and episodes; the pending module dispatch agrees whenever it can matter,
      and a tracker that is off has no episode open. */
  ghost predicate Refines(z: Lazy, t: Tracked)
  {
    && z.tracked.skipped == t.skipped
    && z.tracked.moduleEpisode == t.moduleEpisode && z.tracked.classEpisode == t.classEpisode
    && (z.tracked.moduleEpisode.Some? ==> z.tracked.moduleDispatch == t.moduleDispatch)
    && (!z.active ==> z.tracked.moduleEpisode.None? && z.tracked.classEpisode.None?)
  }

  lemma LazyStepRefines(z: Lazy, t: Tracked, r: Runner, i: nat, d: Dispatch)
    requires Refines(z, t)
    ensures Refines(LazyStep(z, r, i, d), Observe(t, r, i, d))
  {
    var z', t' := LazyModule(z, r, i, d), CompleteModule(t, r, i, d);
    assert z'.tracked.moduleEpisode == t'.moduleEpisode && z'.tracked.classEpisode == t'.classEpisode;
    assert z'.tracked.moduleEpisode.Some? ==> z'.active && z'.tracked.moduleDispatch == t'.moduleDispatch;
    assert t.skipped + multiset{} == t.skipped;
  }

  /** Switching the tracker on at the first skip and off when all episodes are clear gives
      the counter of observing every dispatch, after every prefix of every run. */
  lemma {:induction false} LazyRefinesEager(ds: seq<Dispatch>, n: nat)
    requires n <= |ds|
    ensures Refines(LazyAt(ds, n), EagerAt(ds, n))
    ensures LazyAt(ds, n).tracked.skipped == EagerAt(ds, n).skipped
  {
    hide LazyStep, Observe, Dispatched;
    if n > 0 {
      LazyRefinesEager(ds, n - 1);
      LazyStepRefines(LazyAt(ds, n - 1), EagerAt(ds, n - 1), RunnerAt(ds, n - 1), n - 1, ds[n - 1]);
    }
  }

  /** An object that was not allocated, or was replaced, changes nothing. */
  lemma UnknownIgnored(t: Tracked, r: Runner, i: nat, d: Dispatch)
    requires !d.known
    ensures Observe(t, r, i, d) == t
  {
  }

  /** Profiling is on between two tests exactly while a fixture's skip is being followed ... */
  lemma {:induction false} ActiveExactly(ds: seq<Dispatch>, n: nat)
    requires n <= |ds|
    ensures var z := LazyAt(ds, n);
      z.active <==> z.tracked.moduleEpisode.Some? || z.tracked.classEpisode.Some?
  {
    if n > 0 {
      ActiveExactly(ds, n - 1);
      LazyRefinesEager(ds, n);
    }
  }

  /** ... and a run without reported skips is never looked at. */
  lemma {:induction false} NeverActive(ds: seq<Dispatch>, n: nat)
    requires n <= |ds| && forall i | 0 <= i < n ::
      !ReportsSkip(ds[i].moduleFixture) && !ReportsSkip(ds[i].classFixture)
    ensures LazyAt(ds, n) == Lazy(NOTHING, false)
  {
    if n > 0 { NeverActive(ds, n - 1); }
  }

  // ----- what the counter means -----

  /** The first test of the unbroken stretch of tests of this module that ends at i. */
  function ModuleStart(ds: seq<Dispatch>, i: nat): (s: nat)
    requires i < |ds|
    ensures s <= i
  {
    if i == 0 || ds[i - 1].cls.mod != ds[i].cls.mod then i else ModuleStart(ds, i - 1)
  }

  /** Likewise for the class. */
  function ClassStart(ds: seq<Dispatch>, i: nat): (s: nat)
    requires i < |ds|
    ensures s <= i && ds[s].cls == ds[i].cls
  {
    if i == 0 || ds[i - 1].cls != ds[i].cls then i else ClassStart(ds, i - 1)
  }

  /** The module fixture that covers test i, and the class fixture if it ran at all. */
  function ModuleFixtureOf(ds: seq<Dispatch>, i: nat): Fixture
    requires i < |ds|
  {
    ds[ModuleStart(ds, i)].moduleFixture
  }

  function ClassFixtureOf(ds: seq<Dispatch>, i: nat): Option<Fixture>
    requires i < |ds|
  {
    if ModuleFixtureOf(ds, i).outcome != Passed || ds[i].cls.marked then None
    else Some(ds[ClassStart(ds, i)].classFixture)
  }

  /** Test i was withheld because setUpModule or setUpClass raised SkipTest. */
  predicate WithheldBySkip(ds: seq<Dispatch>, i: nat)
    requires i < |ds|
  {
    || ModuleFixtureOf(ds, i).outcome == Skipped
    || (ClassFixtureOf(ds, i).Some? && ClassFixtureOf(ds, i).value.outcome == Skipped)
  }

  /** Test i was withheld by a fixture under whose name a SkipTest was reported. */
  predicate SkipReported(ds: seq<Dispatch>, i: nat)
    requires i < |ds|
  {
    || ReportsSkip(ModuleFixtureOf(ds, i))
    || (ClassFixtureOf(ds, i).Some? && ReportsSkip(ClassFixtureOf(ds, i).value))
  }

  /** What the runner's flags say after test i. */
  lemma {:induction false} RunnerFacts(ds: seq<Dispatch>, i: nat)
    requires i < |ds|
    ensures var r := RunnerAt(ds, i + 1);
      && r.previous == Some(ds[i].cls)
      && (r.moduleFailed <==> ModuleFixtureOf(ds, i).outcome != Passed)
      && (ClassFixtureOf(ds, i).Some? ==>
            (ClassFailed(r.classFlags, ds[i].cls) <==> ClassFixtureOf(ds, i).value.outcome != Passed))
  {
    if i > 0 {
      RunnerFacts(ds, i - 1);
      if ds[i - 1].cls == ds[i].cls {
        assert ModuleStart(ds, i) == ModuleStart(ds, i - 1) && ClassStart(ds, i) == ClassStart(ds, i - 1);
      }
    }
  }

  lemma SkipsWithhold(ds: seq<Dispatch>, i: nat)
    requires i < |ds| && SkipReported(ds, i)
    ensures Withheld(ds, i)
  {
    RunnerFacts(ds, i);
  }

  /** The module episode after test i names the module exactly when its fixture skipped. */
  ghost predicate ModuleAccurate(ds: seq<Dispatch>, i: nat, t: Tracked)
    requires i < |ds|
  {
    t.moduleEpisode == Some(ds[i].cls.mod) <==> ReportsSkip(ModuleFixtureOf(ds, i))
  }

  predicate ClassSkipReported(ds: seq<Dispatch>, i: nat)
    requires i < |ds|
  {
    ClassFixtureOf(ds, i).Some? && ReportsSkip(ClassFixtureOf(ds, i).value)
  }

  ghost predicate ClassAccurate(ds: seq<Dispatch>, i: nat, t: Tracked)
    requires i < |ds|
  {
    t.classEpisode == Some(ds[i].cls) <==> ClassSkipReported(ds, i)
  }

  /** Every withheld test among the first n is a known one. */
  ghost predicate WithheldKnown(ds: seq<Dispatch>, n: nat)
    requires n <= |ds|
  {
    forall i | 0 <= i < n :: Withheld(ds, i) ==> ds[i].known
  }

  lemma ModulePhase(ds: seq<Dispatch>, i: nat, t: Tracked)
    requires i < |ds| && ds[i].known
    requires i > 0 && Withheld(ds, i - 1) ==> ModuleAccurate(ds, i - 1, t)
    ensures var after := CompleteModule(t, RunnerAt(ds, i), i, ds[i]);
      ModuleAccurate(ds, i, after) && after.moduleDispatch == Some((i, ds[i].cls.mod))
  {
    RunnerFacts(ds, i);
    if i > 0 {
      RunnerFacts(ds, i - 1);
      if ds[i - 1].cls.mod == ds[i].cls.mod {
        assert ModuleStart(ds, i) == ModuleStart(ds, i - 1);
      }
    }
  }

  lemma ClassPhase(ds: seq<Dispatch>, i: nat, t: Tracked)
    requires i < |ds| && ds[i].known
    requires i > 0 && Withheld(ds, i - 1) ==> ClassAccurate(ds, i - 1, t)
    requires ModuleAccurate(ds, i, t) && t.moduleDispatch == Some((i, ds[i].cls.mod))
    ensures var after := CompleteClass(t, AfterModule(RunnerAt(ds, i), ds[i]), i, ds[i]);
      && ClassAccurate(ds, i, after) && ModuleAccurate(ds, i, after)
      && after.skipped == t.skipped + (if SkipReported(ds, i) then multiset{ds[i].id} else multiset{})
  {
    RunnerFacts(ds, i);
    var r := AfterModule(RunnerAt(ds, i), ds[i]);
    assert r.moduleFailed <==> ModuleFixtureOf(ds, i).outcome != Passed;
    if i > 0 {
      RunnerFacts(ds, i - 1);
      if ds[i - 1].cls == ds[i].cls {
        assert ModuleStart(ds, i) == ModuleStart(ds, i - 1) && ClassStart(ds, i) == ClassStart(ds, i - 1);
      }
    }
    RunsClassExactly(ds, i);
  }

  /** The class fixture runs at test i exactly at the start of its stretch. */
  lemma RunsClassExactly(ds: seq<Dispatch>, i: nat)
    requires i < |ds|
    ensures RunsClassFixture(AfterModule(RunnerAt(ds, i), ds[i]), ds[i]) <==>
      ClassFixtureOf(ds, i).Some? && ClassStart(ds, i) == i
  {
    RunnerFacts(ds, i);
    if i > 0 { RunnerFacts(ds, i - 1); }
  }

  /** Test i is credited exactly when it is known and a skip was reported for it. */
  lemma {:induction false} CreditStep(ds: seq<Dispatch>, i: nat)
    requires i < |ds| && WithheldKnown(ds, i)
    ensures ds[i].known ==> ModuleAccurate(ds, i, EagerAt(ds, i + 1)) && ClassAccurate(ds, i, EagerAt(ds, i + 1))
    ensures EagerAt(ds, i + 1).skipped
      == EagerAt(ds, i).skipped + (if ds[i].known && SkipReported(ds, i) then multiset{ds[i].id} else multiset{})
  {
    var r, t, d := RunnerAt(ds, i), EagerAt(ds, i), ds[i];
    if d.known {
      if i > 0 {
        assert WithheldKnown(ds, i - 1);
        if ds[i - 1].known { CreditStep(ds, i - 1); }
      }
      ModulePhase(ds, i, t);
      ClassPhase(ds, i, CompleteModule(t, r, i, d));
    }
  }

  // ----- counting -----

  /** Identities of the tests among the first n that satisfy the flag. */
  function Tally(ds: seq<Dispatch>, flags: seq<bool>): multiset<string>
    requires |flags| <= |ds|
  {
    if flags == [] then multiset{}
    else
      var n := |flags| - 1;
      Tally(ds, flags[..n]) + (if flags[n] then multiset{ds[n].id} else multiset{})
  }

  function StartedFlags(ds: seq<Dispatch>, n: nat): (f: seq<bool>)
    requires n <= |ds|
    ensures |f| == n && forall i | 0 <= i < n :: f[i] == !Withheld(ds, i)
  {
    seq(n, (i: nat) requires i < n && n <= |ds| => !Withheld(ds, i))
  }

  function ReportedFlags(ds: seq<Dispatch>, n: nat): (f: seq<bool>)
    requires n <= |ds|
    ensures |f| == n && forall i | 0 <= i < n :: f[i] == (ds[i].known && SkipReported(ds, i))
  {
    seq(n, (i: nat) requires i < n && n <= |ds| => ds[i].known && SkipReported(ds, i))
  }

  function SkipFlags(ds: seq<Dispatch>, n: nat): (f: seq<bool>)
    requires n <= |ds|
    ensures |f| == n && forall i | 0 <= i < n :: f[i] == WithheldBySkip(ds, i)
  {
    seq(n, (i: nat) requires i < n && n <= |ds| => WithheldBySkip(ds, i))
  }

  function AllFlags(n: nat): (f: seq<bool>)
    ensures |f| == n && forall i | 0 <= i < n :: f[i]
  {
    seq(n, _ => true)
  }

  function Count(flags: seq<bool>): (c: nat)
    ensures c <= |flags|
  {
    if flags == [] then 0 else Count(flags[..|flags| - 1]) + (if flags[|flags| - 1] then 1 else 0)
  }

  lemma {:induction false} TallySize(ds: seq<Dispatch>, flags: seq<bool>)
    requires |flags| <= |ds|
    ensures |Tally(ds, flags)| == Count(flags)
  {
    if flags != [] { TallySize(ds, flags[..|flags| - 1]); }
  }

  /** Two disjoint selections that count every test select every test. */
  lemma {:induction false} CountSplit(a: seq<bool>, b: seq<bool>)
    requires |a| == |b| && forall i | 0 <= i < |a| :: !(a[i] && b[i])
    ensures Count(a) + Count(b) <= |a|
    ensures Count(a) + Count(b) == |a| <==> forall i | 0 <= i < |a| :: a[i] || b[i]
  {
    if a != [] {
      var n := |a| - 1;
      CountSplit(a[..n], b[..n]);
      if forall i | 0 <= i < |a[..n]| :: a[..n][i] || b[..n][i] {
        forall i | 0 <= i < n ensures a[i] || b[i] { assert a[..n][i] || b[..n][i]; }
      } else {
        var i :| 0 <= i < n && !(a[..n][i] || b[..n][i]);
        assert !(a[i] || b[i]);
      }
    }
  }

  lemma {:induction false} TallyAll(ds: seq<Dispatch>, a: seq<bool>, b: seq<bool>)
    requires |a| == |b| <= |ds| && forall i | 0 <= i < |a| :: a[i] != b[i]
    ensures Tally(ds, a) + Tally(ds, b) == Tally(ds, AllFlags(|a|))
  {
    if a != [] {
      var n := |a| - 1;
      TallyAll(ds, a[..n], b[..n]);
      assert AllFlags(|a|)[..n] == AllFlags(n);
    }
  }

  /** A larger selection with the same tally is the same selection. */
  lemma {:induction false} TallySame(ds: seq<Dispatch>, a: seq<bool>, b: seq<bool>)
    requires |a| == |b| <= |ds| && forall i | 0 <= i < |a| :: a[i] ==> b[i]
    ensures Count(a) <= Count(b) && (Count(a) == Count(b) <==> a == b)
  {
    if a != [] {
      var n := |a| - 1;
      TallySame(ds, a[..n], b[..n]);
      assert a == a[..n] + [a[n]] && b == b[..n] + [b[n]];
    }
  }

  // ----- exact credit -----

  /** The counter holds exactly the tests for whose fixture a skip was reported. */
  lemma {:induction false} CreditsReportedSkips(ds: seq<Dispatch>, n: nat)
    requires n <= |ds| && WithheldKnown(ds, n)
    ensures EagerAt(ds, n).skipped == Tally(ds, ReportedFlags(ds, n))
  {
    hide RunnerAt, SkipReported, Observe, ModuleAccurate, ClassAccurate, Withheld;
    if n > 0 {
      CreditsReportedSkips(ds, n - 1);
      CreditStep(ds, n - 1);
      assert ReportedFlags(ds, n)[..n - 1] == ReportedFlags(ds, n - 1);
    }
  }

  /** No fixture that failed has a cleanup that raises SkipTest. */
  ghost predicate CleanupsDoNotSkip(ds: seq<Dispatch>)
  {
    forall i | 0 <= i < |ds| ::
      && (ModuleStart(ds, i) == i ==> !ErrorReportedAsSkip(ds[i].moduleFixture))
      && (ClassStart(ds, i) == i && ClassFixtureOf(ds, i).Some? ==> !ErrorReportedAsSkip(ds[i].classFixture))
  }

  predicate ErrorReportedAsSkip(f: Fixture)
  {
    f.outcome == Failed && f.cleanupSkips
  }

  lemma {:induction false} StartOfStart(ds: seq<Dispatch>, i: nat)
    requires i < |ds|
    ensures ModuleStart(ds, ModuleStart(ds, i)) == ModuleStart(ds, i)
    ensures ClassStart(ds, ClassStart(ds, i)) == ClassStart(ds, i)
    ensures ModuleStart(ds, ClassStart(ds, i)) == ModuleStart(ds, i)
    ensures ds[ModuleStart(ds, i)].cls.mod == ds[i].cls.mod
  {
    if i > 0 && ds[i - 1].cls.mod == ds[i].cls.mod { StartOfStart(ds, i - 1); }
  }

  /** A reported skip that was not a skip comes from a failed fixture's cleanup. */
  lemma ReportedButNotSkipped(ds: seq<Dispatch>)
    ensures CleanupsDoNotSkip(ds) <==> forall i | 0 <= i < |ds| :: SkipReported(ds, i) == WithheldBySkip(ds, i)
  {
    if CleanupsDoNotSkip(ds) {
      forall i | 0 <= i < |ds| ensures SkipReported(ds, i) == WithheldBySkip(ds, i) {
        StartOfStart(ds, i);
        var m, c := ModuleStart(ds, i), ClassStart(ds, i);
        assert ClassFixtureOf(ds, c) == ClassFixtureOf(ds, i);
      }
    }
    if forall i | 0 <= i < |ds| :: SkipReported(ds, i) == WithheldBySkip(ds, i) {
      forall i | 0 <= i < |ds|
        ensures ModuleStart(ds, i) == i ==> !ErrorReportedAsSkip(ds[i].moduleFixture)
        ensures ClassStart(ds, i) == i && ClassFixtureOf(ds, i).Some? ==> !ErrorReportedAsSkip(ds[i].classFixture)
      {
        assert SkipReported(ds, i) == WithheldBySkip(ds, i);
      }
    }
  }

  /** With every withheld test known, the tracker credits exactly the tests withheld because
      setUpModule or setUpClass raised SkipTest, if and only if no cleanup of a failed
      fixture raises SkipTest.  In that remaining case tests withheld by an error are
      credited too. */
  lemma CreditsExactlySkips(ds: seq<Dispatch>)
    requires WithheldKnown(ds, |ds|)
    ensures LazyAt(ds, |ds|).tracked.skipped == Tally(ds, SkipFlags(ds, |ds|)) <==> CleanupsDoNotSkip(ds)
  {
    hide LazyAt, EagerAt, RunnerAt, ClassFixtureOf, ModuleFixtureOf, Tally, Count;
    LazyRefinesEager(ds, |ds|);
    CreditsReportedSkips(ds, |ds|);
    var skips, reports := SkipFlags(ds, |ds|), ReportedFlags(ds, |ds|);
    TallySize(ds, skips);
    TallySize(ds, reports);
    forall i | 0 <= i < |ds| && SkipReported(ds, i) ensures ds[i].known { SkipsWithhold(ds, i); }
    TallySame(ds, skips, reports);
    ReportedButNotSkipped(ds);
    if skips == reports {
      forall i | 0 <= i < |ds| ensures SkipReported(ds, i) == WithheldBySkip(ds, i) {
        assert skips[i] == reports[i];
      }
    }
  }

  /** A module whose setUpModule raises an error and whose cleanup raises SkipTest: its
      test is credited although no setUp was skipped. */
  lemma ErrorCreditedAsSkip()
    ensures var cls := TestClass(0, "T", "m", false, []);
      var d := Dispatch("m.T.test", cls, true, Fixture(Failed, true), Fixture(Passed, false));
      && !WithheldBySkip([d], 0)
      && LazyAt([d], 1).tracked.skipped == multiset{"m.T.test"}
  {
    var cls := TestClass(0, "T", "m", false, []);
    var d := Dispatch("m.T.test", cls, true, Fixture(Failed, true), Fixture(Passed, false));
    assert LazyAt([d], 0) == Lazy(NOTHING, false) && RunnerAt([d], 0) == START;
    assert LazyAt([d], 1) == LazyStep(Lazy(NOTHING, false), START, 0, d);
  }

  // ----- accounting -----

  /** What the result object counted by itself: the tests it ran and the tests it stopped. */
  datatype Totals = Totals(testsRun: int, stopped: multiset<string>)

  /** Every test that was started was run and stopped, and no other. */
  predicate Consistent(ds: seq<Dispatch>, totals: Totals)
  {
    var started := StartedFlags(ds, |ds|);
    totals.testsRun == Count(started) && totals.stopped == Tally(ds, started)
  }

  /** execution_complete: started tests and credited tests make up the assignment, and the
      totals agree with what was started. */
  predicate Complete(ds: seq<Dispatch>, totals: Totals, expected: multiset<string>)
  {
    && Tally(ds, StartedFlags(ds, |ds|)) + LazyAt(ds, |ds|).tracked.skipped == expected
    && Consistent(ds, totals)
  }

  function KnownWithheldFlags(ds: seq<Dispatch>, n: nat): (f: seq<bool>)
    requires n <= |ds|
    ensures |f| == n && forall i | 0 <= i < n :: f[i] == (ds[i].known && Withheld(ds, i))
  {
    seq(n, (i: nat) requires i < n && n <= |ds| => ds[i].known && Withheld(ds, i))
  }

  /** However the tracker is misled by tests whose objects were replaced, it credits known
      tests that were withheld, each at most once. */
  lemma CreditedAreKnown(ds: seq<Dispatch>, n: nat)
    requires n <= |ds|
    ensures LazyAt(ds, n).tracked.skipped <= Tally(ds, KnownWithheldFlags(ds, n))
    ensures |EagerAt(ds, n).skipped| <= Count(KnownWithheldFlags(ds, n))
  {
    hide LazyAt, EagerAt, KnownWithheldFlags, Tally;
    LazyRefinesEager(ds, n);
    EagerIsKnown(ds, n);
    SmallerSize(EagerAt(ds, n).skipped, Tally(ds, KnownWithheldFlags(ds, n)));
    TallySize(ds, KnownWithheldFlags(ds, n));
  }

  lemma {:induction false} EagerIsKnown(ds: seq<Dispatch>, n: nat)
    requires n <= |ds|
    ensures EagerAt(ds, n).skipped <= Tally(ds, KnownWithheldFlags(ds, n))
  {
    hide Withheld, Observe, KnownWithheldFlags, Tally;
    if n > 0 {
      EagerIsKnown(ds, n - 1);
      KnownStep(ds, n - 1);
      CreditedOne(ds, n - 1);
      var i := n - 1;
      StaysBelow(
        EagerAt(ds, i).skipped, Tally(ds, KnownWithheldFlags(ds, i)), EagerAt(ds, n).skipped,
        if ds[i].known && Withheld(ds, i) then multiset{ds[i].id} else multiset{}
      );
    }
  }

  lemma KnownStep(ds: seq<Dispatch>, i: nat)
    requires i < |ds|
    ensures Tally(ds, KnownWithheldFlags(ds, i + 1)) == Tally(ds, KnownWithheldFlags(ds, i))
      + (if ds[i].known && Withheld(ds, i) then multiset{ds[i].id} else multiset{})
  {
    hide Withheld;
    assert KnownWithheldFlags(ds, i + 1)[..i] == KnownWithheldFlags(ds, i);
  }

  lemma StaysBelow(a: multiset<string>, b: multiset<string>, after: multiset<string>, more: multiset<string>)
    requires a <= b && after <= a + more
    ensures after <= b + more
  {
  }

  lemma CreditedOne(ds: seq<Dispatch>, i: nat)
    requires i < |ds|
    ensures EagerAt(ds, i + 1).skipped
      <= EagerAt(ds, i).skipped + (if ds[i].known && Withheld(ds, i) then multiset{ds[i].id} else multiset{})
  {
  }

  lemma SmallerSize(a: multiset<string>, b: multiset<string>)
    requires a <= b
    ensures |a| <= |b|
  {
    assert b == a + (b - a);
  }

  /** A complete report proves that every withheld test is a known one. */
  lemma CompleteMeansKnown(ds: seq<Dispatch>, totals: Totals, expected: multiset<string>)
    requires Complete(ds, totals, expected) && |ds| <= |expected|
    ensures WithheldKnown(ds, |ds|)
  {
    LazyRefinesEager(ds, |ds|);
    CreditedAreKnown(ds, |ds|);
    var started, withheld := StartedFlags(ds, |ds|), KnownWithheldFlags(ds, |ds|);
    TallySize(ds, started);
    CountSplit(started, withheld);
    forall i | 0 <= i < |ds| && Withheld(ds, i) ensures ds[i].known {
      assert started[i] || withheld[i];
    }
  }

  /** A worker that ran no more tests than it was assigned and reports a complete execution
      stopped, or credited for a reported fixture skip, every test it reached, and these
      are its assignment as multisets. */
  lemma CompleteAccountsForEveryTest(ds: seq<Dispatch>, totals: Totals, expected: multiset<string>)
    requires Complete(ds, totals, expected) && |ds| <= |expected|
    ensures totals.stopped + Tally(ds, ReportedFlags(ds, |ds|)) == expected
    ensures totals.testsRun + Count(ReportedFlags(ds, |ds|)) == |ds| == |expected|
    ensures forall i | 0 <= i < |ds| :: Withheld(ds, i) ==> ds[i].known && SkipReported(ds, i)
    ensures LazyAt(ds, |ds|).tracked.skipped == Tally(ds, ReportedFlags(ds, |ds|))
    ensures Tally(ds, AllFlags(|ds|)) == expected
  {
    CompleteMeansKnown(ds, totals, expected);
    LazyRefinesEager(ds, |ds|);
    CreditsReportedSkips(ds, |ds|);
    var started, reports := StartedFlags(ds, |ds|), ReportedFlags(ds, |ds|);
    TallySize(ds, started);
    TallySize(ds, reports);
    forall i | 0 <= i < |ds| && reports[i] ensures !started[i] { SkipsWithhold(ds, i); }
    CountSplit(started, reports);
    TallyAll(ds, started, reports);
  }

  /** So in every complete report the credited tests are those withheld by SkipTest if and
      only if no cleanup of a failed fixture raises SkipTest. */
  lemma CompleteCreditsSkips(ds: seq<Dispatch>, totals: Totals, expected: multiset<string>)
    requires Complete(ds, totals, expected) && |ds| <= |expected|
    ensures LazyAt(ds, |ds|).tracked.skipped == Tally(ds, SkipFlags(ds, |ds|)) <==> CleanupsDoNotSkip(ds)
  {
    CompleteMeansKnown(ds, totals, expected);
    CreditsExactlySkips(ds);
  }

  /** A test withheld by SkipTest that is not credited, because its object was replaced. */
  lemma ReplacedIsNotCredited()
    ensures var cls := TestClass(0, "T", "m", false, []);
      var d := Dispatch("m.T.test", cls, false, Fixture(Skipped, false), Fixture(Passed, false));
      && WithheldBySkip([d], 0) && CleanupsDoNotSkip([d])
      && LazyAt([d], 1).tracked.skipped == multiset{}
  {
    var cls := TestClass(0, "T", "m", false, []);
    var d := Dispatch("m.T.test", cls, false, Fixture(Skipped, false), Fixture(Passed, false));
    assert LazyAt([d], 0) == Lazy(NOTHING, false) && RunnerAt([d], 0) == START;
    assert LazyAt([d], 1) == LazyStep(Lazy(NOTHING, false), START, 0, d);
  }

  /** For a worker that reached exactly its assignment: the report is complete if and only
      if the totals are consistent, every withheld test is known, and a skip was reported for
      its fixture. */
  lemma CompleteExactly(ds: seq<Dispatch>, totals: Totals)
    ensures Complete(ds, totals, Tally(ds, AllFlags(|ds|))) <==>
      Consistent(ds, totals) && forall i | 0 <= i < |ds| :: Withheld(ds, i) ==> ds[i].known && SkipReported(ds, i)
  {
    var expected := Tally(ds, AllFlags(|ds|));
    TallySize(ds, AllFlags(|ds|));
    CountAll(|ds|);
    if Complete(ds, totals, expected) {
      CompleteAccountsForEveryTest(ds, totals, expected);
    } else if forall i | 0 <= i < |ds| :: Withheld(ds, i) ==> ds[i].known && SkipReported(ds, i) {
      LazyRefinesEager(ds, |ds|);
      CreditsReportedSkips(ds, |ds|);
      var started, reports := StartedFlags(ds, |ds|), ReportedFlags(ds, |ds|);
      forall i | 0 <= i < |ds| ensures started[i] != reports[i] {
        if reports[i] { SkipsWithhold(ds, i); }
      }
      TallyAll(ds, started, reports);
    }
  }

  lemma {:induction false} CountAll(n: nat)
    ensures Count(AllFlags(n)) == n
  {
    if n > 0 {
      assert AllFlags(n)[..n - 1] == AllFlags(n - 1);
      CountAll(n - 1);
    }
  }

  // ----- the object -----

  class FixtureDispatchTracker {
    var skipped: multiset<string>
    var moduleEpisode: Option<string>
    var classEpisode: Option<TestClass>
    var moduleDispatch: Option<(nat, string)>
    var active: bool

    ghost function Value(): Lazy
      reads this
    {
      Lazy(Tracked(moduleEpisode, classEpisode, moduleDispatch, skipped), active)
    }

    constructor ()
      ensures Value() == Lazy(NOTHING, false)
    {
      skipped, moduleEpisode, classEpisode, moduleDispatch, active := multiset{}, None, None, None, false;
    }

    /** note_skip, for a SkipTest reported under the name of the fixture being set up. */
    method NoteSkip()
      modifies this
      ensures Value() == old(Value()).(active := true)
    {
      active := true;
    }

    /** The return of the module handler, if it is observed. */
    method ModuleReturned(r: Runner, i: nat, d: Dispatch)
      modifies this
      ensures Value() == if !old(active) then old(Value())
        else old(Value()).(tracked := CompleteModule(old(Value().tracked), r, i, d))
    {
      if !active || !d.known { return; }
      var current := d.cls.mod;
      var failed := AfterModule(r, d).moduleFailed;
      moduleDispatch := Some((i, current));
      var hadSkip := RunsModuleFixture(r, d) && ReportsSkip(d.moduleFixture);
      if r.previous.None? || current != r.previous.value.mod || !failed || hadSkip {
        moduleEpisode := if hadSkip && failed then Some(current) else None;
      }
    }

    /** The return of the class handler: credit, and stop observing when nothing is open. */
    method ClassReturned(r: Runner, i: nat, d: Dispatch)
      modifies this
      ensures Value() == if !old(active) then old(Value())
        else
          var t := CompleteClass(old(Value().tracked), r, i, d);
          Lazy(t, t.moduleEpisode.Some? || t.classEpisode.Some?)
    {
      hide ClassFailed, AfterClass, RunsClassFixture, ReportsSkip;
      if !active { return; }
      if d.known {
        var after := AfterClass(r, d);
        var failed := ClassFailed(after.classFlags, d.cls);
        var hadSkip := RunsClassFixture(r, d) && ReportsSkip(d.classFixture);
        if Some(d.cls) != r.previous || !failed || hadSkip {
          classEpisode := if hadSkip && failed then Some(d.cls) else None;
        }
        var moduleBlocked := after.moduleFailed && moduleDispatch.Some? && moduleDispatch.value.0 == i
          && moduleEpisode.Some? && moduleEpisode.value == moduleDispatch.value.1;
        var classBlocked := failed && classEpisode == Some(d.cls);
        if moduleBlocked || classBlocked { skipped := skipped + multiset{d.id}; }
      }
      if moduleEpisode.None? && classEpisode.None? { active := false; }
    }

    /** The runner's two handlers for one test, with the reports they make on the way. */
    method Dispatch(r: Runner, i: nat, d: Dispatch)
      modifies this
      ensures Value() == LazyStep(old(Value()), r, i, d)
    {
      if RunsModuleFixture(r, d) && ReportsSkip(d.moduleFixture) { NoteSkip(); }
      ModuleReturned(r, i, d);
      assert Value() == LazyModule(old(Value()), r, i, d);
      var mid := AfterModule(r, d);
      if RunsClassFixture(mid, d) && ReportsSkip(d.classFixture) { NoteSkip(); }
      ClassReturned(mid, i, d);
    }
  }

  lemma StartedStep(ds: seq<Dispatch>, i: nat)
    requires i < |ds|
    ensures Tally(ds, StartedFlags(ds, i + 1))
      == Tally(ds, StartedFlags(ds, i)) + (if Withheld(ds, i) then multiset{} else multiset{ds[i].id})
    ensures Count(StartedFlags(ds, i + 1)) == Count(StartedFlags(ds, i)) + (if Withheld(ds, i) then 0 else 1)
  {
    hide Withheld;
    assert StartedFlags(ds, i + 1)[..i] == StartedFlags(ds, i);
  }

  lemma NothingStarted(ds: seq<Dispatch>)
    ensures Tally(ds, StartedFlags(ds, 0)) == multiset{} && Count(StartedFlags(ds, 0)) == 0
  {
  }

  /** worker: runs the tests under the tracker and compares the counts. */
  method RunWorker(ds: seq<Dispatch>, totals: Totals, expected: multiset<string>)
      returns (complete: bool, ran: nat, fixtureSkipped: nat)
    ensures complete <==> Complete(ds, totals, expected)
    ensures ran == Count(StartedFlags(ds, |ds|))
    ensures fixtureSkipped == |LazyAt(ds, |ds|).tracked.skipped|
  {
    hide Tally, Count, StartedFlags, LazyStep, Dispatched, ClassFailed;
    var tracking := new FixtureDispatchTracker();
    var runner, started := START, [];
    NothingStarted(ds);
    for i := 0 to |ds|
      invariant fresh(tracking)
      invariant runner == RunnerAt(ds, i)
      invariant multiset(started) == Tally(ds, StartedFlags(ds, i)) && |started| == Count(StartedFlags(ds, i))
      invariant tracking.Value() == LazyAt(ds, i)
    {
      tracking.Dispatch(runner, i, ds[i]);
      runner := Dispatched(runner, ds[i]);
      StartedStep(ds, i);
      if !(runner.moduleFailed || ClassFailed(runner.classFlags, ds[i].cls)) { started := started + [ds[i].id]; }
    }
    complete := multiset(started) + tracking.skipped == expected
      && totals.testsRun == |started| && totals.stopped == multiset(started);
    ran, fixtureSkipped := |started|, |tracking.skipped|;
  }
}
