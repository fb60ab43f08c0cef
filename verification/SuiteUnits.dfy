/** scripts/run_installed_test_suites.py: cutting discovered suites at module-fixture
    boundaries and spreading the pieces over workers. */
module SuiteUnits {
  import opened Outcomes
  import opened Sequences
  import opened Ordering
  import opened GreedySchedule

  /** One discovered test with the scopes of its fixtures. */
  datatype Leaf = Leaf(id: string, cls: string, mod: string)

  /** What describe() records of a suite or a test. */
  datatype Description = Suite(children: seq<Description>) | Test(leaf: Leaf)

  function Leaves(d: Description): seq<Leaf>
  {
    match d
    case Test(leaf) => [leaf]
    case Suite(children) => LeavesOf(children)
  }

  function LeavesOf(ds: seq<Description>): seq<Leaf>
  {
    if ds == [] then [] else Leaves(ds[0]) + LeavesOf(ds[1..])
  }

  /** One discovered file.  splittable: its suite is an unmodified unittest.TestSuite all
      the way down, so describe() recorded it as a suite. */
  datatype TestFile = TestFile(name: string, description: Description, splittable: bool)

  ghost predicate Valid(files: seq<TestFile>)
  {
    forall f | 0 <= f < |files| :: files[f].splittable ==> files[f].description.Suite?
  }

  datatype Unit = Unit(key: string, file: nat, children: Option<seq<nat>>)

  // ----- cutting one suite -----

  /** Parts start..stop-1 of a suite. */
  datatype Run = Run(start: nat, stop: nat)

  /** Parts i and j have no module in common. */
  predicate Apart(scopes: seq<set<string>>, i: nat, j: nat)
    requires i < |scopes| && j < |scopes|
  {
    scopes[i] !! scopes[j]
  }

  /** No module occurs on both sides of the cut after part p. */
  predicate SafeCut(scopes: seq<set<string>>, p: nat)
  {
    forall i, j | 0 <= i <= p < j < |scopes| :: Apart(scopes, i, j)
  }

  /** The runs from part start on when position p is next: one ends at each safe cut. */
  function CutFrom(scopes: seq<set<string>>, start: nat, p: nat): seq<Run>
    requires start <= p <= |scopes|
    decreases |scopes| - p
  {
    if p == |scopes| then []
    else if SafeCut(scopes, p) then [Run(start, p + 1)] + CutFrom(scopes, p + 1, p + 1)
    else CutFrom(scopes, start, p + 1)
  }

  /** Runs that follow each other from `from` to n without a gap. */
  ghost predicate Chain(runs: seq<Run>, from: nat, n: nat)
  {
    if runs == [] then from == n
    else runs[0].start == from && from < runs[0].stop <= n && Chain(runs[1..], runs[0].stop, n)
  }

  /** No two different runs share a module. */
  ghost predicate KeepsScopes(scopes: seq<set<string>>, runs: seq<Run>)
  {
    forall k, l, i, j | 0 <= k < l < |runs| && runs[k].start <= i < runs[k].stop <= |scopes|
      && runs[l].start <= j < runs[l].stop <= |scopes| :: Apart(scopes, i, j)
  }

  /** Greatest position at which a scope of these parts occurs: the dictionary `last`. */
  ghost predicate LastOccurrences(scopes: seq<set<string>>, last: map<string, nat>)
  {
    && (forall i, m | 0 <= i < |scopes| && m in scopes[i] :: m in last && i <= last[m])
    && (forall m | m in last :: last[m] < |scopes| && m in scopes[last[m]])
  }

  /** For every scope, the position of the last group that holds it. */
  function LastMap(scopes: seq<set<string>>): map<string, nat>
  {
    if scopes == [] then map[]
    else
      var n := |scopes| - 1;
      LastMap(scopes[..n]) + (map m | m in scopes[n] :: n)
  }

  lemma {:induction false} LastMapFacts(scopes: seq<set<string>>)
    ensures LastOccurrences(scopes, LastMap(scopes))
  {
    if scopes != [] {
      var n := |scopes| - 1;
      var before := LastMap(scopes[..n]);
      LastMapFacts(scopes[..n]);
      var last := LastMap(scopes);
      assert last == before + (map m | m in scopes[n] :: n);
      forall i, m | 0 <= i < |scopes| && m in scopes[i] ensures m in last && i <= last[m] {
        if i < n { assert m in scopes[..n][i]; }
      }
      forall m | m in last ensures last[m] < |scopes| && m in scopes[last[m]] {
        if m !in scopes[n] { assert m in scopes[..n][before[m]]; }
      }
    }
  }

  /** How far the run must go: to its end so far, or to the last occurrence of any scope in
      the group, whichever is furthest. */
  method Reach(end: int, group: set<string>, last: map<string, nat>) returns (r: int)
    requires group <= last.Keys
    ensures r >= end && (forall m | m in group :: r >= last[m])
    ensures r == end || exists m | m in group :: r == last[m]
  {
    r := end;
    var rest := group;
    while rest != {}
      invariant rest <= group
      invariant r >= end && (forall m | m in group - rest :: r >= last[m])
      invariant r == end || exists m | m in group :: r == last[m]
      decreases rest
    {
      var m :| m in rest;
      if last[m] > r { r := last[m]; }
      rest := rest - {m};
    }
  }

  /** end is how far the modules of the parts before p reach. */
  ghost predicate Reaches(scopes: seq<set<string>>, last: map<string, nat>, p: nat, end: int)
    requires p <= |scopes| && LastOccurrences(scopes, last)
  {
    && (forall i, m | 0 <= i < p && m in scopes[i] :: last[m] <= end)
    && (end == -1 || exists i, m | 0 <= i < p && m in scopes[i] :: last[m] == end)
  }

  /** The running maximum meets the position exactly at the safe cuts. */
  lemma CutWhereReached(scopes: seq<set<string>>, last: map<string, nat>, p: nat, end: int)
    requires p < |scopes| && LastOccurrences(scopes, last) && Reaches(scopes, last, p + 1, end)
    requires scopes[p] != {}
    ensures end == p <==> SafeCut(scopes, p)
  {
    var here :| here in scopes[p];
    assert p <= last[here] <= end;
    if end > p {
      var i, m :| 0 <= i < p + 1 && m in scopes[i] && last[m] == end;
      assert m in scopes[i] && m in scopes[end];
      assert !Apart(scopes, i, end);
    } else {
      forall i, j | 0 <= i <= p < j < |scopes| ensures Apart(scopes, i, j) {
        forall m | m in scopes[i] ensures m !in scopes[j] {
          assert last[m] <= end;
        }
      }
    }
  }

  /** The loop over the parts.  The final check that every part was covered cannot fail. */
  method SplitAtFixtureBoundaries(scopes: seq<set<string>>) returns (runs: seq<Run>, covered: bool)
    requires forall i | 0 <= i < |scopes| :: scopes[i] != {}
    ensures runs == CutFrom(scopes, 0, 0)
    ensures covered
  {
    hide LastMap;
    var last := LastMap(scopes);
    LastMapFacts(scopes);
    var start, end := 0, -1;
    runs := [];
    for position := 0 to |scopes|
      invariant Reaches(scopes, last, position, end)
      invariant Progress(scopes, runs, start, position)
    {
      var reach := Reach(end, scopes[position], last);
      ReachStep(scopes, last, position, end, reach);
      end := reach;
      CutWhereReached(scopes, last, position, end);
      ProgressStep(scopes, runs, start, position);
      if end == position {
        runs := runs + [Run(start, position + 1)];
        start := position + 1;
      }
    }
    covered := start == |scopes|;
    assert |scopes| > 0 ==> SafeCut(scopes, |scopes| - 1);
    assert runs + [] == runs;
  }

  /** The runs so far, and the part where the open run starts. */
  ghost predicate Progress(scopes: seq<set<string>>, runs: seq<Run>, start: nat, p: nat)
  {
    && start <= p <= |scopes|
    && runs + CutFrom(scopes, start, p) == CutFrom(scopes, 0, 0)
    && (start < p ==> !SafeCut(scopes, p - 1))
  }

  lemma ProgressStep(scopes: seq<set<string>>, runs: seq<Run>, start: nat, p: nat)
    requires p < |scopes| && Progress(scopes, runs, start, p)
    ensures SafeCut(scopes, p) ==> Progress(scopes, runs + [Run(start, p + 1)], p + 1, p + 1)
    ensures !SafeCut(scopes, p) ==> Progress(scopes, runs, start, p + 1)
  {
    if SafeCut(scopes, p) {
      var rest := CutFrom(scopes, p + 1, p + 1);
      assert runs + ([Run(start, p + 1)] + rest) == (runs + [Run(start, p + 1)]) + rest;
    }
  }

  lemma ReachStep(scopes: seq<set<string>>, last: map<string, nat>, p: nat, end: int, reach: int)
    requires p < |scopes| && LastOccurrences(scopes, last) && Reaches(scopes, last, p, end)
    requires reach >= end && (forall m | m in scopes[p] :: reach >= last[m])
    requires reach == end || exists m | m in scopes[p] :: reach == last[m]
    ensures Reaches(scopes, last, p + 1, reach)
  {
    if reach == end && end != -1 {
      var i, m :| 0 <= i < p && m in scopes[i] && last[m] == end;
      assert m in scopes[i] && last[m] == reach;
    } else if reach != end {
      var m :| m in scopes[p] && reach == last[m];
      assert m in scopes[p] && last[m] == reach;
    }
  }

  /** The cut covers every part once, in order. */
  lemma {:induction false} CutIsChain(scopes: seq<set<string>>, start: nat, p: nat)
    requires start <= p <= |scopes| && (start == p || p < |scopes|)
    ensures Chain(CutFrom(scopes, start, p), start, |scopes|)
    decreases |scopes| - p
  {
    if p < |scopes| {
      if SafeCut(scopes, p) {
        CutIsChain(scopes, p + 1, p + 1);
      } else {
        assert p + 1 < |scopes|;
        CutIsChain(scopes, start, p + 1);
      }
    }
  }

  /** Each run but the last ends at a safe cut, and no safe cut lies inside a run. */
  lemma {:induction false} CutEnds(scopes: seq<set<string>>, start: nat, p: nat)
    requires start <= p <= |scopes|
    requires forall q | start <= q < p :: !SafeCut(scopes, q)
    ensures forall k | 0 <= k < |CutFrom(scopes, start, p)| ::
      var run := CutFrom(scopes, start, p)[k];
      start <= run.start < run.stop <= |scopes| && SafeCut(scopes, run.stop - 1)
      && forall q | run.start <= q < run.stop - 1 :: !SafeCut(scopes, q)
    decreases |scopes| - p
  {
    if p < |scopes| {
      if SafeCut(scopes, p) { CutEnds(scopes, p + 1, p + 1); } else { CutEnds(scopes, start, p + 1); }
    }
  }

  lemma {:induction false} ChainOrdered(runs: seq<Run>, from: nat, n: nat, k: nat, l: nat)
    requires Chain(runs, from, n) && k < l < |runs|
    ensures from <= runs[k].start < runs[k].stop <= runs[l].start < runs[l].stop <= n
    decreases |runs|, k
  {
    if k > 0 {
      ChainOrdered(runs[1..], runs[0].stop, n, k - 1, l - 1);
    } else if l > 1 {
      ChainOrdered(runs[1..], runs[0].stop, n, 0, l - 1);
    }
  }

  lemma {:induction false} ChainCovers(runs: seq<Run>, from: nat, n: nat, p: nat) returns (k: nat)
    requires Chain(runs, from, n) && from <= p < n
    ensures k < |runs| && runs[k].start <= p < runs[k].stop <= n
    decreases |runs|
  {
    if p < runs[0].stop {
      k := 0;
    } else {
      k := ChainCovers(runs[1..], runs[0].stop, n, p);
      k := k + 1;
    }
  }

  /** No module is split between two runs of the cut. */
  lemma CutKeepsScopes(scopes: seq<set<string>>)
    ensures KeepsScopes(scopes, CutFrom(scopes, 0, 0))
  {
    var runs := CutFrom(scopes, 0, 0);
    CutIsChain(scopes, 0, 0);
    CutEnds(scopes, 0, 0);
    forall k, l, i, j | 0 <= k < l < |runs| && runs[k].start <= i < runs[k].stop <= |scopes|
      && runs[l].start <= j < runs[l].stop <= |scopes|
      ensures Apart(scopes, i, j)
    {
      ChainOrdered(runs, 0, |scopes|, k, l);
      assert SafeCut(scopes, runs[k].stop - 1);
    }
  }

  /** Any other cut into contiguous runs that keeps module scopes together is coarser:
      each run of the cut lies inside one of its runs. */
  lemma CutIsFinest(scopes: seq<set<string>>, other: seq<Run>, k: nat) returns (l: nat)
    requires Chain(other, 0, |scopes|) && KeepsScopes(scopes, other)
    requires k < |CutFrom(scopes, 0, 0)|
    ensures l < |other|
    ensures var run := CutFrom(scopes, 0, 0)[k]; other[l].start <= run.start && run.stop <= other[l].stop
  {
    var run := CutFrom(scopes, 0, 0)[k];
    CutEnds(scopes, 0, 0);
    l := ChainCovers(other, 0, |scopes|, run.start);
    if run.stop > other[l].stop {
      var p := other[l].stop - 1;
      forall i, j | 0 <= i <= p < j < |scopes| ensures Apart(scopes, i, j) {
        var a := ChainCovers(other, 0, |scopes|, i);
        var b := ChainCovers(other, 0, |scopes|, j);
        if a > l { ChainOrdered(other, 0, |scopes|, l, a); }
        if b < l { ChainOrdered(other, 0, |scopes|, b, l); }
        assert a < b;
      }
      assert SafeCut(scopes, p);
      assert false;
    }
  }

  // ----- units of all files -----

  function Names(files: seq<TestFile>): (r: seq<string>)
    ensures |r| == |files| && forall f | 0 <= f < |files| :: r[f] == files[f].name
  {
    seq(|files|, (f: nat) requires f < |files| => files[f].name)
  }

  /** The file is cut: it was asked for, its suite is plain, and no part is empty. */
  predicate IsSplit(file: TestFile, splitFiles: seq<string>)
  {
    && file.name in splitFiles && file.splittable && file.description.Suite?
    && file.description.children != []
    && forall i | 0 <= i < |file.description.children| :: Leaves(file.description.children[i]) != []
  }

  function Scopes(parts: seq<Description>): (r: seq<set<string>>)
    ensures |r| == |parts|
    ensures forall i | 0 <= i < |parts| :: r[i] == set leaf | leaf in Leaves(parts[i]) :: leaf.mod
  {
    seq(|parts|, (i: nat) requires i < |parts| => set leaf | leaf in Leaves(parts[i]) :: leaf.mod)
  }

  function Members(run: Run): (r: seq<nat>)
    requires run.start <= run.stop
    ensures |r| == run.stop - run.start && forall i | 0 <= i < |r| :: r[i] == run.start + i
  {
    seq(run.stop - run.start, (i: nat) => run.start + i)
  }

  function LeavesAt(parts: seq<Description>, members: seq<nat>): seq<Leaf>
    requires forall i | 0 <= i < |members| :: members[i] < |parts|
  {
    if members == [] then [] else Leaves(parts[members[0]]) + LeavesAt(parts, members[1..])
  }

  function Modules(leaves: seq<Leaf>): (r: seq<string>)
    ensures |r| == |leaves| && forall i | 0 <= i < |r| :: r[i] == leaves[i].mod
  {
    seq(|leaves|, (i: nat) requires i < |leaves| => leaves[i].mod)
  }

  /** Drops repeats of the element before. */
  function Squeeze(s: seq<string>): seq<string>
  {
    if |s| <= 1 then s else if s[0] == s[1] then Squeeze(s[1..]) else [s[0]] + Squeeze(s[1..])
  }

  function Join(parts: seq<string>, separator: string): string
  {
    if |parts| == 0 then "" else if |parts| == 1 then parts[0] else parts[0] + separator + Join(parts[1..], separator)
  }

  /** str.join: the separator stands between the parts. */
  lemma {:induction false} JoinExactly(a: seq<string>, b: seq<string>, separator: string)
    ensures Join([], separator) == "" && forall part :: Join([part], separator) == part
    ensures a != [] && b != [] ==> Join(a + b, separator) == Join(a, separator) + (separator + Join(b, separator))
  {
    if |a| > 1 && b != [] {
      JoinExactly(a[1..], b, separator);
      assert (a + b)[1..] == a[1..] + b && (a + b)[0] == a[0];
      Associates(a[0] + separator, Join(a[1..], separator), separator + Join(b, separator));
    } else if |a| == 1 {
      assert (a + b)[1..] == b && (a + b)[0] == a[0];
      Associates(a[0], separator, Join(b, separator));
    }
  }

  function RunUnit(f: nat, file: TestFile, run: Run): Unit
    requires file.description.Suite? && run.start <= run.stop <= |file.description.children|
  {
    var members := Members(run);
    var modules := Squeeze(Sort(AtMost, Modules(LeavesAt(file.description.children, members))));
    Unit(file.name + "::" + Join(modules, ","), f, Some(members))
  }

  ghost predicate RunsFit(runs: seq<Run>, n: nat)
  {
    forall k | 0 <= k < |runs| :: runs[k].start <= runs[k].stop <= n
  }

  function RunUnits(f: nat, file: TestFile, runs: seq<Run>): (units: seq<Unit>)
    requires file.description.Suite? && RunsFit(runs, |file.description.children|)
    ensures |units| == |runs| && forall k | 0 <= k < |runs| :: units[k] == RunUnit(f, file, runs[k])
  {
    seq(|runs|, (k: nat) requires k < |runs| && RunsFit(runs, |file.description.children|) => RunUnit(f, file, runs[k]))
  }

  /** The units of one file. */
  function FileUnits(f: nat, file: TestFile, splitFiles: seq<string>): seq<Unit>
  {
    if IsSplit(file, splitFiles) then
      var scopes := Scopes(file.description.children);
      CutFits(scopes);
      RunUnits(f, file, CutFrom(scopes, 0, 0))
    else [Unit(file.name, f, None)]
  }

  lemma CutFits(scopes: seq<set<string>>)
    ensures RunsFit(CutFrom(scopes, 0, 0), |scopes|)
  {
    CutEnds(scopes, 0, 0);
  }

  /** The units of the first n files. */
  function UnitsOf(files: seq<TestFile>, splitFiles: seq<string>, n: nat): seq<Unit>
    requires n <= |files|
  {
    if n == 0 then [] else UnitsOf(files, splitFiles, n - 1) + FileUnits(n - 1, files[n - 1], splitFiles)
  }

  function Keys(units: seq<Unit>): (r: seq<string>)
    ensures |r| == |units| && forall u | 0 <= u < |units| :: r[u] == units[u].key
  {
    seq(|units|, (u: nat) requires u < |units| => units[u].key)
  }

  /** The requested split modules are distinct discovered files. */
  predicate KnownSplits(files: seq<TestFile>, splitFiles: seq<string>)
  {
    NoRepeats(splitFiles) && forall name | name in splitFiles :: name in Names(files)
  }

  /** build_units: refuses bad split requests and ambiguous keys, and nothing else. */
  method BuildUnits(files: seq<TestFile>, splitFiles: seq<string>) returns (r: Result<seq<Unit>>)
    requires Valid(files)
    ensures r.Ok? <==> KnownSplits(files, splitFiles) && NoRepeats(Keys(UnitsOf(files, splitFiles, |files|)))
    ensures r.Ok? ==> r.value == UnitsOf(files, splitFiles, |files|)
    ensures r.Ok? ==> AreFiles(splitFiles, files) && AreUnits(r.value, files, splitFiles) && NoRepeats(Keys(r.value))
    ensures r.Refused? && AreFiles(splitFiles, files) ==>
      exists units :: AreUnits(units, files, splitFiles) && !NoRepeats(Keys(units))
  {
    hide AreFiles, AreUnits, KnownSplits, NoRepeats;
    UnitsAre(files, splitFiles);
    KnownAreFiles(files, splitFiles);
    if !KnownSplits(files, splitFiles) { return Refused; }
    var units := [];
    for f := 0 to |files|
      invariant units == UnitsOf(files, splitFiles, f)
    {
      if !IsSplit(files[f], splitFiles) {
        units := units + [Unit(files[f].name, f, None)];
        continue;
      }
      var scopes := Scopes(files[f].description.children);
      PartsHaveScopes(files[f].description.children);
      var runs, covered := SplitAtFixtureBoundaries(scopes);
      CutFits(scopes);
      units := units + RunUnits(f, files[f], runs);
      if !covered { return Refused; }
    }
    if !NoRepeats(Keys(units)) { return Refused; }
    return Ok(units);
  }

  // ----- what the units are, without the algorithm -----

  /** The requested names are distinct and each is a file's. */
  ghost predicate AreFiles(splitFiles: seq<string>, files: seq<TestFile>)
  {
    NoRepeats(splitFiles) && forall name | name in splitFiles :: exists file :: file in files && file.name == name
  }

  /** No test of the one part is of the module of a test of the other. */
  ghost predicate OtherModules(parts: seq<Description>, i: nat, j: nat)
    requires i < |parts| && j < |parts|
  {
    forall a, b | a in Leaves(parts[i]) && b in Leaves(parts[j]) :: a.mod != b.mod
  }

  /** The cut keeps every module in one run. */
  ghost predicate KeepsModules(parts: seq<Description>, runs: seq<Run>)
  {
    forall k, l, i, j | 0 <= k < l < |runs| && runs[k].start <= i < runs[k].stop <= |parts|
      && runs[l].start <= j < runs[l].stop <= |parts| :: OtherModules(parts, i, j)
  }

  ghost predicate InsideOne(run: Run, others: seq<Run>)
  {
    exists other :: other in others && other.start <= run.start && run.stop <= other.stop
  }

  /** Every run lies inside one run of any other contiguous cut that keeps modules. */
  ghost predicate Finest(parts: seq<Description>, runs: seq<Run>)
  {
    forall others, run | Chain(others, 0, |parts|) && KeepsModules(parts, others) && run in runs ::
      InsideOne(run, others)
  }

  /** A module of some test in the run. */
  ghost predicate HasModule(parts: seq<Description>, run: Run, mod: string)
  {
    exists i, leaf | run.start <= i < run.stop <= |parts| && leaf in Leaves(parts[i]) :: leaf.mod == mod
  }

  /** The unit of one run: its parts, and the file's name with the modules in order. */
  ghost predicate IsRunUnit(unit: Unit, f: nat, file: TestFile, run: Run)
    requires file.description.Suite?
  {
    && unit.file == f && unit.children.Some?
    && |unit.children.value| == run.stop - run.start
    && (forall i | 0 <= i < |unit.children.value| :: unit.children.value[i] == run.start + i)
    && exists modules :: AreModules(modules, file.description.children, run)
         && unit.key == file.name + "::" + Join(modules, ",")
  }

  /** The modules of a run, sorted. */
  ghost predicate AreModules(modules: seq<string>, parts: seq<Description>, run: Run)
  {
    NoRepeats(modules) && SortedBy(AtMost, modules) && forall mod :: mod in modules <==> HasModule(parts, run, mod)
  }

  /** A requested file with a plain suite, at least one part and no empty part is cut as
      finely as its modules allow; every other file is one unit. */
  ghost predicate IsCut(f: nat, file: TestFile, splitFiles: seq<string>, units: seq<Unit>)
  {
    if file.name in splitFiles && file.splittable && file.description.Suite?
      && |file.description.children| > 0
      && forall part | part in file.description.children :: Leaves(part) != []
    then
      exists runs :: |runs| == |units| && Chain(runs, 0, |file.description.children|)
        && KeepsModules(file.description.children, runs) && Finest(file.description.children, runs)
        && forall k | 0 <= k < |runs| :: IsRunUnit(units[k], f, file, runs[k])
    else units == [Unit(file.name, f, None)]
  }

  /** The units are those of the files, one file after the other. */
  ghost predicate AreUnits(units: seq<Unit>, files: seq<TestFile>, splitFiles: seq<string>)
  {
    exists cuts :: AreCuts(cuts, files, splitFiles) && units == Concat(cuts)
  }

  ghost predicate AreCuts(cuts: seq<seq<Unit>>, files: seq<TestFile>, splitFiles: seq<string>)
  {
    |cuts| == |files| && forall f | 0 <= f < |files| :: IsCut(f, files[f], splitFiles, cuts[f])
  }

  ghost function Cuts(files: seq<TestFile>, splitFiles: seq<string>, n: nat): (cuts: seq<seq<Unit>>)
    requires n <= |files|
    ensures |cuts| == n && forall f | 0 <= f < n :: cuts[f] == FileUnits(f, files[f], splitFiles)
  {
    seq(n, (f: nat) requires f < n && n <= |files| => FileUnits(f, files[f], splitFiles))
  }

  lemma UnitsAre(files: seq<TestFile>, splitFiles: seq<string>)
    ensures AreUnits(UnitsOf(files, splitFiles, |files|), files, splitFiles)
  {
    hide FileUnits, IsCut, UnitsOf, Concat;
    var cuts := Cuts(files, splitFiles, |files|);
    CutsConcat(files, splitFiles, |files|);
    forall f | 0 <= f < |files| ensures IsCut(f, files[f], splitFiles, cuts[f]) { FileIsCut(f, files[f], splitFiles); }
    assert AreCuts(cuts, files, splitFiles);
  }

  lemma {:induction false} CutsConcat(files: seq<TestFile>, splitFiles: seq<string>, n: nat)
    requires n <= |files|
    ensures Concat(Cuts(files, splitFiles, n)) == UnitsOf(files, splitFiles, n)
  {
    hide FileUnits;
    if n > 0 {
      CutsConcat(files, splitFiles, n - 1);
      assert Cuts(files, splitFiles, n)[..n - 1] == Cuts(files, splitFiles, n - 1);
    }
  }

  lemma KnownAreFiles(files: seq<TestFile>, splitFiles: seq<string>)
    ensures KnownSplits(files, splitFiles) <==> AreFiles(splitFiles, files)
  {
    forall name ensures name in Names(files) <==> exists file :: file in files && file.name == name {
      if file :| file in files && file.name == name {
        var f :| 0 <= f < |files| && files[f] == file;
        assert Names(files)[f] == name;
      }
    }
  }

  lemma FileIsCut(f: nat, file: TestFile, splitFiles: seq<string>)
    ensures IsCut(f, file, splitFiles, FileUnits(f, file, splitFiles))
  {
    hide Chain, KeepsModules, Finest, IsRunUnit, RunUnit, CutFrom, Leaves;
    if IsSplit(file, splitFiles) {
      var parts := file.description.children;
      var scopes := Scopes(parts);
      var runs := CutFrom(scopes, 0, 0);
      CutFits(scopes);
      CutIsChain(scopes, 0, 0);
      CutKeepsModules(parts);
      CutIsFinestFor(parts);
      forall k | 0 <= k < |runs| ensures IsRunUnit(RunUnit(f, file, runs[k]), f, file, runs[k]) {
        RunUnitIs(f, file, runs[k]);
      }
      assert forall part | part in parts :: Leaves(part) != [];
    } else {
      SomeEmpty(file, splitFiles);
    }
  }

  lemma SomeEmpty(file: TestFile, splitFiles: seq<string>)
    requires !IsSplit(file, splitFiles)
    ensures !(file.name in splitFiles && file.splittable && file.description.Suite?
      && |file.description.children| > 0
      && forall part | part in file.description.children :: Leaves(part) != [])
  {
    hide Leaves;
    if file.description.Suite? && forall part | part in file.description.children :: Leaves(part) != [] {
      var parts := file.description.children;
      forall i | 0 <= i < |parts| ensures Leaves(parts[i]) != [] { assert parts[i] in parts; }
    }
  }

  lemma OtherModulesAre(parts: seq<Description>, i: nat, j: nat)
    requires i < |parts| && j < |parts|
    ensures OtherModules(parts, i, j) <==> Apart(Scopes(parts), i, j)
  {
    hide Leaves;
    var scopes := Scopes(parts);
    if Apart(scopes, i, j) {
      forall a, b | a in Leaves(parts[i]) && b in Leaves(parts[j]) ensures a.mod != b.mod {
        assert a.mod in scopes[i] && b.mod in scopes[j];
      }
    }
    if OtherModules(parts, i, j) {
      forall mod | mod in scopes[i] ensures mod !in scopes[j] {
        var a :| a in Leaves(parts[i]) && a.mod == mod;
        assert forall b | b in Leaves(parts[j]) :: b.mod != mod;
      }
    }
  }

  lemma ModulesOf(parts: seq<Description>, runs: seq<Run>)
    ensures KeepsModules(parts, runs) <==> KeepsScopes(Scopes(parts), runs)
  {
    hide Scopes, OtherModules, Apart;
    var scopes := Scopes(parts);
    forall i: nat, j: nat | i < |parts| && j < |parts| ensures OtherModules(parts, i, j) <==> Apart(scopes, i, j) {
      OtherModulesAre(parts, i, j);
    }
  }

  lemma CutKeepsModules(parts: seq<Description>)
    ensures KeepsModules(parts, CutFrom(Scopes(parts), 0, 0))
  {
    CutKeepsScopes(Scopes(parts));
    ModulesOf(parts, CutFrom(Scopes(parts), 0, 0));
  }

  lemma CutIsFinestFor(parts: seq<Description>)
    ensures Finest(parts, CutFrom(Scopes(parts), 0, 0))
  {
    hide CutFrom, Chain, KeepsModules, KeepsScopes;
    var runs := CutFrom(Scopes(parts), 0, 0);
    forall others, run | Chain(others, 0, |parts|) && KeepsModules(parts, others) && run in runs
      ensures InsideOne(run, others)
    {
      ModulesOf(parts, others);
      var k :| 0 <= k < |runs| && runs[k] == run;
      var l := CutIsFinest(Scopes(parts), others, k);
      assert others[l] in others;
    }
  }

  // the key

  lemma {:induction false} SqueezeKeeps(s: seq<string>)
    ensures (forall x :: x in Squeeze(s) <==> x in s) && (s != [] ==> Squeeze(s) != [] && Squeeze(s)[0] == s[0])
  {
    if |s| > 1 {
      SqueezeKeeps(s[1..]);
      assert s == [s[0]] + s[1..];
    }
  }

  /** Squeezing a sorted sequence leaves each element once. */
  lemma {:induction false} SqueezeOnce(s: seq<string>)
    requires SortedBy(AtMost, s)
    ensures SortedBy(AtMost, Squeeze(s)) && NoRepeats(Squeeze(s))
  {
    hide AtMost;
    if |s| > 1 {
      SqueezeOnce(s[1..]);
      SqueezeKeeps(s[1..]);
      if s[0] != s[1] { SqueezeFirst(s); }
    }
  }

  lemma SqueezeFirst(s: seq<string>)
    requires SortedBy(AtMost, s) && |s| > 1 && s[0] != s[1]
    requires SortedBy(AtMost, Squeeze(s[1..])) && NoRepeats(Squeeze(s[1..]))
    requires forall x :: x in Squeeze(s[1..]) <==> x in s[1..]
    ensures var r := [s[0]] + Squeeze(s[1..]); SortedBy(AtMost, r) && NoRepeats(r)
  {
    hide AtMost, Squeeze;
    var rest := Squeeze(s[1..]);
    forall i | 0 <= i < |rest| ensures AtMost(s[0], rest[i]) && s[0] != rest[i] {
      assert rest[i] in s[1..];
      var j :| 0 <= j < |s[1..]| && s[1..][j] == rest[i];
      assert s[j + 1] == rest[i] && AtMost(s[0], s[1]) && AtMost(s[1], s[j + 1]) by {
        if j == 0 { AtMostReflexive(s[1]); }
      }
      AtMostAntisymmetricAround(s[0], s[1], rest[i]);
    }
  }

  lemma AtMostReflexive(a: string)
    ensures AtMost(a, a)
  {
    AtMostTotal(a, a);
  }

  lemma AtMostAntisymmetricAround(a: string, b: string, c: string)
    requires AtMost(a, b) && AtMost(b, c) && a != b
    ensures AtMost(a, c) && a != c
  {
    AtMostTransitive(a, b, c);
    if a == c { AtMostAntisymmetric(a, b); }
  }

  lemma {:induction false} ModulesAt(parts: seq<Description>, members: seq<nat>, mod: string)
    requires forall i | 0 <= i < |members| :: members[i] < |parts|
    ensures mod in Modules(LeavesAt(parts, members)) <==>
      exists i, leaf | 0 <= i < |members| && leaf in Leaves(parts[members[i]]) :: leaf.mod == mod
  {
    hide Leaves;
    var all := LeavesAt(parts, members);
    InModules(all, mod);
    if members != [] {
      var first, rest := Leaves(parts[members[0]]), LeavesAt(parts, members[1..]);
      ModulesAt(parts, members[1..], mod);
      InModules(rest, mod);
      assert all == first + rest;
      if i: nat, leaf :| i < |members| && leaf in Leaves(parts[members[i]]) && leaf.mod == mod {
        if i > 0 { assert members[1..][i - 1] == members[i]; }
      }
      if leaf :| leaf in all && leaf.mod == mod {
        if leaf !in first {
          var i, l :| 0 <= i < |members[1..]| && l in Leaves(parts[members[1..][i]]) && l.mod == mod;
          assert members[i + 1] == members[1..][i];
        }
      }
    }
  }

  lemma InModules(leaves: seq<Leaf>, mod: string)
    ensures mod in Modules(leaves) <==> exists leaf | leaf in leaves :: leaf.mod == mod
  {
    if leaf :| leaf in leaves && leaf.mod == mod {
      var i :| 0 <= i < |leaves| && leaves[i] == leaf;
      assert Modules(leaves)[i] == mod;
    }
  }

  lemma RunUnitIs(f: nat, file: TestFile, run: Run)
    requires file.description.Suite? && run.start <= run.stop <= |file.description.children|
    ensures IsRunUnit(RunUnit(f, file, run), f, file, run)
  {
    hide Leaves, LeavesAt, AtMost, Sort, Squeeze, Join, Modules, HasModule;
    var parts, members := file.description.children, Members(run);
    var all := Modules(LeavesAt(parts, members));
    var sorted := Sort(AtMost, all);
    StringsTotallyOrdered();
    SortSorts(AtMost, all);
    SqueezeOnce(sorted);
    SqueezeKeeps(sorted);
    forall mod ensures mod in Squeeze(sorted) <==> HasModule(parts, run, mod) {
      assert mod in sorted <==> mod in multiset(sorted);
      assert mod in all <==> mod in multiset(all);
      ModulesAt(parts, members, mod);
      RunHasModule(parts, run, mod);
    }
  }

  lemma RunHasModule(parts: seq<Description>, run: Run, mod: string)
    requires run.start <= run.stop <= |parts|
    ensures HasModule(parts, run, mod) <==>
      exists i, leaf | 0 <= i < |Members(run)| && leaf in Leaves(parts[Members(run)[i]]) :: leaf.mod == mod
  {
    hide Leaves;
    if HasModule(parts, run, mod) {
      var i, leaf :| run.start <= i < run.stop <= |parts| && leaf in Leaves(parts[i]) && leaf.mod == mod;
      assert Members(run)[i - run.start] == i;
    }
  }

  lemma PartsHaveScopes(parts: seq<Description>)
    requires forall i | 0 <= i < |parts| :: Leaves(parts[i]) != []
    ensures forall i | 0 <= i < |parts| :: Scopes(parts)[i] != {}
  {
    forall i | 0 <= i < |parts| ensures Scopes(parts)[i] != {} {
      assert Leaves(parts[i])[0].mod in Scopes(parts)[i];
    }
  }

  // ----- nothing is lost or repeated -----

  ghost predicate UnitFits(unit: Unit, files: seq<TestFile>)
  {
    && unit.file < |files|
    && (unit.children.Some? ==> files[unit.file].description.Suite?)
    && (unit.children.Some? ==>
          forall i | 0 <= i < |unit.children.value| :: unit.children.value[i] < |files[unit.file].description.children|)
  }

  /** unit_leaves. */
  function UnitLeaves(unit: Unit, files: seq<TestFile>): seq<Leaf>
    requires UnitFits(unit, files)
  {
    var description := files[unit.file].description;
    if unit.children.None? then Leaves(description) else LeavesAt(description.children, unit.children.value)
  }

  ghost predicate AllFit(units: seq<Unit>, files: seq<TestFile>)
  {
    forall u | 0 <= u < |units| :: UnitFits(units[u], files)
  }

  function LeavesOfUnits(units: seq<Unit>, files: seq<TestFile>): seq<Leaf>
    requires AllFit(units, files)
  {
    if units == [] then [] else LeavesOfUnits(units[..|units| - 1], files) + UnitLeaves(units[|units| - 1], files)
  }

  function Descriptions(files: seq<TestFile>, n: nat): (ds: seq<Description>)
    requires n <= |files|
    ensures |ds| == n && forall f | 0 <= f < n :: ds[f] == files[f].description
  {
    seq(n, (f: nat) requires f < n && n <= |files| => files[f].description)
  }

  lemma {:induction false} LeavesOfConcat(a: seq<Description>, b: seq<Description>)
    ensures LeavesOf(a + b) == LeavesOf(a) + LeavesOf(b)
  {
    hide Leaves;
    if a == [] {
      assert a + b == b;
    } else {
      LeavesOfConcat(a[1..], b);
      assert (a + b)[1..] == a[1..] + b;
      Associates(Leaves(a[0]), LeavesOf(a[1..]), LeavesOf(b));
    }
  }

  lemma AllFitConcat(a: seq<Unit>, b: seq<Unit>, files: seq<TestFile>)
    requires AllFit(a, files) && AllFit(b, files)
    ensures AllFit(a + b, files)
  {
    hide UnitFits;
  }

  lemma LeavesOfUnitsSnoc(a: seq<Unit>, unit: Unit, files: seq<TestFile>)
    requires AllFit(a, files) && UnitFits(unit, files)
    ensures AllFit(a + [unit], files)
    ensures LeavesOfUnits(a + [unit], files) == LeavesOfUnits(a, files) + UnitLeaves(unit, files)
  {
    assert (a + [unit])[..|a|] == a;
  }

  lemma {:induction false} LeavesOfUnitsConcat(a: seq<Unit>, b: seq<Unit>, files: seq<TestFile>)
    requires AllFit(a, files) && AllFit(b, files)
    ensures AllFit(a + b, files)
    ensures LeavesOfUnits(a + b, files) == LeavesOfUnits(a, files) + LeavesOfUnits(b, files)
  {
    hide UnitFits, UnitLeaves;
    AllFitConcat(a, b, files);
    if b == [] {
      assert a + b == a;
    } else {
      var before, last := b[..|b| - 1], b[|b| - 1];
      assert b == before + [last];
      Associates(a, before, [last]);
      AllFitConcat(a, before, files);
      LeavesOfUnitsConcat(a, before, files);
      LeavesOfUnitsSnoc(a + before, last, files);
      LeavesOfUnitsSnoc(before, last, files);
      Associates(LeavesOfUnits(a, files), LeavesOfUnits(before, files), UnitLeaves(last, files));
    }
  }

  lemma {:induction false} LeavesOfMembers(parts: seq<Description>, run: Run)
    requires run.start <= run.stop <= |parts|
    ensures LeavesAt(parts, Members(run)) == LeavesOf(parts[run.start..run.stop])
    decreases run.stop - run.start
  {
    if run.start < run.stop {
      assert Members(run)[1..] == Members(Run(run.start + 1, run.stop));
      LeavesOfMembers(parts, Run(run.start + 1, run.stop));
    }
  }

  lemma RunCarriesParts(f: nat, files: seq<TestFile>, run: Run)
    requires f < |files| && files[f].description.Suite? && run.start <= run.stop <= |files[f].description.children|
    ensures UnitFits(RunUnit(f, files[f], run), files)
    ensures AllFit([RunUnit(f, files[f], run)], files)
    ensures LeavesOfUnits([RunUnit(f, files[f], run)], files)
      == LeavesOf(files[f].description.children[run.start..run.stop])
  {
    LeavesOfMembers(files[f].description.children, run);
    assert LeavesOfUnits([], files) == [];
    assert [RunUnit(f, files[f], run)][..0] == [];
  }

  lemma LeavesSplit(parts: seq<Description>, from: nat, mid: nat)
    requires from <= mid <= |parts|
    ensures LeavesOf(parts[from..]) == LeavesOf(parts[from..mid]) + LeavesOf(parts[mid..])
  {
    LeavesOfConcat(parts[from..mid], parts[mid..]);
    assert parts[from..] == parts[from..mid] + parts[mid..];
  }

  /** The runs of a chain carry the parts' tests, in order. */
  lemma {:induction false} RunsCarryParts(f: nat, files: seq<TestFile>, runs: seq<Run>, from: nat)
    requires f < |files| && files[f].description.Suite?
    requires Chain(runs, from, |files[f].description.children|) && RunsFit(runs, |files[f].description.children|)
    ensures AllFit(RunUnits(f, files[f], runs), files)
    ensures LeavesOfUnits(RunUnits(f, files[f], runs), files) == LeavesOf(files[f].description.children[from..])
    decreases |runs|
  {
    hide UnitFits, UnitLeaves, Leaves;
    if runs != [] {
      var first, rest := [RunUnit(f, files[f], runs[0])], RunUnits(f, files[f], runs[1..]);
      assert RunUnits(f, files[f], runs) == first + rest;
      RunsCarryParts(f, files, runs[1..], runs[0].stop);
      RunCarriesParts(f, files, runs[0]);
      LeavesOfUnitsConcat(first, rest, files);
      LeavesSplit(files[f].description.children, from, runs[0].stop);
    }
  }

  lemma FileUnitsCarry(f: nat, files: seq<TestFile>, splitFiles: seq<string>)
    requires f < |files|
    ensures AllFit(FileUnits(f, files[f], splitFiles), files)
    ensures LeavesOfUnits(FileUnits(f, files[f], splitFiles), files) == Leaves(files[f].description)
  {
    if IsSplit(files[f], splitFiles) {
      var scopes := Scopes(files[f].description.children);
      CutIsChain(scopes, 0, 0);
      CutFits(scopes);
      RunsCarryParts(f, files, CutFrom(scopes, 0, 0), 0);
      assert files[f].description.children[0..] == files[f].description.children;
    }
  }

  lemma LeavesOfSnoc(files: seq<TestFile>, n: nat)
    requires 0 < n <= |files|
    ensures LeavesOf(Descriptions(files, n)) == LeavesOf(Descriptions(files, n - 1)) + Leaves(files[n - 1].description)
  {
    var last := [files[n - 1].description];
    LeavesOfConcat(Descriptions(files, n - 1), last);
    assert Descriptions(files, n) == Descriptions(files, n - 1) + last;
    assert last[1..] == [];
    assert LeavesOf(last) == Leaves(last[0]) + LeavesOf(last[1..]);
  }

  lemma NoUnits(files: seq<TestFile>)
    ensures LeavesOfUnits([], files) == LeavesOf(Descriptions(files, 0))
  {
  }

  /** Conservation: the units hold the discovered tests, each once and in order. */
  lemma {:induction false} UnitsCarryEveryTest(files: seq<TestFile>, splitFiles: seq<string>, n: nat)
    requires n <= |files|
    ensures AllFit(UnitsOf(files, splitFiles, n), files)
    ensures LeavesOfUnits(UnitsOf(files, splitFiles, n), files) == LeavesOf(Descriptions(files, n))
  {
    hide FileUnits, UnitFits, LeavesOfUnits, LeavesOf, Leaves;
    if n == 0 {
      NoUnits(files);
    } else {
      var before, here := UnitsOf(files, splitFiles, n - 1), FileUnits(n - 1, files[n - 1], splitFiles);
      UnitsCarryEveryTest(files, splitFiles, n - 1);
      FileUnitsCarry(n - 1, files, splitFiles);
      LeavesOfUnitsConcat(before, here, files);
      LeavesOfSnoc(files, n);
      assert UnitsOf(files, splitFiles, n) == before + here;
    }
  }

  // ----- spreading units over workers -----

  function UnitCost(unit: Unit, files: seq<TestFile>, costs: map<string, real>): real
    requires UnitFits(unit, files)
  {
    if unit.key in costs then costs[unit.key] else |UnitLeaves(unit, files)| as real * 0.02
  }

  function UnitCosts(units: seq<Unit>, files: seq<TestFile>, costs: map<string, real>): (v: seq<real>)
    requires AllFit(units, files)
    ensures |v| == |units| && forall u | 0 <= u < |units| :: v[u] == UnitCost(units[u], files, costs)
  {
    seq(|units|, (u: nat) requires u < |units| && AllFit(units, files) => UnitCost(units[u], files, costs))
  }

  predicate NatAtMost(a: nat, b: nat) { a <= b }

  function SortGroups(groups: seq<seq<nat>>): (r: seq<seq<nat>>)
    ensures |r| == |groups| && forall w | 0 <= w < |r| :: r[w] == Sort(NatAtMost, groups[w])
  {
    seq(|groups|, (w: nat) requires w < |groups| => Sort(NatAtMost, groups[w]))
  }

  predicate ValidCosts(costs: map<string, real>)
  {
    forall name | name in costs :: name != "" && costs[name] >= 0.0
  }

  lemma WeightsAre(units: seq<Unit>, files: seq<TestFile>, costs: Option<map<string, real>>)
    requires AllFit(units, files)
    ensures Weights(UnitCosts(units, files, if costs.Some? then costs.value else map[]), units, files, costs)
  {
    hide UnitFits, UnitLeaves;
  }

  lemma UnitCostsNonNegative(units: seq<Unit>, files: seq<TestFile>, costs: map<string, real>)
    requires AllFit(units, files) && ValidCosts(costs)
    ensures NonNegative(UnitCosts(units, files, costs))
  {
    hide UnitFits, UnitLeaves;
  }

  /** The measured seconds of a unit, or 0.02 for each of its tests. */
  ghost predicate Weights(v: seq<real>, units: seq<Unit>, files: seq<TestFile>, costs: Option<map<string, real>>)
    requires AllFit(units, files)
  {
    |v| == |units| && forall u | 0 <= u < |v| ::
      if costs.Some? && units[u].key in costs.value then v[u] == costs.value[units[u].key]
      else v[u] == 0.02 * |UnitLeaves(units[u], files)| as real
  }

  /** Each unit in this order went to the first worker with the least load. */
  ghost predicate Handed(groups: seq<seq<nat>>, order: seq<nat>, v: seq<real>)
  {
    && |groups| > 0 && InRange(order, |v|)
    && groups == SortGroups(Buckets(order, GreedyAssign(At(v, order), |groups|), |groups|))
  }

  /** partition_units.  costs is None when no measurements were given. */
  method PartitionUnits(units: seq<Unit>, files: seq<TestFile>, workers: int, costs: Option<map<string, real>>)
    returns (r: Result<seq<seq<nat>>>)
    requires AllFit(units, files)
    ensures r.Ok? <==> 1 <= workers <= 16 && units != [] && (costs.Some? ==>
      forall name | name in costs.value :: |name| > 0 && costs.value[name] >= 0.0)
    ensures Weights(UnitCosts(units, files, if costs.Some? then costs.value else map[]), units, files, costs)
    ensures r.Ok? ==>
      var v := UnitCosts(units, files, if costs.Some? then costs.value else map[]);
      var groups := r.value;
      && |groups| == (if workers <= |units| then workers else |units|)
      && (forall w | 0 <= w < |groups| :: SortedBy(NatAtMost, groups[w]))
      && multiset(Concat(groups)) == multiset(Upto(|units|))
      && Balanced(v, groups)
      && ((forall w | 0 <= w < |groups| :: groups[w] != []) <==> PositiveCount(v) + 1 >= |groups|)
      && exists order :: InScheduleOrder(order, v, Keys(units)) && Handed(groups, order, v)
  {
    hide Balanced, SortedBy, Concat, Falling, PositiveCount, UnitCost, UnitFits, GreedyAssign, Weights, InScheduleOrder;
    WeightsAre(units, files, costs);
    if workers < 1 || workers > 16 || units == [] { return Refused; }
    if costs.Some? && !ValidCosts(costs.value) { return Refused; }
    var known := if costs.Some? then costs.value else map[];
    var v := UnitCosts(units, files, known);
    var order := ScheduleOrder(v, Keys(units));
    ScheduleOrderFacts(v, Keys(units));
    UnitCostsNonNegative(units, files, known);
    var m := if workers <= |units| then workers else |units|;
    var groups, _ := AssignInOrder(order, At(v, order), m);
    GroupsFromOrder(v, order, m, groups);
    assert Handed(SortGroups(groups), order, v);
    return Ok(SortGroups(groups));
  }

  lemma {:induction false} ConcatSorted(groups: seq<seq<nat>>)
    ensures multiset(Concat(SortGroups(groups))) == multiset(Concat(groups))
  {
    if groups != [] {
      var n := |groups| - 1;
      ConcatSorted(groups[..n]);
      assert SortGroups(groups)[..n] == SortGroups(groups[..n]);
    }
  }

  lemma GroupsFromOrder(v: seq<real>, order: seq<nat>, m: nat, groups: seq<seq<nat>>)
    requires 0 < m <= |v| && NonNegative(v) && |order| == |v| && multiset(order) == multiset(Upto(|v|))
    requires InRange(order, |v|) && Falling(At(v, order))
    requires groups == Buckets(order, GreedyAssign(At(v, order), m), m)
    ensures var sorted := SortGroups(groups);
      && |sorted| == m
      && (forall w | 0 <= w < m :: SortedBy(NatAtMost, sorted[w]))
      && multiset(Concat(sorted)) == multiset(Upto(|v|))
      && Balanced(v, sorted)
      && ((forall w | 0 <= w < m :: sorted[w] != []) <==> PositiveCount(v) + 1 >= m)
  {
    hide Balanced, Concat, GreedyAssign, Falling, PositiveCount, SortedBy, NonNegative;
    var sorted := SortGroups(groups);
    var assign := GreedyAssign(At(v, order), m);
    assert TotalOrder(NatAtMost);
    forall w | 0 <= w < m ensures SortedBy(NatAtMost, sorted[w]) {
      SortSorts(NatAtMost, groups[w]);
    }
    ConcatSorted(groups);
    BucketsConserve(order, assign, m);
    GroupsBalanced(v, order, m, sorted);
    GroupsNonEmpty(v, order, m);
  }

  lemma GroupsNonEmpty(v: seq<real>, order: seq<nat>, m: nat)
    requires 0 < m <= |v| && NonNegative(v) && |order| == |v| && multiset(order) == multiset(Upto(|v|))
    requires InRange(order, |v|) && Falling(At(v, order))
    ensures var sorted := SortGroups(Buckets(order, GreedyAssign(At(v, order), m), m));
      (forall w | 0 <= w < m :: sorted[w] != []) <==> PositiveCount(v) + 1 >= m
  {
    var assign := GreedyAssign(At(v, order), m);
    var groups := Buckets(order, assign, m);
    var sorted := SortGroups(groups);
    NoWorkerIdle(At(v, order), m);
    PositiveCountPermuted(v, order);
    forall w: nat | w < m ensures sorted[w] != [] <==> Used(assign, w) {
      UsedBucket(order, assign, w);
    }
    if AllUsed(assign, m) {
      forall w | 0 <= w < m ensures sorted[w] != [] { assert Used(assign, w); }
    }
    if forall w | 0 <= w < m :: sorted[w] != [] {
      forall w: nat | w < m ensures Used(assign, w) { assert sorted[w] != []; }
    }
  }

  // ----- every discovered test reaches exactly one worker -----

  function Pick(units: seq<Unit>, indices: seq<nat>): (r: seq<Unit>)
    requires InRange(indices, |units|)
    ensures |r| == |indices| && forall k | 0 <= k < |r| :: r[k] == units[indices[k]]
  {
    At(units, indices)
  }

  /** How often a test occurs in each unit. */
  ghost function Occurrences(units: seq<Unit>, files: seq<TestFile>, leaf: Leaf): (v: seq<real>)
    requires AllFit(units, files)
    ensures |v| == |units|
    ensures forall u | 0 <= u < |units| :: v[u] == multiset(UnitLeaves(units[u], files))[leaf] as real
  {
    seq(|units|, (u: nat) requires u < |units| && AllFit(units, files) =>
      multiset(UnitLeaves(units[u], files))[leaf] as real)
  }

  lemma {:induction false} OccurrencesAddUp(units: seq<Unit>, files: seq<TestFile>, leaf: Leaf, indices: seq<nat>)
    requires AllFit(units, files) && InRange(indices, |units|)
    ensures AllFit(Pick(units, indices), files)
    ensures multiset(LeavesOfUnits(Pick(units, indices), files))[leaf] as real
      == VectorSum(Occurrences(units, files, leaf), indices)
  {
    hide UnitFits, UnitLeaves;
    if indices != [] {
      var n := |indices| - 1;
      var before, last := Pick(units, indices[..n]), units[indices[n]];
      OccurrencesAddUp(units, files, leaf, indices[..n]);
      assert Pick(units, indices) == before + [last];
      LeavesOfUnitsSnoc(before, last, files);
      JoinCounts(LeavesOfUnits(before, files), UnitLeaves(last, files), leaf);
    }
  }

  /** The workers together run every discovered test exactly as often as it was discovered. */
  lemma EveryTestReachesOneWorker(files: seq<TestFile>, splitFiles: seq<string>, groups: seq<seq<nat>>)
    requires var units := UnitsOf(files, splitFiles, |files|); multiset(Concat(groups)) == multiset(Upto(|units|))
    ensures var units := UnitsOf(files, splitFiles, |files|);
      && AllFit(units, files) && InRange(Concat(groups), |units|)
      && AllFit(Pick(units, Concat(groups)), files)
      && multiset(LeavesOfUnits(Pick(units, Concat(groups)), files)) == multiset(LeavesOf(Descriptions(files, |files|)))
  {
    hide UnitsOf, LeavesOf, Occurrences, Descriptions, VectorSum;
    var units := UnitsOf(files, splitFiles, |files|);
    var all := Concat(groups);
    UnitsCarryEveryTest(files, splitFiles, |files|);
    InRangePermuted(Upto(|units|), all, |units|);
    assert AllFit(Pick(units, all), files);
    assert Pick(units, Upto(|units|)) == units;
    var a, b := LeavesOfUnits(Pick(units, all), files), LeavesOfUnits(units, files);
    forall leaf: Leaf ensures multiset(a)[leaf] == multiset(b)[leaf] {
      OccurrencesAddUp(units, files, leaf, all);
      OccurrencesAddUp(units, files, leaf, Upto(|units|));
      VectorSumPermuted(Occurrences(units, files, leaf), all, Upto(|units|));
    }
  }
}
