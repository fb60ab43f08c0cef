/** scripts/run_checkout_tests.py: assigning test classes to workers, and admitting a
    controller phase for load_tests hooks. */
module CheckoutPlan {
  import opened Outcomes
  import opened Sequences
  import opened Ordering
  import opened GreedySchedule

  // ----- partition -----

  /** Everything before the last dot; nothing if there is none. */
  function BeforeLastDot(id: string): string
  {
    if id == "" then ""
    else if id[|id| - 1] == '.' then id[..|id| - 1]
    else BeforeLastDot(id[..|id| - 1])
  }

  function ClassOf(id: string): string
  {
    var prefix := BeforeLastDot(id);
    if prefix == "" then id else prefix
  }

  // what a class is

  ghost predicate Dotless(name: string)
  {
    '.' !in name
  }

  /** The identity is the class name, a dot, and a name without dots. */
  ghost predicate InClass(id: string, cls: string)
  {
    cls != "" && |cls| < |id| && cls <= id && id[|cls|] == '.' && Dotless(id[|cls| + 1..])
  }

  /** ... or it stands for a class of its own. */
  ghost predicate Belongs(id: string, cls: string)
  {
    InClass(id, cls) || (id == cls && forall p: string :: !InClass(id, p))
  }

  lemma {:induction false} BeforeLastDotFacts(id: string)
    ensures var r := BeforeLastDot(id);
      || (Dotless(id) && r == "")
      || (|r| < |id| && r <= id && id[|r|] == '.' && Dotless(id[|r| + 1..]))
  {
    if id != "" && id[|id| - 1] != '.' {
      var shorter := id[..|id| - 1];
      BeforeLastDotFacts(shorter);
      var r := BeforeLastDot(shorter);
      assert id == shorter + [id[|id| - 1]];
      if !Dotless(shorter) || r != "" {
        assert id[|r| + 1..] == shorter[|r| + 1..] + [id[|id| - 1]];
      }
    }
  }

  lemma OneLastDot(id: string, p: string, q: string)
    requires |p| < |id| && p <= id && id[|p|] == '.' && Dotless(id[|p| + 1..])
    requires |q| < |id| && q <= id && id[|q|] == '.' && Dotless(id[|q| + 1..])
    ensures p == q
  {
    assert forall i | |p| < i < |id| :: id[i] == id[|p| + 1..][i - |p| - 1] && id[i] != '.';
    assert forall i | |q| < i < |id| :: id[i] == id[|q| + 1..][i - |q| - 1] && id[i] != '.';
  }

  /** rpartition takes a class name off exactly so. */
  lemma ClassOfExactly(id: string, cls: string)
    ensures ClassOf(id) == cls <==> Belongs(id, cls)
  {
    BeforeLastDotFacts(id);
    var r := BeforeLastDot(id);
    forall p: string | InClass(id, p) ensures p == r {
      assert id[|p|] in id;
      OneLastDot(id, p, r);
    }
    assert r != "" ==> InClass(id, r);
  }

  /** The class of p.n is p. */
  lemma ClassOfQualified(p: string, n: string)
    requires p != "" && Dotless(n)
    ensures ClassOf(p + "." + n) == p
  {
    var id := p + "." + n;
    assert id[|p| + 1..] == n;
    assert InClass(id, p);
    ClassOfExactly(id, p);
  }

  /** The identities of one class, in the given order. */
  function MembersOf(ids: seq<string>, cls: string): seq<string>
  {
    if ids == [] then []
    else MembersOf(ids[..|ids| - 1], cls) + (if ClassOf(ids[|ids| - 1]) == cls then [ids[|ids| - 1]] else [])
  }

  /** The classes in order of first appearance: the keys of the dictionary `classes`. */
  function ClassNames(ids: seq<string>): (names: seq<string>)
  {
    if ids == [] then []
    else
      var before := ClassNames(ids[..|ids| - 1]);
      var cls := ClassOf(ids[|ids| - 1]);
      if cls in before then before else before + [cls]
  }

  lemma {:induction false} ClassNamesFacts(ids: seq<string>)
    ensures NoRepeats(ClassNames(ids))
    ensures forall cls :: cls in ClassNames(ids) <==> exists id | id in ids :: ClassOf(id) == cls
  {
    if ids != [] {
      var n := |ids| - 1;
      ClassNamesFacts(ids[..n]);
      assert ids == ids[..n] + [ids[n]];
      forall cls ensures cls in ClassNames(ids) <==> exists id | id in ids :: ClassOf(id) == cls {
        if cls in ClassNames(ids[..n]) {
          var id :| id in ids[..n] && ClassOf(id) == cls;
          assert id in ids;
        } else if cls == ClassOf(ids[n]) {
          assert ids[n] in ids;
        } else {
          forall id | id in ids ensures ClassOf(id) != cls {
            if id in ids[..n] { assert ClassOf(id) in ClassNames(ids[..n]); }
          }
        }
      }
    }
  }

  predicate ValidClassCosts(costs: map<string, real>)
  {
    forall name | name in costs :: name != "" && costs[name] > 0.0
  }

  /** Seconds measured for a class, or a weight per test. */
  function ClassCost(cls: string, members: seq<string>, costs: Option<map<string, real>>): real
  {
    if costs.Some? && cls in costs.value then costs.value[cls]
    else |members| as real * (if costs.Some? then 0.02 else 1.0)
  }

  function ClassCosts(ids: seq<string>, names: seq<string>, costs: Option<map<string, real>>): (v: seq<real>)
    ensures |v| == |names|
    ensures forall i | 0 <= i < |v| :: v[i] == ClassCost(names[i], MembersOf(ids, names[i]), costs)
  {
    seq(|names|, (i: nat) requires i < |names| => ClassCost(names[i], MembersOf(ids, names[i]), costs))
  }

  /** All members of the classes of one bucket, class after class. */
  function Extend(ids: seq<string>, names: seq<string>, bucket: seq<nat>): seq<string>
    requires InRange(bucket, |names|)
  {
    if bucket == [] then []
    else Extend(ids, names, bucket[..|bucket| - 1]) + MembersOf(ids, names[bucket[|bucket| - 1]])
  }

  /** What partition computes once the identities are sorted. */
  datatype ClassSplit = ClassSplit(ids: seq<string>, names: seq<string>, v: seq<real>, order: seq<nat>, m: nat)

  predicate ValidRequest(identities: seq<string>, workers: int, costs: Option<map<string, real>>)
  {
    && 1 <= workers <= 16 && identities != []
    && NoRepeats(identities)
    && (costs.Some? ==> ValidClassCosts(costs.value))
  }

  function Split(identities: seq<string>, workers: int, costs: Option<map<string, real>>): (s: ClassSplit)
    requires ValidRequest(identities, workers, costs)
  {
    var ids := Sort(AtMost, identities);
    var names := ClassNames(ids);
    var v := ClassCosts(ids, names, costs);
    ClassSplit(ids, names, v, ScheduleOrder(v, names), if workers <= |names| then workers else |names|)
  }

  /** The facts about a split that everything below needs. */
  ghost predicate Sound(s: ClassSplit)
  {
    && s.names == ClassNames(s.ids) && |s.v| == |s.names| && |s.order| == |s.names|
    && InRange(s.order, |s.names|) && multiset(s.order) == multiset(Upto(|s.names|))
    && Falling(At(s.v, s.order)) && (forall i | 0 <= i < |s.v| :: s.v[i] > 0.0)
    && 0 < s.m <= |s.names|
  }

  lemma MembersNonEmpty(ids: seq<string>, cls: string)
    requires exists id | id in ids :: ClassOf(id) == cls
    ensures MembersOf(ids, cls) != []
  {
    var id :| id in ids && ClassOf(id) == cls;
    if ClassOf(ids[|ids| - 1]) != cls {
      assert id in ids[..|ids| - 1];
      MembersNonEmpty(ids[..|ids| - 1], cls);
    }
  }

  lemma SplitSound(identities: seq<string>, workers: int, costs: Option<map<string, real>>)
    requires ValidRequest(identities, workers, costs)
    ensures Sound(Split(identities, workers, costs))
  {
    hide Sort, SortedBy, ScheduleOrder, ClassNames;
    var s := Split(identities, workers, costs);
    ScheduleOrderFacts(s.v, s.names);
    ClassNamesFacts(s.ids);
    assert s.ids[0] in s.ids && ClassOf(s.ids[0]) in s.names;
    forall i | 0 <= i < |s.v| ensures s.v[i] > 0.0 {
      assert s.names[i] in s.names;
      MembersNonEmpty(s.ids, s.names[i]);
    }
  }

  /** The classes of each worker. */
  function ClassBuckets(s: ClassSplit): (buckets: seq<seq<nat>>)
    requires s.m > 0 && |s.order| == |s.v| && InRange(s.order, |s.v|)
    ensures |buckets| == s.m
  {
    Buckets(s.order, GreedyAssign(At(s.v, s.order), s.m), s.m)
  }

  ghost predicate AllInRange(buckets: seq<seq<nat>>, n: nat)
  {
    forall w | 0 <= w < |buckets| :: InRange(buckets[w], n)
  }

  lemma BucketsInRange(s: ClassSplit)
    requires Sound(s)
    ensures AllInRange(ClassBuckets(s), |s.names|)
  {
    var assign := GreedyAssign(At(s.v, s.order), s.m);
    forall w | 0 <= w < s.m ensures InRange(ClassBuckets(s)[w], |s.names|) {
      BucketCost(s.v, s.order, assign, w);
    }
  }

  /** The sorted identities of each worker. */
  function GroupsFor(s: ClassSplit, buckets: seq<seq<nat>>): (groups: seq<seq<string>>)
    requires AllInRange(buckets, |s.names|)
    ensures |groups| == |buckets|
  {
    if buckets == [] then []
    else
      var n := |buckets| - 1;
      GroupsFor(s, buckets[..n]) + [Sort(AtMost, Extend(s.ids, s.names, buckets[n]))]
  }

  lemma {:induction false} GroupAt(s: ClassSplit, buckets: seq<seq<nat>>, w: nat)
    requires AllInRange(buckets, |s.names|) && w < |buckets|
    ensures GroupsFor(s, buckets)[w] == Sort(AtMost, Extend(s.ids, s.names, buckets[w]))
  {
    hide Sort, AtMost, Extend, InRange;
    var n := |buckets| - 1;
    if w < n { GroupAt(s, buckets[..n], w); }
  }

  function GroupsOf(s: ClassSplit): (groups: seq<seq<string>>)
    requires Sound(s)
    ensures |groups| == s.m
  {
    BucketsInRange(s);
    GroupsFor(s, ClassBuckets(s))
  }

  /** partition: the assignment loop, then one sorted list of identities per worker. */
  method Partition(identities: seq<string>, workers: int, costs: Option<map<string, real>>)
    returns (r: Result<seq<seq<string>>>)
    ensures r.Ok? <==>
      && 1 <= workers <= 16 && |identities| > 0 && NoRepeats(identities)
      && (costs.Some? ==> forall name | name in costs.value :: |name| > 0 && costs.value[name] > 0.0)
    ensures r.Ok? ==> Sound(Split(identities, workers, costs))
    ensures r.Ok? ==> r.value == GroupsOf(Split(identities, workers, costs))
    ensures r.Ok? ==> Distributes(identities, workers, r.value)
    ensures r.Ok? ==> exists names, v, buckets :: Spread(identities, costs, r.value, names, v, buckets)
  {
    if !ValidRequest(identities, workers, costs) { return Refused; }
    var s := Split(identities, workers, costs);
    SplitSound(identities, workers, costs);
    var buckets, _ := AssignInOrder(s.order, At(s.v, s.order), s.m);
    BucketsInRange(s);
    SplitDistributes(identities, workers, costs);
    return Ok(GroupsFor(s, buckets));
  }

  // ----- what the groups are, without the algorithm -----

  /** names are the classes of the identities. */
  ghost predicate AreClasses(names: seq<string>, ids: seq<string>)
  {
    NoRepeats(names) && forall cls :: cls in names <==> exists id | id in ids :: Belongs(id, cls)
  }

  /** Every test is in one group, a class is never divided, no group is empty, and there are
      as many groups as workers or classes, whichever are fewer. */
  ghost predicate Distributes(ids: seq<string>, workers: int, groups: seq<seq<string>>)
  {
    && multiset(Concat(groups)) == multiset(ids)
    && (forall w | 0 <= w < |groups| :: groups[w] != [] && SortedBy(AtMost, groups[w]))
    && (forall w, p, a, b | 0 <= w < |groups| && InClass(a, p) && InClass(b, p) && a in groups[w] && b in ids ::
          b in groups[w])
    && exists names :: AreClasses(names, ids) && |groups| == if workers <= |names| then workers else |names|
  }

  /** The measured seconds of a class, or a weight for each of its tests: 0.02 next to
      measured ones. */
  ghost predicate Costs(v: real, cls: string, ids: seq<string>, costs: Option<map<string, real>>)
  {
    match costs
    case None => v == |TestsOf(cls, ids)| as real
    case Some(measured) => v == if cls in measured then measured[cls] else |TestsOf(cls, ids)| as real * 0.02
  }

  ghost function TestsOf(cls: string, ids: seq<string>): set<string>
  {
    set id | id in ids && Belongs(id, cls)
  }

  /** The groups are balanced for the costs of their classes. */
  ghost predicate Spread(ids: seq<string>, costs: Option<map<string, real>>, groups: seq<seq<string>>,
      names: seq<string>, v: seq<real>, buckets: seq<seq<nat>>)
  {
    && AreClasses(names, ids) && |v| == |names| && (forall i | 0 <= i < |v| :: Costs(v[i], names[i], ids, costs))
    && |buckets| == |groups| && AllInRange(buckets, |names|) && Balanced(v, buckets) && HandedOut(v, names, buckets)
    && forall w, id | 0 <= w < |groups| ::
      id in groups[w] <==> id in ids && InSomeClass(id, names, buckets[w])
  }

  /** Each class, the dearest first, went to the first worker with the least load. */
  ghost predicate HandedOut(v: seq<real>, names: seq<string>, buckets: seq<seq<nat>>)
    requires |v| == |names|
  {
    |buckets| > 0 && exists order: seq<nat> ::
      InScheduleOrder(order, v, names) && buckets == Buckets(order, GreedyAssign(At(v, order), |buckets|), |buckets|)
  }

  lemma ClassesAre(ids: seq<string>, names: seq<string>)
    requires names == ClassNames(ids)
    ensures AreClasses(names, ids)
  {
    hide ClassNames, ClassOf, Belongs;
    ClassNamesFacts(ids);
    forall id, cls ensures ClassOf(id) == cls <==> Belongs(id, cls) { ClassOfExactly(id, cls); }
  }

  lemma {:induction false} MembersAreTests(ids: seq<string>, cls: string)
    requires NoRepeats(ids)
    ensures TestsOf(cls, ids) == (set id | id in MembersOf(ids, cls)) && |TestsOf(cls, ids)| == |MembersOf(ids, cls)|
  {
    hide ClassOf, TestsOf, Belongs;
    if ids == [] {
      NoTests(cls);
    } else {
      var n := |ids| - 1;
      MembersAreTests(ids[..n], cls);
      ClassOfExactly(ids[n], cls);
      LastTest(cls, ids);
    }
  }

  lemma NoTests(cls: string)
    ensures TestsOf(cls, []) == {}
  {
  }

  lemma LastTest(cls: string, ids: seq<string>)
    requires ids != [] && NoRepeats(ids)
    ensures var n := |ids| - 1;
      && TestsOf(cls, ids) == TestsOf(cls, ids[..n]) + (if Belongs(ids[n], cls) then {ids[n]} else {})
      && ids[n] !in TestsOf(cls, ids[..n])
  {
    hide Belongs;
    assert ids == ids[..|ids| - 1] + [ids[|ids| - 1]];
  }

  lemma CostsAre(ids: seq<string>, cls: string, costs: Option<map<string, real>>)
    requires NoRepeats(ids)
    ensures Costs(ClassCost(cls, MembersOf(ids, cls), costs), cls, ids, costs)
  {
    MembersAreTests(ids, cls);
  }

  lemma {:induction false} InBucket(s: ClassSplit, bucket: seq<nat>, id: string)
    requires InRange(bucket, |s.names|)
    ensures id in Extend(s.ids, s.names, bucket) <==> id in s.ids && InSomeClass(id, s.names, bucket)
  {
    hide ClassOf, Belongs, InSomeClass;
    NoClass(id, s.names);
    if bucket != [] {
      var n := |bucket| - 1;
      InBucket(s, bucket[..n], id);
      OneMoreClass(id, s.names, bucket);
      AreMembers(s.ids, s.names[bucket[n]], id);
    }
  }

  lemma AreMembers(ids: seq<string>, cls: string, id: string)
    ensures id in MembersOf(ids, cls) <==> id in ids && Belongs(id, cls)
  {
    hide ClassOf, Belongs, MembersOf;
    MembersExact(ids, cls, id);
    ClassOfExactly(id, cls);
    assert id in MembersOf(ids, cls) <==> id in multiset(MembersOf(ids, cls));
    assert id in ids <==> id in multiset(ids);
  }

  /** The identity belongs to one of the listed classes. */
  ghost predicate InSomeClass(id: string, names: seq<string>, bucket: seq<nat>)
    requires InRange(bucket, |names|)
  {
    exists k | 0 <= k < |bucket| :: Belongs(id, names[bucket[k]])
  }

  lemma NoClass(id: string, names: seq<string>)
    ensures !InSomeClass(id, names, [])
  {
  }

  lemma OneMoreClass(id: string, names: seq<string>, bucket: seq<nat>)
    requires bucket != [] && InRange(bucket, |names|)
    ensures var n := |bucket| - 1;
      InSomeClass(id, names, bucket) <==> InSomeClass(id, names, bucket[..n]) || Belongs(id, names[bucket[n]])
  {
    hide Belongs;
    var n := |bucket| - 1;
    if InSomeClass(id, names, bucket[..n]) {
      var k :| 0 <= k < n && Belongs(id, names[bucket[..n][k]]);
      assert Belongs(id, names[bucket[k]]);
    }
    assert forall k | 0 <= k < n :: bucket[..n][k] == bucket[k];
  }

  lemma InGroup(s: ClassSplit, w: nat, id: string)
    requires Sound(s) && w < s.m
    ensures AllInRange(ClassBuckets(s), |s.names|)
    ensures var bucket := ClassBuckets(s)[w];
      id in GroupsOf(s)[w] <==> id in s.ids && InSomeClass(id, s.names, bucket)
  {
    hide ClassBuckets, Belongs, Sort, AtMost, Extend;
    BucketsInRange(s);
    var extended := Extend(s.ids, s.names, ClassBuckets(s)[w]);
    GroupAt(s, ClassBuckets(s), w);
    assert id in GroupsOf(s)[w] <==> id in multiset(extended);
    InBucket(s, ClassBuckets(s)[w], id);
  }

  lemma GroupSorted(s: ClassSplit, w: nat)
    requires Sound(s) && w < s.m
    ensures SortedBy(AtMost, GroupsOf(s)[w])
  {
    hide ClassBuckets, AtMost, Extend;
    BucketsInRange(s);
    GroupAt(s, ClassBuckets(s), w);
    StringsTotallyOrdered();
    SortSorts(AtMost, Extend(s.ids, s.names, ClassBuckets(s)[w]));
  }

  lemma SplitDistributes(identities: seq<string>, workers: int, costs: Option<map<string, real>>)
    requires ValidRequest(identities, workers, costs)
    ensures Sound(Split(identities, workers, costs))
    ensures Distributes(identities, workers, GroupsOf(Split(identities, workers, costs)))
    ensures exists names, v, buckets ::
      Spread(identities, costs, GroupsOf(Split(identities, workers, costs)), names, v, buckets)
  {
    hide ClassBuckets, GroupsOf, ClassNames, Belongs, InClass, Balanced, SortedBy, Sort, Concat, ScheduleOrder,
         AreClasses;
    SplitSound(identities, workers, costs);
    var s := Split(identities, workers, costs);
    SameTests(identities, s.ids);
    ClassesAre(s.ids, s.names);
    SameClasses(identities, s.ids, s.names);
    EveryTestOnce(identities, workers, costs);
    SplitSpread(identities, workers, costs);
    var groups := GroupsOf(s);
    forall w | 0 <= w < |groups| ensures groups[w] != [] && SortedBy(AtMost, groups[w]) {
      NoEmptyWorker(s, w);
      GroupSorted(s, w);
    }
    forall w, p, a, b | 0 <= w < |groups| && InClass(a, p) && InClass(b, p) && a in groups[w] && b in identities
      ensures b in groups[w]
    {
      SameClass(a, b, p);
      ClassesStayWhole(s, w, a, b);
    }
  }

  lemma SameClass(a: string, b: string, p: string)
    requires InClass(a, p) && InClass(b, p)
    ensures ClassOf(a) == ClassOf(b) == p
  {
    ClassOfExactly(a, p);
    ClassOfExactly(b, p);
  }

  lemma SameTests(a: seq<string>, b: seq<string>)
    requires multiset(a) == multiset(b) && NoRepeats(a)
    ensures NoRepeats(b) && forall id :: id in a <==> id in b
  {
    SubNoRepeats(b, a);
    forall id ensures id in a <==> id in b { assert id in multiset(a) <==> id in multiset(b); }
  }

  lemma SameClasses(a: seq<string>, b: seq<string>, names: seq<string>)
    requires (forall id :: id in a <==> id in b) && AreClasses(names, b)
    ensures AreClasses(names, a)
  {
  }

  lemma SplitSpread(identities: seq<string>, workers: int, costs: Option<map<string, real>>)
    requires ValidRequest(identities, workers, costs) && Sound(Split(identities, workers, costs))
    ensures var s := Split(identities, workers, costs);
      Spread(identities, costs, GroupsOf(s), s.names, s.v, ClassBuckets(s))
  {
    hide ClassBuckets, GroupsOf, ClassNames, Belongs, Balanced, Sort, ScheduleOrder, AreClasses, Costs, ClassCost;
    var s := Split(identities, workers, costs);
    SameTests(identities, s.ids);
    ClassesAre(s.ids, s.names);
    SameClasses(identities, s.ids, s.names);
    ClassesBalanced(s);
    BucketsInRange(s);
    ClassesHandedOut(identities, workers, costs);
    forall i | 0 <= i < |s.v| ensures Costs(s.v[i], s.names[i], identities, costs) {
      CostsAre(s.ids, s.names[i], costs);
      SameCosts(s.v[i], s.names[i], identities, s.ids, costs);
    }
    forall w, id | 0 <= w < s.m
      ensures id in GroupsOf(s)[w] <==>
        id in identities && InSomeClass(id, s.names, ClassBuckets(s)[w])
    {
      InGroup(s, w, id);
    }
  }

  lemma ClassesHandedOut(identities: seq<string>, workers: int, costs: Option<map<string, real>>)
    requires ValidRequest(identities, workers, costs) && Sound(Split(identities, workers, costs))
    ensures var s := Split(identities, workers, costs); HandedOut(s.v, s.names, ClassBuckets(s))
  {
    hide ScheduleOrder, InScheduleOrder, GreedyAssign, ClassNames, Sort;
    var s := Split(identities, workers, costs);
    ScheduleOrderFacts(s.v, s.names);
    assert InScheduleOrder(s.order, s.v, s.names);
  }

  lemma SameCosts(v: real, cls: string, a: seq<string>, b: seq<string>, costs: Option<map<string, real>>)
    requires (forall id :: id in a <==> id in b) && Costs(v, cls, b, costs)
    ensures Costs(v, cls, a, costs)
  {
    hide Belongs;
    assert TestsOf(cls, a) == TestsOf(cls, b);
  }

  /** The plan does not depend on the order of discovery. */
  lemma OrderIndependent(a: seq<string>, b: seq<string>, workers: int, costs: Option<map<string, real>>)
    requires ValidRequest(a, workers, costs) && multiset(a) == multiset(b)
    ensures ValidRequest(b, workers, costs)
    ensures Split(a, workers, costs) == Split(b, workers, costs)
  {
    hide Sort, NoRepeats, ClassNames, ScheduleOrder, ClassCosts;
    SubNoRepeats(b, a);
    SortStringsCanonical(a, b);
    assert a[0] in multiset(b);
  }

  // every class is one item of the split

  lemma {:induction false} MembersExact(ids: seq<string>, cls: string, id: string)
    ensures multiset(MembersOf(ids, cls))[id] == if ClassOf(id) == cls then multiset(ids)[id] else 0
  {
    if ids != [] {
      var n := |ids| - 1;
      var before, last := MembersOf(ids[..n], cls), if ClassOf(ids[n]) == cls then [ids[n]] else [];
      MembersExact(ids[..n], cls, id);
      LastCounts(ids, id);
      JoinCounts(before, last, id);
    }
  }

  /** How often id occurs among the members of each class. */
  ghost function Share(s: ClassSplit, id: string): (v: seq<real>)
    ensures |v| == |s.names|
    ensures forall i | 0 <= i < |v| :: v[i] == if s.names[i] == ClassOf(id) then multiset(s.ids)[id] as real else 0.0
  {
    seq(|s.names|, (i: nat) requires i < |s.names| =>
      if s.names[i] == ClassOf(id) then multiset(s.ids)[id] as real else 0.0)
  }

  lemma {:induction false} ExtendCounts(s: ClassSplit, bucket: seq<nat>, id: string)
    requires InRange(bucket, |s.names|)
    ensures multiset(Extend(s.ids, s.names, bucket))[id] as real == VectorSum(Share(s, id), bucket)
  {
    if bucket != [] {
      var n := |bucket| - 1;
      ExtendCounts(s, bucket[..n], id);
      MembersExact(s.ids, s.names[bucket[n]], id);
    }
  }

  lemma {:induction false} ShareTotal(s: ClassSplit, id: string, n: nat)
    requires s.names == ClassNames(s.ids) && n <= |s.names|
    ensures InRange(Upto(n), |s.names|)
    ensures VectorSum(Share(s, id), Upto(n)) ==
      if ClassOf(id) in s.names[..n] then multiset(s.ids)[id] as real else 0.0
  {
    hide ClassNames, ClassOf;
    if n > 0 {
      ShareTotal(s, id, n - 1);
      ClassNamesFacts(s.ids);
      assert Upto(n)[..n - 1] == Upto(n - 1);
      LastIsNew(s.names, n, ClassOf(id));
    }
  }

  lemma LastIsNew<T>(names: seq<T>, n: nat, x: T)
    requires NoRepeats(names) && 0 < n <= |names|
    ensures x in names[..n] <==> x in names[..n - 1] || x == names[n - 1]
    ensures !(x in names[..n - 1] && x == names[n - 1])
  {
    assert names[..n] == names[..n - 1] + [names[n - 1]];
  }

  lemma {:induction false} ConcatCounts(s: ClassSplit, buckets: seq<seq<nat>>, id: string)
    requires AllInRange(buckets, |s.names|)
    ensures InRange(Concat(buckets), |s.names|)
    ensures multiset(Concat(GroupsFor(s, buckets)))[id] as real == VectorSum(Share(s, id), Concat(buckets))
  {
    hide Sort, AtMost, Extend;
    if buckets != [] {
      var n := |buckets| - 1;
      var last := Extend(s.ids, s.names, buckets[n]);
      ConcatCounts(s, buckets[..n], id);
      ExtendCounts(s, buckets[n], id);
      VectorSumConcat(Share(s, id), Concat(buckets[..n]), buckets[n]);
      ConcatSnoc(GroupsFor(s, buckets[..n]), Sort(AtMost, last));
      assert multiset(Sort(AtMost, last)) == multiset(last);
    }
  }

  lemma ConcatSnoc<T>(groups: seq<seq<T>>, group: seq<T>)
    ensures Concat(groups + [group]) == Concat(groups) + group
  {
    assert (groups + [group])[..|groups|] == groups;
  }

  lemma {:induction false} VectorSumConcat(v: seq<real>, a: seq<nat>, b: seq<nat>)
    requires InRange(a, |v|) && InRange(b, |v|)
    ensures InRange(a + b, |v|) && VectorSum(v, a + b) == VectorSum(v, a) + VectorSum(v, b)
  {
    if b == [] {
      assert a + b == a;
    } else {
      var n := |b| - 1;
      VectorSumConcat(v, a, b[..n]);
      assert (a + b)[..|a + b| - 1] == a + b[..n];
    }
  }

  lemma BucketsHoldEveryClass(s: ClassSplit)
    requires Sound(s)
    ensures multiset(Concat(ClassBuckets(s))) == multiset(Upto(|s.names|))
  {
    BucketsConserve(s.order, GreedyAssign(At(s.v, s.order), s.m), s.m);
  }

  lemma GroupsHoldEveryTest(s: ClassSplit, buckets: seq<seq<nat>>)
    requires AllInRange(buckets, |s.names|) && s.names == ClassNames(s.ids)
    requires multiset(Concat(buckets)) == multiset(Upto(|s.names|))
    ensures multiset(Concat(GroupsFor(s, buckets))) == multiset(s.ids)
  {
    var all := Concat(GroupsFor(s, buckets));
    forall id: string ensures multiset(all)[id] == multiset(s.ids)[id] {
      ConcatCounts(s, buckets, id);
      ClassesCountOnce(s, buckets, id);
    }
  }

  /** Conservation: every test is assigned exactly once. */
  lemma EveryTestOnce(identities: seq<string>, workers: int, costs: Option<map<string, real>>)
    requires ValidRequest(identities, workers, costs)
    ensures Sound(Split(identities, workers, costs))
    ensures multiset(Concat(GroupsOf(Split(identities, workers, costs)))) == multiset(identities)
  {
    SplitSound(identities, workers, costs);
    var s := Split(identities, workers, costs);
    BucketsInRange(s);
    BucketsHoldEveryClass(s);
    GroupsHoldEveryTest(s, ClassBuckets(s));
  }

  lemma ClassesCountOnce(s: ClassSplit, buckets: seq<seq<nat>>, id: string)
    requires s.names == ClassNames(s.ids) && InRange(Concat(buckets), |s.names|)
    requires multiset(Concat(buckets)) == multiset(Upto(|s.names|))
    ensures VectorSum(Share(s, id), Concat(buckets)) == multiset(s.ids)[id] as real
  {
    ShareTotal(s, id, |s.names|);
    VectorSumPermuted(Share(s, id), Concat(buckets), Upto(|s.names|));
    assert s.names[..|s.names|] == s.names;
    KnownClass(s.ids, id);
  }

  lemma KnownClass(ids: seq<string>, id: string)
    ensures id in ids ==> ClassOf(id) in ClassNames(ids)
    ensures ClassOf(id) !in ClassNames(ids) ==> multiset(ids)[id] == 0
  {
    ClassNamesFacts(ids);
  }

  /** A class is kept whole: a worker holding one of its tests holds all of them. */
  lemma ClassesStayWhole(s: ClassSplit, w: nat, a: string, b: string)
    requires Sound(s) && w < s.m && a in GroupsOf(s)[w] && b in s.ids && ClassOf(a) == ClassOf(b)
    ensures b in GroupsOf(s)[w]
  {
    BucketsInRange(s);
    GroupAt(s, ClassBuckets(s), w);
    var bucket := ClassBuckets(s)[w];
    var extended := Extend(s.ids, s.names, bucket);
    assert multiset(GroupsOf(s)[w]) == multiset(extended);
    assert a in multiset(extended);
    InExtended(s, bucket, a, b);
    assert b in multiset(GroupsOf(s)[w]);
  }

  lemma {:induction false} InExtended(s: ClassSplit, bucket: seq<nat>, a: string, b: string)
    requires InRange(bucket, |s.names|) && b in s.ids && ClassOf(a) == ClassOf(b)
    requires a in Extend(s.ids, s.names, bucket)
    ensures b in Extend(s.ids, s.names, bucket)
  {
    var n := |bucket| - 1;
    if a in Extend(s.ids, s.names, bucket[..n]) {
      InExtended(s, bucket[..n], a, b);
    } else {
      var members := MembersOf(s.ids, s.names[bucket[n]]);
      assert a in multiset(members) && b in multiset(s.ids);
      MembersExact(s.ids, s.names[bucket[n]], a);
      MembersExact(s.ids, s.names[bucket[n]], b);
      assert b in multiset(members);
    }
  }

  /** No worker is left empty, because every class cost is positive. */
  lemma NoEmptyWorker(s: ClassSplit, w: nat)
    requires Sound(s) && w < s.m
    ensures GroupsOf(s)[w] != []
  {
    var assign := GreedyAssign(At(s.v, s.order), s.m);
    AllPositive(At(s.v, s.order));
    NoWorkerIdle(At(s.v, s.order), s.m);
    assert Used(assign, w);
    UsedBucket(s.order, assign, w);
    BucketsInRange(s);
    GroupAt(s, ClassBuckets(s), w);
    var bucket := ClassBuckets(s)[w];
    var last := s.names[bucket[|bucket| - 1]];
    ClassNamesFacts(s.ids);
    assert last in s.names;
    MembersNonEmpty(s.ids, last);
    assert Extend(s.ids, s.names, bucket) != [];
  }

  lemma {:induction false} AllPositive(costs: seq<real>)
    requires forall i | 0 <= i < |costs| :: costs[i] > 0.0
    ensures PositiveCount(costs) == |costs|
  {
    if costs != [] { AllPositive(costs[..|costs| - 1]); }
  }

  /** The class assignment is within 4/3 - 1/(3m) of every other one. */
  lemma ClassesBalanced(s: ClassSplit)
    requires Sound(s)
    ensures Balanced(s.v, ClassBuckets(s))
  {
    GroupsBalanced(s.v, s.order, s.m, ClassBuckets(s));
  }
}
