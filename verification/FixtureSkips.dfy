/** scripts/run_checkout_tests.py, count_fixture_skips: matching the skip holders that
    unittest reports for fixtures against tests that were not started. */
module FixtureSkips {

  /** What a skip was reported for: a test case, an object without a usable id, or a
      holder; a holder names the class or the module whose set-up was skipped, or neither. */
  datatype Event = TestCase | Malformed | OtherHolder | ClassHolder(name: string) | ModuleHolder(name: string)

  /** The scopes of a test: qualified class name, module, and the class object. */
  datatype Scope = Scope(className: string, mod: string, cls: nat)

  predicate Matches(e: Event, s: Scope)
  {
    (e.ClassHolder? && s.className == e.name) || (e.ModuleHolder? && s.mod == e.name)
  }

  ghost function MatchedBy(remaining: multiset<string>, scopes: map<string, Scope>, e: Event): set<string>
  {
    set x | x in scopes && x in remaining && Matches(e, scopes[x])
  }

  /** A class name that stands for several classes with tests left names none of them. */
  ghost predicate Ambiguous(matches: set<string>, scopes: map<string, Scope>, e: Event)
    requires forall x | x in matches :: x in scopes
  {
    e.ClassHolder? && exists x, y :: x in matches && y in matches && scopes[x].cls != scopes[y].cls
  }

  ghost function Without(m: multiset<string>, xs: set<string>): (r: multiset<string>)
    ensures forall x :: r[x] == if x in xs then 0 else m[x]
  {
    if xs == {} then m
    else
      var x :| x in xs;
      Without(m, xs - {x})[x := 0]
  }

  /** What is left after one event, and after all of them. */
  ghost function Consume(remaining: multiset<string>, scopes: map<string, Scope>, e: Event): multiset<string>
  {
    var matches := MatchedBy(remaining, scopes, e);
    if Ambiguous(matches, scopes, e) then remaining else Without(remaining, matches)
  }

  ghost function Left(remaining: multiset<string>, scopes: map<string, Scope>, events: seq<Event>): multiset<string>
  {
    if events == [] then remaining
    else Consume(Left(remaining, scopes, events[..|events| - 1]), scopes, events[|events| - 1])
  }

  /** The loop over the matches of one holder. */
  method Take(remaining: multiset<string>, matches: set<string>) returns (count: nat, rest: multiset<string>)
    ensures rest == Without(remaining, matches) && count == |remaining| - |rest|
  {
    count, rest := 0, remaining;
    var todo := matches;
    while todo != {}
      invariant todo <= matches && count == |remaining| - |rest|
      invariant forall x :: rest[x] == if x in matches - todo then 0 else remaining[x]
      decreases todo
    {
      var x :| x in todo;
      count := count + rest[x];
      rest := rest[x := 0];
      todo := todo - {x};
    }
    assert rest == Without(remaining, matches);
  }

  lemma LeftStep(remaining: multiset<string>, scopes: map<string, Scope>, events: seq<Event>, k: nat)
    requires k < |events|
    ensures Left(remaining, scopes, events[..k + 1]) == Consume(Left(remaining, scopes, events[..k]), scopes, events[k])
  {
    assert events[..k + 1][..k] == events[..k];
  }

  /** count_fixture_skips: every test is counted at most once, with its multiplicity. */
  method CountFixtureSkips(expected: multiset<string>, scopes: map<string, Scope>, events: seq<Event>)
      returns (count: nat, malformed: bool, remaining: multiset<string>)
    ensures remaining == Left(expected, scopes, events)
    ensures count == |expected| - |remaining|
    ensures malformed <==> exists i | 0 <= i < |events| :: events[i].Malformed?
  {
    hide Left, Without, Matches;
    count, malformed, remaining := 0, false, expected;
    NothingConsumed(expected, scopes);
    assert events[..0] == [];
    for k := 0 to |events|
      invariant remaining == Left(expected, scopes, events[..k]) && count == |expected| - |remaining|
      invariant malformed <==> exists i | 0 <= i < k :: events[i].Malformed?
    {
      var e := events[k];
      LeftStep(expected, scopes, events, k);
      if e.Malformed? { malformed := true; }
      var matches := set x | x in scopes && x in remaining && Matches(e, scopes[x]);
      if !(e.ClassHolder? && exists x, y | x in matches && y in matches :: scopes[x].cls != scopes[y].cls) {
        var taken, rest := Take(remaining, matches);
        count, remaining := count + taken, rest;
      }
    }
    assert events[..|events|] == events;
  }

  lemma NothingConsumed(expected: multiset<string>, scopes: map<string, Scope>)
    ensures Left(expected, scopes, []) == expected
  {
  }

  /** Some holder names the class or the module of the test. */
  ghost predicate Named(x: string, scopes: map<string, Scope>, events: seq<Event>)
  {
    x in scopes && exists i | 0 <= i < |events| :: Matches(events[i], scopes[x])
  }

  /** Two tests that are left, of different classes with one qualified name. */
  ghost predicate Twins(remaining: multiset<string>, scopes: map<string, Scope>, x: string, y: string)
  {
    && x in scopes && x in remaining && y in scopes && y in remaining
    && scopes[x].className == scopes[y].className && scopes[x].cls != scopes[y].cls
  }

  /** Every qualified name stands for one class among the tests that are left. */
  ghost predicate ClearNames(remaining: multiset<string>, scopes: map<string, Scope>)
  {
    forall x, y :: !Twins(remaining, scopes, x, y)
  }

  lemma {:induction false} LeftShrinks(remaining: multiset<string>, scopes: map<string, Scope>, events: seq<Event>,
        x: string)
    ensures Left(remaining, scopes, events)[x] == remaining[x] || Left(remaining, scopes, events)[x] == 0
  {
    if events != [] { LeftShrinks(remaining, scopes, events[..|events| - 1], x); }
  }

  lemma {:induction false} NamedAreTaken(remaining: multiset<string>, scopes: map<string, Scope>, events: seq<Event>,
        x: string)
    requires ClearNames(remaining, scopes)
    ensures Left(remaining, scopes, events)[x] == if Named(x, scopes, events) then 0 else remaining[x]
  {
    if events != [] {
      var n := |events| - 1;
      NamedAreTaken(remaining, scopes, events[..n], x);
      NamedStep(x, scopes, events);
      var before := Left(remaining, scopes, events[..n]);
      NoneAmbiguous(remaining, scopes, before, events[..n], events[n]);
    }
  }

  lemma NamedStep(x: string, scopes: map<string, Scope>, events: seq<Event>)
    requires events != []
    ensures var n := |events| - 1;
      Named(x, scopes, events) <==> Named(x, scopes, events[..n]) || (x in scopes && Matches(events[n], scopes[x]))
  {
    hide Matches;
    var n := |events| - 1;
    if Named(x, scopes, events) {
      var i :| 0 <= i < |events| && Matches(events[i], scopes[x]);
      assert i < n ==> events[..n][i] == events[i];
    }
    if Named(x, scopes, events[..n]) {
      var i :| 0 <= i < n && Matches(events[..n][i], scopes[x]);
      assert Matches(events[i], scopes[x]);
    }
  }

  lemma NoneAmbiguous(remaining: multiset<string>, scopes: map<string, Scope>, before: multiset<string>,
        events: seq<Event>, e: Event)
    requires ClearNames(remaining, scopes) && before == Left(remaining, scopes, events)
    ensures !Ambiguous(MatchedBy(before, scopes, e), scopes, e)
  {
    hide Left;
    forall x, y | x in MatchedBy(before, scopes, e) && y in MatchedBy(before, scopes, e) && e.ClassHolder?
      ensures scopes[x].cls == scopes[y].cls
    {
      LeftShrinks(remaining, scopes, events, x);
      LeftShrinks(remaining, scopes, events, y);
      assert !Twins(remaining, scopes, x, y);
    }
  }

  /** Whatever skips are reported, exactly the tests of the named classes and modules are
      counted, if and only if no two classes with tests left share a qualified name. */
  lemma NamedExactly(remaining: multiset<string>, scopes: map<string, Scope>)
    ensures ClearNames(remaining, scopes) <==>
      forall events, x :: Left(remaining, scopes, events)[x] == if Named(x, scopes, events) then 0 else remaining[x]
  {
    if ClearNames(remaining, scopes) {
      forall events, x
        ensures Left(remaining, scopes, events)[x] == if Named(x, scopes, events) then 0 else remaining[x]
      {
        NamedAreTaken(remaining, scopes, events, x);
      }
    } else {
      var x, y :| Twins(remaining, scopes, x, y);
      var events := [ClassHolder(scopes[x].className)];
      TwinsAreSpared(remaining, scopes, x, y);
      assert Matches(events[0], scopes[x]) && Named(x, scopes, events);
    }
  }

  lemma TwinsAreSpared(remaining: multiset<string>, scopes: map<string, Scope>, x: string, y: string)
    requires Twins(remaining, scopes, x, y)
    ensures Left(remaining, scopes, [ClassHolder(scopes[x].className)]) == remaining
  {
    var e := ClassHolder(scopes[x].className);
    assert [e][..0] == [];
    assert x in MatchedBy(remaining, scopes, e) && y in MatchedBy(remaining, scopes, e);
  }

  // ----- when the order of the events matters -----

  /** In its module, the qualified name of x stands for one class only. */
  ghost predicate LoneInModule(remaining: multiset<string>, scopes: map<string, Scope>, x: string)
    requires x in scopes
  {
    forall z :: Twins(remaining, scopes, x, z) ==> scopes[z].mod != scopes[x].mod
  }

  ghost predicate Orderless(remaining: multiset<string>, scopes: map<string, Scope>)
  {
    forall x, y :: Twins(remaining, scopes, x, y) ==> !LoneInModule(remaining, scopes, x)
  }

  ghost predicate Shared(remaining: multiset<string>, scopes: map<string, Scope>, name: string)
  {
    exists x, y :: Twins(remaining, scopes, x, y) && scopes[x].className == name
  }

  /** The events that take tests of a scope at any time. */
  ghost predicate Takes(remaining: multiset<string>, scopes: map<string, Scope>, e: Event, s: Scope)
  {
    Matches(e, s) && (e.ClassHolder? ==> !Shared(remaining, scopes, e.name))
  }

  ghost predicate Taken(remaining: multiset<string>, scopes: map<string, Scope>, events: seq<Event>, x: string)
  {
    x in scopes && exists i | 0 <= i < |events| :: Takes(remaining, scopes, events[i], scopes[x])
  }

  lemma TakenStep(remaining: multiset<string>, scopes: map<string, Scope>, events: seq<Event>, x: string)
    requires events != []
    ensures var n := |events| - 1;
      Taken(remaining, scopes, events, x) <==>
        Taken(remaining, scopes, events[..n], x) || (x in scopes && Takes(remaining, scopes, events[n], scopes[x]))
  {
    hide Takes;
    var n := |events| - 1;
    if Taken(remaining, scopes, events, x) {
      var i :| 0 <= i < |events| && Takes(remaining, scopes, events[i], scopes[x]);
      assert i < n ==> events[..n][i] == events[i];
    }
    if Taken(remaining, scopes, events[..n], x) {
      var i :| 0 <= i < n && Takes(remaining, scopes, events[..n][i], scopes[x]);
      assert Takes(remaining, scopes, events[i], scopes[x]);
    }
  }

  lemma {:induction false} TakenAreGone(remaining: multiset<string>, scopes: map<string, Scope>, events: seq<Event>,
        x: string)
    requires Orderless(remaining, scopes)
    ensures Left(remaining, scopes, events)[x] == if Taken(remaining, scopes, events, x) then 0 else remaining[x]
    decreases |events|
  {
    if events != [] {
      var n := |events| - 1;
      var before := Left(remaining, scopes, events[..n]);
      forall z ensures before[z] == if Taken(remaining, scopes, events[..n], z) then 0 else remaining[z] {
        TakenAreGone(remaining, scopes, events[..n], z);
      }
      TakenStep(remaining, scopes, events, x);
      ConsumeTakes(remaining, scopes, events[..n], before, events[n], x);
    }
  }

  /** One event takes what it takes at any time, and nothing else. */
  lemma ConsumeTakes(remaining: multiset<string>, scopes: map<string, Scope>, events: seq<Event>,
        before: multiset<string>, e: Event,
                     x: string)
    requires Orderless(remaining, scopes)
    requires forall z :: before[z] == if Taken(remaining, scopes, events, z) then 0 else remaining[z]
    ensures Consume(before, scopes, e)[x] ==
      if x in scopes && Takes(remaining, scopes, e, scopes[x]) then 0 else before[x]
  {
    hide Taken, LoneInModule, Orderless;
    var matches := MatchedBy(before, scopes, e);
    if e.ClassHolder? && Shared(remaining, scopes, e.name) {
      if matches != {} {
        var z :| z in matches;
        StaysShared(remaining, scopes, events, before, e, z);
      }
    } else if Ambiguous(matches, scopes, e) {
      AmbiguousIsShared(remaining, scopes, before, e);
    }
  }

  lemma AmbiguousIsShared(remaining: multiset<string>, scopes: map<string, Scope>, before: multiset<string>, e: Event)
    requires (forall z :: before[z] <= remaining[z]) && Ambiguous(MatchedBy(before, scopes, e), scopes, e)
    ensures e.ClassHolder? && Shared(remaining, scopes, e.name)
  {
    var matches := MatchedBy(before, scopes, e);
    var a, b :| a in matches && b in matches && scopes[a].cls != scopes[b].cls;
    assert Twins(remaining, scopes, a, b);
  }

  /** A shared name stays shared while any of its tests is left. */
  lemma StaysShared(remaining: multiset<string>, scopes: map<string, Scope>, events: seq<Event>,
        before: multiset<string>, e: Event,
                    z: string)
    requires Orderless(remaining, scopes) && e.ClassHolder? && Shared(remaining, scopes, e.name)
    requires forall w :: before[w] == if Taken(remaining, scopes, events, w) then 0 else remaining[w]
    requires z in MatchedBy(before, scopes, e)
    ensures Ambiguous(MatchedBy(before, scopes, e), scopes, e)
  {
    var a, b :| Twins(remaining, scopes, a, b) && scopes[a].className == e.name;
    var other := if scopes[a].cls != scopes[z].cls then a else b;
    assert Twins(remaining, scopes, z, other);
    var w :| Twins(remaining, scopes, z, w) && scopes[w].mod == scopes[z].mod;
    if Taken(remaining, scopes, events, w) {
      var i :| 0 <= i < |events| && Takes(remaining, scopes, events[i], scopes[w]);
      assert Takes(remaining, scopes, events[i], scopes[z]);
      assert false;
    }
    assert w in MatchedBy(before, scopes, e);
  }

  function Modules(names: seq<string>): seq<Event>
  {
    seq(|names|, i requires 0 <= i < |names| => ModuleHolder(names[i]))
  }

  lemma {:induction false} ListOf(names: set<string>) returns (list: seq<string>)
    ensures forall n :: n in list <==> n in names
  {
    if names == {} {
      list := [];
    } else {
      var n :| n in names;
      var rest := ListOf(names - {n});
      list := [n] + rest;
    }
  }

  lemma LeftSnoc(remaining: multiset<string>, scopes: map<string, Scope>, events: seq<Event>, e: Event)
    ensures Left(remaining, scopes, events + [e]) == Consume(Left(remaining, scopes, events), scopes, e)
  {
    assert (events + [e])[..|events|] == events;
  }

  lemma ModuleTakes(before: multiset<string>, scopes: map<string, Scope>, name: string, x: string)
    requires x in scopes
    ensures Consume(before, scopes, ModuleHolder(name))[x] == if scopes[x].mod == name then 0 else before[x]
  {
  }

  /** Module skips take exactly the tests of these modules. */
  lemma {:induction false} ModulesTake(remaining: multiset<string>, scopes: map<string, Scope>, first: seq<Event>,
                                       names: seq<string>, x: string)
    requires x in scopes
    ensures Left(remaining, scopes, first + Modules(names))[x]
         == if scopes[x].mod in names then 0 else Left(remaining, scopes, first)[x]
    decreases |names|
  {
    hide Left, Consume;
    if names == [] {
      assert first + Modules(names) == first;
    } else {
      var n := |names| - 1;
      var shorter := first + Modules(names[..n]);
      assert first + Modules(names) == shorter + [ModuleHolder(names[n])];
      assert names == names[..n] + [names[n]];
      ModulesTake(remaining, scopes, first, names[..n], x);
      LeftSnoc(remaining, scopes, shorter, ModuleHolder(names[n]));
      ModuleTakes(Left(remaining, scopes, shorter), scopes, names[n], x);
    }
  }

  /** Where only tests of x's class are left under its name, the class skip takes x. */
  lemma HolderTakesLone(before: multiset<string>, scopes: map<string, Scope>, x: string)
    requires x in scopes && x in before
    requires forall z | z in scopes && z in before
      && scopes[z].className == scopes[x].className :: scopes[z].cls == scopes[x].cls
    ensures Consume(before, scopes, ClassHolder(scopes[x].className))[x] == 0
  {
    assert x in MatchedBy(before, scopes, ClassHolder(scopes[x].className));
  }

  /** Twins of which one is alone in its module: a run, and its events in another order. */
  lemma OrderShows(remaining: multiset<string>, scopes: map<string, Scope>, x: string, y: string)
      returns (e: seq<Event>, f: seq<Event>)
    requires Twins(remaining, scopes, x, y) && LoneInModule(remaining, scopes, x)
    ensures multiset(e) == multiset(f) && Left(remaining, scopes, e) != Left(remaining, scopes, f)
  {
    hide Left, Consume, Modules;
    var holder := ClassHolder(scopes[x].className);
    var others := set z | z in scopes && Twins(remaining, scopes, x, z) :: scopes[z].mod;
    var names := ListOf(others);
    var modules := Modules(names);
    e, f := modules + [holder], [holder] + modules;
    TwinsAreSpared(remaining, scopes, x, y);
    ModulesTake(remaining, scopes, [holder], names, x);
    var before := Left(remaining, scopes, modules);
    assert [] + modules == modules;
    NothingConsumed(remaining, scopes);
    forall z | z in scopes ensures before[z] == if scopes[z].mod in names then 0 else remaining[z] {
      ModulesTake(remaining, scopes, [], names, z);
    }
    assert forall z | z in scopes && Twins(remaining, scopes, x, z) :: scopes[z].mod in others;
    forall z | z in scopes && z in before && scopes[z].className == scopes[x].className
      ensures scopes[z].cls == scopes[x].cls
    {
      assert !Twins(remaining, scopes, x, z);
    }
    HolderTakesLone(before, scopes, x);
    LeftSnoc(remaining, scopes, modules, holder);
  }

  /** The order in which skips are reported never matters if and only if, wherever a name is
      shared by classes with tests left, no module holds tests of only one of them. */
  lemma OrderlessExactly(remaining: multiset<string>, scopes: map<string, Scope>)
    ensures Orderless(remaining, scopes) <==>
      forall e, f :: multiset(e) == multiset(f) ==> Left(remaining, scopes, e) == Left(remaining, scopes, f)
  {
    if Orderless(remaining, scopes) {
      forall e, f | multiset(e) == multiset(f) ensures Left(remaining, scopes, e) == Left(remaining, scopes, f) {
        forall x ensures Left(remaining, scopes, e)[x] == Left(remaining, scopes, f)[x] {
          TakenAreGone(remaining, scopes, e, x);
          TakenAreGone(remaining, scopes, f, x);
          if Taken(remaining, scopes, e, x) { SameTaken(remaining, scopes, e, f, x); }
          if Taken(remaining, scopes, f, x) { SameTaken(remaining, scopes, f, e, x); }
        }
      }
    } else {
      var x, y :| Twins(remaining, scopes, x, y) && LoneInModule(remaining, scopes, x);
      var e, f := OrderShows(remaining, scopes, x, y);
    }
  }

  lemma SameTaken(remaining: multiset<string>, scopes: map<string, Scope>, e: seq<Event>, f: seq<Event>, x: string)
    requires multiset(e) == multiset(f) && Taken(remaining, scopes, e, x)
    ensures Taken(remaining, scopes, f, x)
  {
    hide Takes;
    var i :| 0 <= i < |e| && Takes(remaining, scopes, e[i], scopes[x]);
    assert e[i] in multiset(f);
    var j :| 0 <= j < |f| && f[j] == e[i];
  }

  /** Twins in different modules alone do not make the order matter: here each module holds
      both of its classes, and the shared name never comes to stand for one of them. */
  lemma TwinsInTwoModules()
    ensures var scopes := map["p" := Scope("a.b.C", "a", 1), "q" := Scope("a.b.C", "a", 2),
                              "r" := Scope("a.b.C", "a.b", 3), "s" := Scope("a.b.C", "a.b", 4)];
      var left := multiset{"p", "q", "r", "s"};
      Twins(left, scopes, "p", "r") && scopes["p"].mod != scopes["r"].mod && Orderless(left, scopes)
  {
    var scopes := map["p" := Scope("a.b.C", "a", 1), "q" := Scope("a.b.C", "a", 2),
                      "r" := Scope("a.b.C", "a.b", 3), "s" := Scope("a.b.C", "a.b", 4)];
    var left := multiset{"p", "q", "r", "s"};
    assert Twins(left, scopes, "p", "q") && Twins(left, scopes, "q", "p");
    assert Twins(left, scopes, "r", "s") && Twins(left, scopes, "s", "r");
  }

  const TWINS := map["x" := Scope("a.b.C", "a.b", 1), "y" := Scope("a.b.C", "a", 2)]

  lemma ModuleTakesItsOwn()
    ensures Consume(multiset{"x", "y"}, TWINS, ModuleHolder("a")) == multiset{"x"}
  {
    assert MatchedBy(multiset{"x", "y"}, TWINS, ModuleHolder("a")) == {"y"};
  }

  lemma ClassTakesTheLast()
    ensures Consume(multiset{"x"}, TWINS, ClassHolder("a.b.C")) == multiset{}
  {
    assert MatchedBy(multiset{"x"}, TWINS, ClassHolder("a.b.C")) == {"x"};
  }

  lemma ClassTakesNoTwins()
    ensures Consume(multiset{"x", "y"}, TWINS, ClassHolder("a.b.C")) == multiset{"x", "y"}
  {
    var matches := MatchedBy(multiset{"x", "y"}, TWINS, ClassHolder("a.b.C"));
    assert "x" in matches && "y" in matches && TWINS["x"].cls != TWINS["y"].cls;
  }

  /** Otherwise the order matters: class C of module a.b and class b.C of module a share
      the name a.b.C.  When the module's skip comes first, the class skip has one class
      left to name; when it comes second, the class skip names nothing. */
  lemma OrderMatters()
    ensures Left(multiset{"x", "y"}, TWINS, [ModuleHolder("a"), ClassHolder("a.b.C")]) == multiset{}
    ensures Left(multiset{"x", "y"}, TWINS, [ClassHolder("a.b.C"), ModuleHolder("a")]) == multiset{"x"}
  {
    hide Consume;
    var both, m, c := multiset{"x", "y"}, ModuleHolder("a"), ClassHolder("a.b.C");
    assert [m, c][..1] == [m] && [c, m][..1] == [c] && [m][..0] == [] && [c][..0] == [];
    ModuleTakesItsOwn();
    ClassTakesTheLast();
    ClassTakesNoTwins();
  }
}
