/** scripts/run_checkout_tests.py, execution_plan: running reviewed load_tests hooks once in
    the controller and everything else in isolated workers. */
module ControllerPlan {
  import opened Outcomes
  import opened Sequences
  import opened GreedySchedule
  import opened CheckoutPlan

  /** A test object.  obj and cls stand for object identities; the flags are what the
      script asks of the class and of the test's id method. */
  datatype Case = Case(
    obj: nat,           // id(case)
    name: string,       // case.id()
    isTestCase: bool,   // isinstance(case, unittest.TestCase)
    cls: nat,           // id(type(case))
    mod: string,        // cls.__module__, "" when it is not a usable string
    stableClass: bool,  // neither __getattribute__ nor __class__ is overridden
    plainId: bool,      // id is unittest's own, bound to this case
    resolvable: bool    // the class is found by walking its module's attributes
  )

  datatype Item = Leaf(test: Case) | Suite(obj: nat, builtin: bool, children: seq<Item>)

  function ObjectOf(item: Item): nat
  {
    match item
    case Leaf(test) => test.obj
    case Suite(obj, _, _) => obj
  }

  /** test_cases of one item, and of a list of items. */
  function Cases(item: Item): seq<Case>
  {
    match item
    case Leaf(test) => [test]
    case Suite(_, _, children) => CasesOf(children)
  }

  function CasesOf(items: seq<Item>): seq<Case>
  {
    if items == [] then [] else Cases(items[0]) + CasesOf(items[1..])
  }

  /** What is found by going down the positions of a path. */
  ghost function ItemAt(item: Item, path: seq<nat>): Option<Item>
    decreases |path|
  {
    if path == [] then Some(item)
    else if item.Leaf? || path[0] >= |item.children| then None
    else ItemAt(item.children[path[0]], path[1..])
  }

  ghost predicate Reaches(item: Item, path: seq<nat>, test: Case)
  {
    ItemAt(item, path) == Some(Leaf(test))
  }

  /** test_cases finds exactly the tests at the ends of the tree's paths ... */
  lemma {:induction false} CasesExactly(item: Item, test: Case)
    ensures test in Cases(item) <==> exists path :: Reaches(item, path, test)
    decreases item
  {
    if item.Leaf? {
      assert Reaches(item, [], item.test);
      assert forall path :: Reaches(item, path, test) ==> path == [];
    } else {
      CaseOf(item.children, test);
      RootCases(item);
      hide Cases, Reaches;
      if test in Cases(item) {
        var i :| 0 <= i < |item.children| && test in Cases(item.children[i]);
        CasesExactly(item.children[i], test);
        var path :| Reaches(item.children[i], path, test);
        Down(item, i, path, test);
      }
      if path :| Reaches(item, path, test) {
        FirstStep(item, path, test);
        CasesExactly(item.children[path[0]], test);
      }
    }
  }

  lemma Down(item: Item, i: nat, path: seq<nat>, test: Case)
    requires item.Suite? && i < |item.children|
    ensures Reaches(item, [i] + path, test) <==> Reaches(item.children[i], path, test)
  {
    assert ([i] + path)[1..] == path;
  }

  lemma FirstStep(item: Item, path: seq<nat>, test: Case)
    requires item.Suite? && Reaches(item, path, test)
    ensures path != [] && path[0] < |item.children| && item.children[path[0]] in item.children
    ensures Reaches(item.children[path[0]], path[1..], test)
  {
  }

  /** ... in their order. */
  lemma {:induction false} CasesJoin(a: seq<Item>, b: seq<Item>)
    ensures CasesOf(a + b) == CasesOf(a) + CasesOf(b)
  {
    hide Cases;
    if a == [] {
      assert a + b == b;
    } else {
      CasesJoin(a[1..], b);
      assert (a + b)[1..] == a[1..] + b && (a + b)[0] == a[0];
      Associates(Cases(a[0]), CasesOf(a[1..]), CasesOf(b));
    }
  }

  /** plain_tree: the suites seen on success, None when one is custom or repeated. */
  function PlainTree(item: Item, seen: set<nat>): Option<set<nat>>
    decreases item
  {
    match item
    case Leaf(test) => if test.isTestCase then Some(seen) else None
    case Suite(obj, builtin, children) =>
      if obj in seen || !builtin then None else PlainTrees(item, children, seen + {obj})
  }

  function PlainTrees(parent: Item, items: seq<Item>, seen: set<nat>): Option<set<nat>>
    requires forall i | 0 <= i < |items| :: items[i] < parent
    decreases parent, |items|
  {
    if items == [] then Some(seen)
    else
      match PlainTree(items[0], seen)
      case None => None
      case Some(after) => PlainTrees(parent, items[1..], after)
  }

  datatype Hook = Hook(name: string, obj: nat)

  datatype Plan =
    | OriginalRoot
    | AllWorkers(workers: seq<(nat, seq<string>)>)
    | ControllerThenWorkers(controllerIds: seq<string>, workers: seq<(nat, seq<string>)>)

  function HookNames(hooks: seq<Hook>): (r: seq<string>)
    ensures |r| == |hooks| && forall k | 0 <= k < |r| :: r[k] == hooks[k].name
  {
    seq(|hooks|, (k: nat) requires k < |hooks| => hooks[k].name)
  }

  function CaseNames(cases: seq<Case>): (r: seq<string>)
    ensures |r| == |cases| && forall k | 0 <= k < |r| :: r[k] == cases[k].name
  {
    seq(|cases|, (k: nat) requires k < |cases| => cases[k].name)
  }

  function CaseObjects(cases: seq<Case>): (r: seq<nat>)
    ensures |r| == |cases| && forall k | 0 <= k < |r| :: r[k] == cases[k].obj
  {
    seq(|cases|, (k: nat) requires k < |cases| => cases[k].obj)
  }

  /** The top-level children that some hook returned, in suite order. */
  function Selected(children: seq<Item>, targets: set<nat>): seq<Item>
  {
    if children == [] then []
    else (if ObjectOf(children[0]) in targets then [children[0]] else []) + Selected(children[1..], targets)
  }

  function Keep(group: seq<string>, owned: set<string>): seq<string>
  {
    if group == [] then []
    else
      var n := |group| - 1;
      Keep(group[..n], owned) + (if group[n] in owned then [] else [group[n]])
  }

  /** enumerate(groups) without the controller's tests, and without workers left idle. */
  function Remaining(groups: seq<seq<string>>, owned: set<string>): seq<(nat, seq<string>)>
  {
    if groups == [] then []
    else
      var n := |groups| - 1;
      var members := Keep(groups[n], owned);
      Remaining(groups[..n], owned) + (if members == [] then [] else [(n, members)])
  }

  function Enumerate(groups: seq<seq<string>>): (r: seq<(nat, seq<string>)>)
    ensures |r| == |groups| && forall k | 0 <= k < |r| :: r[k] == (k, groups[k])
  {
    seq(|groups|, (k: nat) requires k < |groups| => (k, groups[k]))
  }

  function Assigned(workers: seq<(nat, seq<string>)>): seq<string>
  {
    if workers == [] then [] else Assigned(workers[..|workers| - 1]) + workers[|workers| - 1].1
  }

  /** What one case contributes to the admission: it may run where it is. */
  predicate Admissible(test: Case, owned: set<nat>)
  {
    && test.stableClass
    && (test.obj !in owned ==> test.plainId)
    && test.mod != ""
    && (test.obj !in owned ==> test.resolvable)
  }

  /** A case outside the controller that shares a class or module with one inside. */
  predicate Conflict(cases: seq<Case>, owned: set<nat>)
  {
    exists i, j | 0 <= i < |cases| && 0 <= j < |cases| ::
      cases[i].obj in owned && cases[j].obj !in owned
      && (cases[i].cls == cases[j].cls || cases[i].mod == cases[j].mod)
  }

  function Targets(hooks: seq<Hook>): set<nat>
  {
    set hook | hook in hooks :: hook.obj
  }

  /** The cases below the hooks' subtrees. */
  function OwnedCases(root: Item, hooks: seq<Hook>): seq<Case>
    requires root.Suite?
  {
    CasesOf(Selected(root.children, Targets(hooks)))
  }

  /** The requested controller modules are distinct discovered hooks. */
  predicate KnownRequest(hooks: seq<Hook>, requested: seq<string>)
  {
    NoRepeats(requested) && forall name | name in requested :: name in HookNames(hooks)
  }

  /** Every discovered hook was requested. */
  predicate Reviewed(hooks: seq<Hook>, requested: seq<string>)
  {
    requested != [] && forall name | name in HookNames(hooks) :: name in requested
  }

  /** Each hook returned its own top-level subtree. */
  predicate Located(root: Item, hooks: seq<Hook>)
    requires root.Suite?
  {
    && |Targets(hooks)| == |hooks|
    && forall t | t in Targets(hooks) :: exists child | child in root.children :: ObjectOf(child) == t
  }

  predicate AllAdmissible(cases: seq<Case>, owned: set<nat>)
  {
    forall k | 0 <= k < |cases| :: Admissible(cases[k], owned)
  }

  /** The tests are still the discovered ones, and no fixture is shared with the rest. */
  predicate Movable(cases: seq<Case>, owned: set<nat>, identities: seq<string>)
  {
    && NoRepeats(CaseObjects(cases)) && CaseNames(cases) == identities
    && AllAdmissible(cases, owned) && !Conflict(cases, owned)
  }

  function OwnedObjects(root: Item, hooks: seq<Hook>): set<nat>
    requires root.Suite?
  {
    set test | test in OwnedCases(root, hooks) :: test.obj
  }

  // ----- the same without the algorithm -----

  /** The item is that object. */
  ghost predicate Is(item: Item, obj: nat)
  {
    (item.Leaf? && item.test.obj == obj) || (item.Suite? && item.obj == obj)
  }

  /** All suites of an item, from the outside in. */
  ghost function Suites(item: Item): (r: seq<Item>)
    ensures forall s | s in r :: s.Suite?
  {
    match item
    case Leaf(_) => []
    case Suite(_, _, children) => [item] + SuitesOf(item, children)
  }

  ghost function SuitesOf(parent: Item, items: seq<Item>): (r: seq<Item>)
    requires forall i | 0 <= i < |items| :: items[i] < parent
    ensures forall s | s in r :: s.Suite?
    decreases parent, |items|
  {
    if items == [] then [] else Suites(items[0]) + SuitesOf(parent, items[1..])
  }

  /** Built of test cases and unittest's own suites, each of them once. */
  ghost predicate Plain(item: Item)
  {
    PlainParts(Cases(item), Suites(item))
  }

  ghost predicate PlainParts(cases: seq<Case>, suites: seq<Item>)
    requires forall s | s in suites :: s.Suite?
  {
    && (forall test | test in cases :: test.isTestCase)
    && (forall i | 0 <= i < |suites| :: suites[i].builtin)
    && (forall i, j | 0 <= i < j < |suites| :: suites[i].obj != suites[j].obj)
  }

  /** The case is below what a hook returned. */
  ghost predicate Owned(root: Item, hooks: seq<Hook>, test: Case)
    requires root.Suite?
  {
    exists child, hook | child in root.children && hook in hooks :: Is(child, hook.obj) && test in Cases(child)
  }

  /** The requested names are different names of hooks. */
  ghost predicate AsksHooks(hooks: seq<Hook>, requested: seq<string>)
  {
    && (forall i, j | 0 <= i < j < |requested| :: requested[i] != requested[j])
    && forall name | name in requested :: exists hook | hook in hooks :: hook.name == name
  }

  /** All hooks were asked for, each ran once and gave a child of its own, and there is
      more than one worker for a plain tree. */
  ghost predicate Separable(root: Item, hooks: seq<Hook>, groups: seq<seq<string>>, requested: seq<string>)
    requires root.Suite?
  {
    && requested != [] && |groups| != 1 && Plain(root)
    && (forall hook | hook in hooks :: hook.name in requested && exists child | child in root.children ::
      Is(child, hook.obj))
    && (forall i, j | 0 <= i < j < |hooks| :: hooks[i].name != hooks[j].name && hooks[i].obj != hooks[j].obj)
  }

  /** The only hook returned a bare test case. */
  ghost predicate LoneLeaf(root: Item, hooks: seq<Hook>)
    requires root.Suite?
  {
    |hooks| == 1 && exists i | 0 <= i < |root.children| :: OnlyLeaf(root.children, hooks[0].obj, i)
  }

  ghost predicate OnlyLeaf(children: seq<Item>, obj: nat, i: nat)
    requires i < |children|
  {
    && children[i].Leaf? && Is(children[i], obj)
    && forall j | 0 <= j < |children| && j != i :: !Is(children[j], obj)
  }

  /** The tests are the discovered ones, may run where they will, and share no class or
      module with a test that runs elsewhere. */
  ghost predicate Fit(root: Item, hooks: seq<Hook>, identities: seq<string>)
    requires root.Suite?
  {
    var cases := Cases(root);
    && |cases| == |identities| && (forall k | 0 <= k < |cases| :: cases[k].name == identities[k])
    && (forall i, j | 0 <= i < j < |cases| :: cases[i].obj != cases[j].obj)
    && (forall test | test in cases :: test.stableClass && test.mod != "")
    && (forall test | test in cases && !Owned(root, hooks, test) :: test.plainId && test.resolvable)
    && forall a, b | a in cases && b in cases && Owned(root, hooks, a) && !Owned(root, hooks, b) ::
      a.cls != b.cls && a.mod != b.mod
  }

  /** part is whole at rising places. */
  ghost predicate Picked<T>(part: seq<T>, whole: seq<T>, places: seq<nat>)
  {
    && |places| == |part| && (forall i, j | 0 <= i < j < |places| :: places[i] < places[j])
    && forall i | 0 <= i < |places| :: places[i] < |whole| && part[i] == whole[places[i]]
  }

  /** The controller runs the tests below the hooks, in suite order. */
  ghost predicate Inside(inside: seq<string>, root: Item, hooks: seq<Hook>, identities: seq<string>)
    requires root.Suite? && |Cases(root)| == |identities|
  {
    exists places :: Picked(inside, identities, places)
      && forall k: nat | k < |identities| :: k in places <==> Owned(root, hooks, Cases(root)[k])
  }

  /** A worker keeps its group without those tests, in order. */
  ghost predicate Without(rest: seq<string>, group: seq<string>, inside: seq<string>)
  {
    exists places :: Picked(rest, group, places)
      && forall k: nat | k < |group| :: k in places <==> group[k] !in inside
  }

  /** The workers that keep something, by number. */
  ghost predicate Outside(workers: seq<(nat, seq<string>)>, groups: seq<seq<string>>, inside: seq<string>)
  {
    && (forall i, j | 0 <= i < j < |workers| :: workers[i].0 < workers[j].0)
    && (forall w | w in workers :: w.0 < |groups| && w.1 != [] && Without(w.1, groups[w.0], inside))
    && forall n, name | 0 <= n < |groups| && name in groups[n] && name !in inside ::
      exists w | w in workers :: w.0 == n
  }

  /** execution_plan.  Refused stands for its ValueErrors, and for the TypeError of a lone
      hook result that is a test case instead of a suite. */
  method ExecutionPlan(root: Item, hooks: seq<Hook>, hookSeen: bool, identities: seq<string>,
                       groups: seq<seq<string>>, controllerModules: seq<string>)
    returns (r: Result<Plan>)
    requires root.Suite? && NoRepeats(identities) && multiset(Concat(groups)) == multiset(identities)
    ensures r.Refused? <==>
      || !AsksHooks(hooks, controllerModules)
      || (hookSeen && Separable(root, hooks, groups, controllerModules) && LoneLeaf(root, hooks))
    ensures r.Ok? ==> (r.value.AllWorkers? <==> !hookSeen)
    ensures r.Ok? && r.value.AllWorkers? ==>
      |r.value.workers| == |groups| && forall n | 0 <= n < |groups| :: r.value.workers[n] == (n, groups[n])
    ensures r.Ok? && hookSeen ==>
      (r.value.ControllerThenWorkers? <==>
        Separable(root, hooks, groups, controllerModules) && Fit(root, hooks, identities))
    ensures r.Ok? && r.value.ControllerThenWorkers? ==>
      var inside := r.value.controllerIds;
      var outside := Assigned(r.value.workers);
      && Inside(inside, root, hooks, identities) && Outside(r.value.workers, groups, inside)
      && multiset(inside + outside) == multiset(identities)
      && FixturesApart(Cases(root), inside, outside)
  {
    hide Concat, CasesOf, Assigned, Remaining, FixturesApart, PlainTree;
    hide AsksHooks, Separable, LoneLeaf, Fit, Inside, Outside;
    KnownExactly(hooks, controllerModules);
    SeparableExactly(root, hooks, groups, controllerModules);
    if !KnownRequest(hooks, controllerModules) { return Refused; }
    if !hookSeen { return Ok(AllWorkers(Enumerate(groups))); }
    if !Reviewed(hooks, controllerModules) { return Ok(OriginalRoot); }
    if !NoRepeats(HookNames(hooks)) { return Ok(OriginalRoot); }
    if |groups| == 1 { return Ok(OriginalRoot); }
    if PlainTree(root, {}).None? { return Ok(OriginalRoot); }
    if !Located(root, hooks) { return Ok(OriginalRoot); }
    var selected := Selected(root.children, Targets(hooks));
    LoneLeafExactly(root, hooks);
    if |selected| == 1 && selected[0].Leaf? {
      return Refused;
    }
    var cases := Cases(root);
    FitExactly(root, hooks, identities);
    if !NoRepeats(CaseObjects(cases)) || CaseNames(cases) != identities { return Ok(OriginalRoot); }
    var owned := OwnedObjects(root, hooks);
    for k := 0 to |cases|
      invariant AllAdmissible(cases[..k], owned)
    {
      if !Admissible(cases[k], owned) { return Ok(OriginalRoot); }
    }
    assert cases[..|cases|] == cases;
    if Conflict(cases, owned) { return Ok(OriginalRoot); }
    var controllerIds := CaseNames(OwnedCases(root, hooks));
    var workers := Remaining(groups, set name | name in controllerIds);
    InventoryPreserved(root.children, Targets(hooks), identities, groups);
    if multiset(controllerIds + Assigned(workers)) != multiset(identities) { return Refused; }
    PlanKeepsFixturesApart(root.children, Targets(hooks), groups);
    InsideExactly(root, hooks, identities);
    OutsideExactly(groups, controllerIds);
    return Ok(ControllerThenWorkers(controllerIds, workers));
  }

  /** No test of the controller shares a class or a module with a test of a worker. */
  ghost predicate FixturesApart(cases: seq<Case>, inside: seq<string>, outside: seq<string>)
  {
    forall a, b | a in cases && b in cases && a.name in inside && b.name in outside ::
      a.cls != b.cls && a.mod != b.mod
  }

  // ----- that both are the same -----

  /** The objects that were seen: these and those of the suites. */
  ghost predicate Seen(after: set<nat>, before: set<nat>, suites: seq<Item>)
    requires forall s | s in suites :: s.Suite?
  {
    forall obj :: obj in after <==> obj in before || exists i | 0 <= i < |suites| :: suites[i].obj == obj
  }

  ghost predicate Unseen(suites: seq<Item>, seen: set<nat>)
    requires forall s | s in suites :: s.Suite?
  {
    forall i | 0 <= i < |suites| :: suites[i].obj !in seen
  }

  /** plain_tree accepts exactly plain trees of suites it has not seen. */
  lemma {:induction false} PlainTreeExactly(item: Item, seen: set<nat>)
    ensures PlainTree(item, seen).Some? <==> Plain(item) && Unseen(Suites(item), seen)
    ensures PlainTree(item, seen).Some? ==> Seen(PlainTree(item, seen).value, seen, Suites(item))
    decreases item
  {
    if item.Suite? {
      PlainTreesExactly(item, item.children, seen + {item.obj});
      var suites := SuitesOf(item, item.children);
      PartsJoin([], [item], CasesOf(item.children), suites);
      SeenJoin([item], suites, seen, seen + {item.obj});
      assert [item][0].obj == item.obj;
      assert [] + CasesOf(item.children) == CasesOf(item.children);
    }
  }

  lemma {:induction false} PlainTreesExactly(parent: Item, items: seq<Item>, seen: set<nat>)
    requires forall i | 0 <= i < |items| :: items[i] < parent
    ensures var suites := SuitesOf(parent, items); var after := PlainTrees(parent, items, seen);
      && (after.Some? <==> PlainParts(CasesOf(items), suites) && Unseen(suites, seen))
      && (after.Some? ==> Seen(after.value, seen, suites))
    decreases parent, |items|
  {
    if items != [] {
      PlainTreeExactly(items[0], seen);
      var after := PlainTree(items[0], seen);
      PartsJoin(Cases(items[0]), Suites(items[0]), CasesOf(items[1..]), SuitesOf(parent, items[1..]));
      SeenJoin(Suites(items[0]), SuitesOf(parent, items[1..]), seen, seen);
      if after.Some? {
        PlainTreesExactly(parent, items[1..], after.value);
        SeenJoin(Suites(items[0]), SuitesOf(parent, items[1..]), seen, after.value);
      }
    }
  }

  ghost predicate Different(s: seq<Item>, u: seq<Item>)
    requires (forall x | x in s :: x.Suite?) && (forall x | x in u :: x.Suite?)
  {
    forall i, j | 0 <= i < |s| && 0 <= j < |u| :: s[i].obj != u[j].obj
  }

  lemma PartsJoin(a: seq<Case>, s: seq<Item>, b: seq<Case>, u: seq<Item>)
    requires (forall x | x in s :: x.Suite?) && (forall x | x in u :: x.Suite?)
    ensures PlainParts(a + b, s + u) <==> PlainParts(a, s) && PlainParts(b, u) && Different(s, u)
  {
    assert forall i | 0 <= i < |s| :: (s + u)[i] == s[i];
    assert forall i | 0 <= i < |u| :: (s + u)[|s| + i] == u[i];
    assert forall test :: test in a + b <==> test in a || test in b;
  }

  lemma SeenJoin(s: seq<Item>, u: seq<Item>, seen: set<nat>, after: set<nat>)
    requires (forall x | x in s :: x.Suite?) && (forall x | x in u :: x.Suite?)
    ensures Unseen(s + u, seen) <==> Unseen(s, seen) && Unseen(u, seen)
    ensures Seen(after, seen, s) ==> (Unseen(u, after) <==> Unseen(u, seen) && Different(s, u))
    ensures forall all | Seen(after, seen, s) && Seen(all, after, u) :: Seen(all, seen, s + u)
  {
    assert forall i | 0 <= i < |s| :: (s + u)[i] == s[i];
    assert forall i | 0 <= i < |u| :: (s + u)[|s| + i] == u[i];
    if Seen(after, seen, s) {
      if Unseen(u, after) {
        forall i, j | 0 <= i < |s| && 0 <= j < |u| ensures s[i].obj != u[j].obj { assert s[i].obj in after; }
      }
    }
  }

  lemma KnownExactly(hooks: seq<Hook>, requested: seq<string>)
    ensures KnownRequest(hooks, requested) <==> AsksHooks(hooks, requested)
  {
    forall name ensures name in HookNames(hooks) <==> exists hook | hook in hooks :: hook.name == name {
      NameOfHook(hooks, name);
    }
  }

  lemma NameOfHook(hooks: seq<Hook>, name: string)
    ensures name in HookNames(hooks) <==> exists hook | hook in hooks :: hook.name == name
  {
    if name in HookNames(hooks) {
      var k :| 0 <= k < |hooks| && HookNames(hooks)[k] == name;
      assert hooks[k] in hooks && hooks[k].name == name;
    }
    if hook :| hook in hooks && hook.name == name {
      var k :| 0 <= k < |hooks| && hooks[k] == hook;
      assert HookNames(hooks)[k] == name;
    }
  }

  lemma SeparableExactly(root: Item, hooks: seq<Hook>, groups: seq<seq<string>>, requested: seq<string>)
    requires root.Suite?
    ensures Separable(root, hooks, groups, requested) <==>
      && Reviewed(hooks, requested) && NoRepeats(HookNames(hooks)) && |groups| != 1
      && PlainTree(root, {}).Some? && Located(root, hooks)
  {
    hide Plain, PlainTree;
    PlainTreeExactly(root, {});
    TargetsDistinct(hooks);
    forall name ensures name in HookNames(hooks) <==> exists hook | hook in hooks :: hook.name == name {
      NameOfHook(hooks, name);
    }
    assert forall hook | hook in hooks :: hook.obj in Targets(hooks);
  }

  lemma {:induction false} TargetsDistinct(hooks: seq<Hook>)
    ensures |Targets(hooks)| <= |hooks|
    ensures |Targets(hooks)| == |hooks| <==> forall i, j | 0 <= i < j < |hooks| :: hooks[i].obj != hooks[j].obj
  {
    hide Targets;
    if hooks == [] {
      assert Targets([]) == {} by { NoTargets(); }
    } else {
      var n := |hooks| - 1;
      TargetsDistinct(hooks[..n]);
      LastTarget(hooks);
    }
  }

  lemma NoTargets()
    ensures Targets([]) == {}
  {
  }

  lemma LastTarget(hooks: seq<Hook>)
    requires hooks != []
    ensures var n := |hooks| - 1;
      && Targets(hooks) == Targets(hooks[..n]) + {hooks[n].obj}
      && (hooks[n].obj in Targets(hooks[..n]) <==> exists i | 0 <= i < n :: hooks[i].obj == hooks[n].obj)
  {
    var n := |hooks| - 1;
    assert hooks == hooks[..n] + [hooks[n]];
    if i: nat :| i < n && hooks[i].obj == hooks[n].obj {
      assert hooks[..n][i] == hooks[i];
    }
  }

  /** The lone controller is a bare test case. */
  lemma LoneLeafExactly(root: Item, hooks: seq<Hook>)
    requires root.Suite? && Located(root, hooks)
    ensures var selected := Selected(root.children, Targets(hooks));
      |selected| == 1 && selected[0].Leaf? <==> LoneLeaf(root, hooks)
  {
    hide Selected;
    var children, targets := root.children, Targets(hooks);
    var selected := Selected(children, targets);
    SelectedFacts(children, targets);
    if |selected| == 1 && selected[0].Leaf? {
      var only := ObjectOf(selected[0]);
      assert selected[0] in selected;
      var i :| 0 <= i < |children| && children[i] == selected[0];
      forall j | 0 <= j < |children| && j != i ensures ObjectOf(children[j]) !in targets {
        if ObjectOf(children[j]) in targets { SelectedTwo(children, targets, i, j); }
      }
      assert forall t | t in targets :: t == only;
      assert targets == {only} && hooks[0].obj in targets;
      assert OnlyLeaf(children, hooks[0].obj, i);
    }
    if LoneLeaf(root, hooks) {
      var i :| 0 <= i < |children| && OnlyLeaf(children, hooks[0].obj, i);
      assert targets == {hooks[0].obj};
      SelectedOne(children, targets, i);
    }
  }

  lemma {:induction false} SelectedTwo(children: seq<Item>, targets: set<nat>, i: nat, j: nat)
    requires i < |children| && j < |children| && i != j
    requires ObjectOf(children[i]) in targets && ObjectOf(children[j]) in targets
    ensures |Selected(children, targets)| > 1
  {
    SelectedFacts(children[1..], targets);
    if i == 0 {
      assert children[1..][j - 1] in Selected(children[1..], targets);
    } else if j == 0 {
      assert children[1..][i - 1] in Selected(children[1..], targets);
    } else {
      SelectedTwo(children[1..], targets, i - 1, j - 1);
    }
  }

  lemma {:induction false} SelectedNone(children: seq<Item>, targets: set<nat>)
    requires forall j | 0 <= j < |children| :: ObjectOf(children[j]) !in targets
    ensures Selected(children, targets) == []
  {
    if children != [] { SelectedNone(children[1..], targets); }
  }

  lemma {:induction false} SelectedOne(children: seq<Item>, targets: set<nat>, i: nat)
    requires i < |children| && forall j | 0 <= j < |children| :: ObjectOf(children[j]) in targets <==> j == i
    ensures Selected(children, targets) == [children[i]]
  {
    if i == 0 {
      SelectedNone(children[1..], targets);
    } else {
      SelectedOne(children[1..], targets, i - 1);
    }
  }

  lemma FirstCases(children: seq<Item>, test: Case)
    requires children != []
    ensures test in CasesOf(children) <==> test in Cases(children[0]) || test in CasesOf(children[1..])
  {
    hide Cases;
  }

  /** A case is below a child exactly when it is among the child's cases. */
  lemma {:induction false} CaseOf(children: seq<Item>, test: Case)
    ensures test in CasesOf(children) <==> exists child | child in children :: test in Cases(child)
  {
    hide Cases;
    if children != [] {
      CaseOf(children[1..], test);
      assert forall child :: child in children <==> child == children[0] || child in children[1..];
      FirstCases(children, test);
    }
  }

  lemma OwnedExactly(root: Item, hooks: seq<Hook>, test: Case)
    requires root.Suite?
    ensures Owned(root, hooks, test) <==> test in OwnedCases(root, hooks)
    ensures Owned(root, hooks, test) ==> test in Cases(root)
  {
    hide Selected, CasesOf, Cases;
    SelectedFacts(root.children, Targets(hooks));
    CaseOf(Selected(root.children, Targets(hooks)), test);
    CaseOf(root.children, test);
    RootCases(root);
    assert forall hook | hook in hooks :: hook.obj in Targets(hooks);
  }

  lemma RootCases(root: Item)
    requires root.Suite?
    ensures Cases(root) == CasesOf(root.children)
  {
  }

  /** Told apart by their objects, the owned cases are those whose objects are owned. */
  lemma OwnedObject(root: Item, hooks: seq<Hook>, test: Case)
    requires root.Suite? && test in Cases(root)
    requires forall i, j | 0 <= i < j < |Cases(root)| :: Cases(root)[i].obj != Cases(root)[j].obj
    ensures Owned(root, hooks, test) <==> test.obj in OwnedObjects(root, hooks)
  {
    hide Owned, Cases, CasesOf;
    OwnedExactly(root, hooks, test);
    if test.obj in OwnedObjects(root, hooks) {
      var twin :| twin in OwnedCases(root, hooks) && twin.obj == test.obj;
      OwnedExactly(root, hooks, twin);
      var i :| 0 <= i < |Cases(root)| && Cases(root)[i] == test;
      var j :| 0 <= j < |Cases(root)| && Cases(root)[j] == twin;
    }
  }

  lemma FitExactly(root: Item, hooks: seq<Hook>, identities: seq<string>)
    requires root.Suite?
    ensures Fit(root, hooks, identities) <==> Movable(Cases(root), OwnedObjects(root, hooks), identities)
  {
    hide Cases, Owned, OwnedObjects;
    var cases, owned := Cases(root), OwnedObjects(root, hooks);
    if forall i, j | 0 <= i < j < |cases| :: cases[i].obj != cases[j].obj {
      forall test | test in cases ensures Owned(root, hooks, test) <==> test.obj in owned {
        OwnedObject(root, hooks, test);
      }
      SameConflict(root, hooks, cases, owned);
      assert NoRepeats(CaseObjects(cases));
    } else {
      var i, j :| 0 <= i < j < |cases| && cases[i].obj == cases[j].obj;
      assert CaseObjects(cases)[i] == CaseObjects(cases)[j];
    }
  }

  lemma SameConflict(root: Item, hooks: seq<Hook>, cases: seq<Case>, owned: set<nat>)
    requires root.Suite? && forall test | test in cases :: Owned(root, hooks, test) <==> test.obj in owned
    ensures Conflict(cases, owned) <==> exists a, b | a in cases && b in cases ::
      && Owned(root, hooks, a) && !Owned(root, hooks, b)
      && (a.cls == b.cls || a.mod == b.mod)
  {
    hide Owned;
    forall i, j | 0 <= i < |cases| && 0 <= j < |cases| ensures cases[i] in cases && cases[j] in cases {
    }
  }

  lemma InsideExactly(root: Item, hooks: seq<Hook>, identities: seq<string>)
    requires root.Suite? && Fit(root, hooks, identities)
    ensures Inside(CaseNames(OwnedCases(root, hooks)), root, hooks, identities)
  {
    hide Cases, Owned, CasesOf, Selected;
    var cases, part := Cases(root), OwnedCases(root, hooks);
    RootCases(root);
    var places := PickedCases(root.children, Targets(hooks));
    assert Picked(CaseNames(part), identities, places);
    forall k: nat | k < |cases| ensures k in places <==> Owned(root, hooks, cases[k]) {
      OwnedExactly(root, hooks, cases[k]);
      if cases[k] in part {
        var i :| 0 <= i < |part| && part[i] == cases[k];
        assert cases[places[i]] == cases[k] && places[i] == k;
      }
    }
  }

  lemma {:induction false} PickedCases(children: seq<Item>, targets: set<nat>) returns (places: seq<nat>)
    ensures Picked(CasesOf(Selected(children, targets)), CasesOf(children), places)
  {
    hide Cases, Picked;
    if children == [] {
      PickNone<Case>([]);
      return [];
    }
    var later := PickedCases(children[1..], targets);
    var first := Cases(children[0]);
    var rest := Selected(children[1..], targets);
    SelectedFirst(children, targets);
    if ObjectOf(children[0]) in targets {
      PickAll(first);
      PickJoin(first, first, All(first), CasesOf(rest), CasesOf(children[1..]), later);
      places := All(first) + Shifted(later, |first|);
    } else {
      PickNone(first);
      PickJoin([], first, [], CasesOf(rest), CasesOf(children[1..]), later);
      assert [] + CasesOf(rest) == CasesOf(rest);
      places := [] + Shifted(later, |first|);
    }
  }

  lemma SelectedFirst(children: seq<Item>, targets: set<nat>)
    requires children != []
    ensures var rest := Selected(children[1..], targets);
      CasesOf(Selected(children, targets)) ==
        if ObjectOf(children[0]) in targets then Cases(children[0]) + CasesOf(rest) else CasesOf(rest)
  {
    hide Cases;
    var rest := Selected(children[1..], targets);
    assert ([children[0]] + rest)[1..] == rest && [] + rest == rest;
  }

  ghost function All<T>(s: seq<T>): seq<nat>
  {
    seq(|s|, (k: nat) => k)
  }

  lemma PickAll<T>(s: seq<T>)
    ensures Picked(s, s, All(s))
  {
  }

  lemma PickNone<T>(s: seq<T>)
    ensures Picked([], s, [])
  {
  }

  lemma PickBelow<T>(part: seq<T>, whole: seq<T>, places: seq<nat>)
    requires Picked(part, whole, places)
    ensures forall k | k in places :: k < |whole|
  {
  }

  lemma PickJoin<T>(part: seq<T>, whole: seq<T>, places: seq<nat>, more: seq<T>, rest: seq<T>, later: seq<nat>)
    requires Picked(part, whole, places) && Picked(more, rest, later)
    ensures Picked(part + more, whole + rest, places + Shifted(later, |whole|))
  {
  }

  ghost function Shifted(places: seq<nat>, n: nat): seq<nat>
  {
    seq(|places|, i requires 0 <= i < |places| => n + places[i])
  }

  /** A worker's group without the controller's tests. */
  lemma {:induction false} PickedKept(group: seq<string>, owned: set<string>) returns (places: seq<nat>)
    ensures Picked(Keep(group, owned), group, places)
    ensures forall k: nat | k < |group| :: k in places <==> group[k] !in owned
  {
    hide Picked;
    if group == [] {
      PickNone<string>([]);
      return [];
    }
    var n := |group| - 1;
    var before := PickedKept(group[..n], owned);
    var kept := Keep(group[..n], owned);
    assert group == group[..n] + [group[n]];
    if group[n] in owned {
      PickNone([group[n]]);
      PickJoin(kept, group[..n], before, [], [group[n]], []);
      assert before + Shifted([], n) == before && kept + [] == kept;
      PickBelow(kept, group[..n], before);
      return before;
    }
    PickAll([group[n]]);
    PickJoin(kept, group[..n], before, [group[n]], [group[n]], All([group[n]]));
    places := before + Shifted(All([group[n]]), n);
    assert places == before + [n];
  }

  lemma {:induction false} OutsideExactly(groups: seq<seq<string>>, inside: seq<string>)
    ensures Outside(Remaining(groups, set name | name in inside), groups, inside)
  {
    hide Outside, Remaining, Keep;
    if groups == [] {
      NoWorkers(inside);
    } else {
      var n := |groups| - 1;
      OutsideExactly(groups[..n], inside);
      GroupWithout(groups[n], inside);
      OneMoreGroup(Remaining(groups[..n], set name | name in inside), groups, inside,
                   Keep(groups[n], set name | name in inside));
      LastRemaining(groups, set name | name in inside);
    }
  }

  lemma NoWorkers(inside: seq<string>)
    ensures Outside(Remaining([], set name | name in inside), [], inside)
  {
  }

  lemma LastRemaining(groups: seq<seq<string>>, owned: set<string>)
    requires groups != []
    ensures var n := |groups| - 1; var members := Keep(groups[n], owned);
      Remaining(groups, owned) == Remaining(groups[..n], owned) + if members == [] then [] else [(n, members)]
  {
    hide Keep;
  }

  lemma OneMoreGroup(before: seq<(nat, seq<string>)>, groups: seq<seq<string>>, inside: seq<string>,
        members: seq<string>)
    requires groups != [] && Outside(before, groups[..|groups| - 1], inside)
    requires var group := groups[|groups| - 1];
      Without(members, group, inside) && (members == [] <==> forall name | name in group :: name in inside)
    ensures var n := |groups| - 1;
      Outside(before + (if members == [] then [] else [(n, members)]), groups, inside)
  {
    hide Without;
    var n := |groups| - 1;
    var all := before + if members == [] then [] else [(n, members)];
    forall i | 0 <= i < |before| ensures all[i] == before[i] && before[i].0 < n { assert before[i] in before; }
    forall w | w in all ensures w.0 < |groups| && w.1 != [] && Without(w.1, groups[w.0], inside) {
      if w in before { assert groups[..n][w.0] == groups[w.0]; }
    }
    forall m, name | 0 <= m < |groups| && name in groups[m] && name !in inside
      ensures exists w | w in all :: w.0 == m
    {
      if m < n {
        assert groups[..n][m] == groups[m];
        var w :| w in before && w.0 == m;
        assert w in all;
      } else {
        assert all[|all| - 1] == (n, members);
      }
    }
  }

  lemma GroupWithout(group: seq<string>, inside: seq<string>)
    ensures var members := Keep(group, set name | name in inside);
      Without(members, group, inside) && (members == [] <==> forall name | name in group :: name in inside)
  {
    var places := PickedKept(group, set name | name in inside);
    assert places != [] ==> places[0] in places;
  }

  lemma {:induction false} SelectedFacts(children: seq<Item>, targets: set<nat>)
    ensures forall item :: item in Selected(children, targets) <==> item in children && ObjectOf(item) in targets
  {
    if children != [] {
      SelectedFacts(children[1..], targets);
      assert children == [children[0]] + children[1..];
    }
  }

  // ----- the controller's tests are a part of the discovered tests -----

  lemma {:induction false} OwnedAreCases(children: seq<Item>, targets: set<nat>)
    ensures multiset(CasesOf(Selected(children, targets))) <= multiset(CasesOf(children))
  {
    if children != [] {
      OwnedAreCases(children[1..], targets);
      if ObjectOf(children[0]) in targets {
        assert Selected(children, targets)[1..] == Selected(children[1..], targets);
      } else {
        assert Selected(children, targets) == Selected(children[1..], targets);
      }
    }
  }

  /** Distinct names carry over to any part of the cases. */
  lemma NamesOfPart(part: seq<Case>, cases: seq<Case>)
    requires multiset(part) <= multiset(cases) && NoRepeats(CaseNames(cases))
    ensures NoRepeats(CaseNames(part))
    ensures forall name | name in CaseNames(part) :: name in CaseNames(cases)
  {
    assert NoRepeats(cases) by {
      forall i, j | 0 <= i < j < |cases| ensures cases[i] != cases[j] {
        assert CaseNames(cases)[i] != CaseNames(cases)[j];
      }
    }
    SubNoRepeats(part, cases);
    forall i | 0 <= i < |part| ensures part[i] in cases { assert part[i] in multiset(cases); }
    forall i, j | 0 <= i < j < |part| ensures CaseNames(part)[i] != CaseNames(part)[j] {
      var a :| 0 <= a < |cases| && cases[a] == part[i];
      var b :| 0 <= b < |cases| && cases[b] == part[j];
      assert a != b;
      assert CaseNames(cases)[a] != CaseNames(cases)[b];
    }
    forall name | name in CaseNames(part) ensures name in CaseNames(cases) {
      var i :| 0 <= i < |part| && CaseNames(part)[i] == name;
      var a :| 0 <= a < |cases| && cases[a] == part[i];
      assert CaseNames(cases)[a] == name;
    }
  }

  // ----- removing the controller's tests from the groups -----

  lemma {:induction false} KeepCounts(group: seq<string>, owned: set<string>, name: string)
    ensures multiset(Keep(group, owned))[name] == if name in owned then 0 else multiset(group)[name]
  {
    if group != [] {
      var n := |group| - 1;
      var before, last := Keep(group[..n], owned), if group[n] in owned then [] else [group[n]];
      KeepCounts(group[..n], owned, name);
      LastCounts(group, name);
      JoinCounts(before, last, name);
    }
  }

  lemma {:induction false} RemainingCounts(groups: seq<seq<string>>, owned: set<string>, name: string)
    ensures multiset(Assigned(Remaining(groups, owned)))[name]
      == if name in owned then 0 else multiset(Concat(groups))[name]
  {
    hide Keep;
    if groups != [] {
      var n := |groups| - 1;
      var before, members := Remaining(groups[..n], owned), Keep(groups[n], owned);
      RemainingCounts(groups[..n], owned, name);
      KeepCounts(groups[n], owned, name);
      JoinCounts(Concat(groups[..n]), groups[n], name);
      AssignedThen(before, n, members, name);
    }
  }

  lemma AssignedThen(before: seq<(nat, seq<string>)>, n: nat, members: seq<string>, name: string)
    ensures multiset(Assigned(before + (if members == [] then [] else [(n, members)])))[name]
      == multiset(Assigned(before))[name] + multiset(members)[name]
  {
    if members == [] {
      assert before + [] == before;
    } else {
      assert (before + [(n, members)])[..|before|] == before;
      JoinCounts(Assigned(before), members, name);
    }
  }

  /** One name: it is either inside or among what remains, once. */
  lemma InsideOrRemaining(inside: seq<string>, owned: set<string>, identities: seq<string>, groups: seq<seq<string>>,
        name: string)
    requires NoRepeats(identities) && NoRepeats(inside) && owned == (set n | n in inside)
    requires multiset(Concat(groups)) == multiset(identities) && (name in inside ==> name in identities)
    ensures multiset(inside + Assigned(Remaining(groups, owned)))[name] == multiset(identities)[name]
  {
    hide NoRepeats, Assigned, Remaining, Concat;
    RemainingCounts(groups, owned, name);
    OnceCounts(inside, name);
    OnceCounts(identities, name);
    JoinCounts(inside, Assigned(Remaining(groups, owned)), name);
  }

  /** The exact-inventory check at the end of execution_plan cannot fail. */
  lemma InventoryPreserved(children: seq<Item>, targets: set<nat>, identities: seq<string>, groups: seq<seq<string>>)
    requires NoRepeats(identities) && CaseNames(CasesOf(children)) == identities
    requires multiset(Concat(groups)) == multiset(identities)
    ensures var inside := CaseNames(CasesOf(Selected(children, targets)));
      multiset(inside + Assigned(Remaining(groups, set name | name in inside))) == multiset(identities)
  {
    hide NoRepeats, Assigned, Remaining, Concat, CasesOf, Selected, CaseNames;
    var part := CasesOf(Selected(children, targets));
    var inside := CaseNames(part);
    var owned := set name | name in inside;
    OwnedAreCases(children, targets);
    NamesOfPart(part, CasesOf(children));
    forall name: string
      ensures multiset(inside + Assigned(Remaining(groups, owned)))[name] == multiset(identities)[name]
    {
      InsideOrRemaining(inside, owned, identities, groups, name);
    }
    SameCounts(inside + Assigned(Remaining(groups, owned)), identities);
  }

  lemma PlanKeepsFixturesApart(children: seq<Item>, targets: set<nat>, groups: seq<seq<string>>)
    requires var owned := set test | test in CasesOf(Selected(children, targets)) :: test.obj;
      !Conflict(CasesOf(children), owned)
    requires NoRepeats(CaseNames(CasesOf(children))) && NoRepeats(CaseObjects(CasesOf(children)))
    ensures var inside := CaseNames(CasesOf(Selected(children, targets)));
      FixturesApart(CasesOf(children), inside, Assigned(Remaining(groups, set name | name in inside)))
  {
    hide CasesOf, Selected, Assigned, Remaining, Conflict, NoRepeats, CaseNames, CaseObjects;
    var cases, ownedCases := CasesOf(children), CasesOf(Selected(children, targets));
    OwnedAreCases(children, targets);
    forall a, b | a in cases && b in cases && a.name in CaseNames(ownedCases)
        && b.name in Assigned(Remaining(groups, set name | name in CaseNames(ownedCases)))
      ensures a.cls != b.cls && a.mod != b.mod
    {
      PairApart(cases, ownedCases, groups, a, b);
    }
  }

  /** One test of the controller and one of a worker. */
  lemma PairApart(cases: seq<Case>, ownedCases: seq<Case>, groups: seq<seq<string>>, a: Case, b: Case)
    requires !Conflict(cases, set test | test in ownedCases :: test.obj)
    requires NoRepeats(CaseNames(cases)) && NoRepeats(CaseObjects(cases)) && multiset(ownedCases) <= multiset(cases)
    requires a in cases && b in cases && a.name in CaseNames(ownedCases)
    requires b.name in Assigned(Remaining(groups, set name | name in CaseNames(ownedCases)))
    ensures a.cls != b.cls && a.mod != b.mod
  {
    hide Assigned, Remaining, NoRepeats;
    var inside := set name | name in CaseNames(ownedCases);
    RemainingCounts(groups, inside, b.name);
    assert b.name in multiset(Assigned(Remaining(groups, inside)));
    var i :| 0 <= i < |ownedCases| && CaseNames(ownedCases)[i] == a.name;
    assert ownedCases[i] in multiset(cases);
    SameName(cases, a, ownedCases[i]);
    OwnedName(cases, ownedCases, b);
    var p :| 0 <= p < |cases| && cases[p] == a;
    var q :| 0 <= q < |cases| && cases[q] == b;
    assert cases[p].obj == ownedCases[i].obj;
  }

  /** A case object owned by the controller is one of its cases. */
  lemma OwnedName(cases: seq<Case>, ownedCases: seq<Case>, b: Case)
    requires NoRepeats(CaseObjects(cases)) && multiset(ownedCases) <= multiset(cases) && b in cases
    ensures (exists twin | twin in ownedCases :: twin.obj == b.obj) ==> b.name in CaseNames(ownedCases)
  {
    if j: nat :| j < |ownedCases| && ownedCases[j].obj == b.obj {
      assert ownedCases[j] in multiset(cases);
      SameObject(cases, b, ownedCases[j]);
      assert CaseNames(ownedCases)[j] == b.name;
    }
  }

  lemma SameName(cases: seq<Case>, a: Case, b: Case)
    requires NoRepeats(CaseNames(cases)) && a in cases && b in cases && a.name == b.name
    ensures a == b
  {
    var i :| 0 <= i < |cases| && cases[i] == a;
    var j :| 0 <= j < |cases| && cases[j] == b;
    assert CaseNames(cases)[i] == CaseNames(cases)[j];
  }

  lemma SameObject(cases: seq<Case>, a: Case, b: Case)
    requires NoRepeats(CaseObjects(cases)) && a in cases && b in cases && a.obj == b.obj
    ensures a == b
  {
    var i :| 0 <= i < |cases| && cases[i] == a;
    var j :| 0 <= j < |cases| && cases[j] == b;
    assert CaseObjects(cases)[i] == CaseObjects(cases)[j];
  }
}
