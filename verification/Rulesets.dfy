/** scripts/configure_release_docs_bot.py: moving main's review rule into its own ruleset,
    where the documentation App may bypass it, without a moment of missing protection.

    Nobody else writes rulesets meanwhile.  Every request may fail, a write may be applied
    although its response is lost, and the script may be started again after any of this. */
module Rulesets {
  import opened Outcomes
  import opened Sequences

  /** The parameters of a pull request rule, in the order of PR_PARAMETERS. */
  datatype Review = Review(approvals: nat, dismissStale: bool, reviewers: seq<string>, codeOwner: bool, lastPush: bool,
                           threads: bool, extraApproval: bool, methods: seq<string>)

  datatype Rule = Deletion | NonFastForward | LinearHistory | PullRequest(parameters: Review) | OtherRule(kind: string)

  datatype Actor = Admin | App(id: nat) | OtherActor(kind: string, id: nat)

  datatype Target = DefaultBranch | OtherTarget(conditions: string)

  /** The fields payload() copies. */
  datatype Ruleset = Ruleset(name: string, target: Target, active: bool, rules: seq<Rule>, bypass: seq<Actor>)

  /** The repository's rulesets: the known one of main, which owned says is the
      repository's own, and all others.  The script finds the one it makes by its name. */
  datatype Policy = Policy(main: Ruleset, owned: bool, others: seq<Ruleset>)

  const MAIN := "main"
  const REVIEWED := "main-reviewed-source"
  const REVIEW_RULE := PullRequest(Review(1, true, [], true, true, false, true, ["squash"]))
  const CORE := [Deletion, NonFastForward, LinearHistory]

  // ----- plan -----

  function WithoutReview(rules: seq<Rule>): seq<Rule>
  {
    if rules == [] then []
    else (if rules[0].PullRequest? then [] else [rules[0]]) + WithoutReview(rules[1..])
  }

  /** The rules are the three core rules, with or without the review rule, in any order. */
  predicate Familiar(rules: seq<Rule>)
  {
    multiset(rules) == multiset(CORE) || multiset(rules) == multiset(CORE) + multiset{REVIEW_RULE}
  }

  /** The checks of plan. */
  predicate Plannable(p: Policy)
  {
    p.owned && p.main.name == MAIN && p.main.target == DefaultBranch && p.main.active && p.main.bypass == [Admin]
    && Familiar(p.main.rules)
  }

  function ProtectMain(main: Ruleset): Ruleset
  {
    main.(rules := WithoutReview(main.rules))
  }

  function ReviewSource(app: nat): Ruleset
  {
    Ruleset(REVIEWED, DefaultBranch, true, [REVIEW_RULE], [Admin, App(app)])
  }

  // ----- configure: what it starts from -----

  function Reviewed(others: seq<Ruleset>): seq<Ruleset>
  {
    if others == [] then []
    else (if others[0].name == REVIEWED then [others[0]] else []) + Reviewed(others[1..])
  }

  predicate Grants(r: Ruleset, app: nat)
  {
    r.active && App(app) in r.bypass
  }

  /** check_other_grants: no active ruleset but the reviewed one lets the App pass. */
  predicate NoOtherGrants(p: Policy, app: nat)
  {
    !Grants(p.main, app)
    && forall i | 0 <= i < |p.others| :: p.others[i].name != REVIEWED ==> !Grants(p.others[i], app)
  }

  /** The policies configure is willing to change or to confirm. */
  predicate Ready(p: Policy, app: nat)
  {
    var reviewed := Reviewed(p.others);
    && Plannable(p) && |reviewed| <= 1
    && (if reviewed == [] then exists i | 0 <= i < |p.main.rules| :: p.main.rules[i].PullRequest?
        else reviewed[0] == ReviewSource(app))
    && NoOtherGrants(p, app)
  }

  // ----- what that means, in terms of the rulesets alone -----

  ghost predicate Among(r: Ruleset, p: Policy)
  {
    r == p.main || r in p.others
  }

  /** The ruleset is in force on the default branch, for everyone but these. */
  ghost predicate Enforced(r: Ruleset, p: Policy, but: set<Actor>)
  {
    Among(r, p) && r.active && r.target == DefaultBranch && forall a | a in r.bypass :: a in but
  }

  /** A rule that asks for an approval by a code owner, of the last push, and of nothing
      that was changed since. */
  ghost predicate AsksReview(rule: Rule)
  {
    && rule.PullRequest? && rule.parameters.approvals >= 1 && rule.parameters.dismissStale
    && rule.parameters.codeOwner && rule.parameters.lastPush
  }

  /** Deletion, force pushes and merges are refused for everyone but the owner, changes need
      a review unless the owner or this App makes them, and a review is all the App may
      bypass. */
  ghost predicate Protected(p: Policy, app: nat)
  {
    && (exists r :: Enforced(r, p, {Admin}) && Deletion in r.rules && NonFastForward in r.rules
          && LinearHistory in r.rules)
    && (exists r, rule :: Enforced(r, p, {Admin, App(app)}) && rule in r.rules && AsksReview(rule))
    && (forall r, rule | Among(r, p) && r.active && App(app) in r.bypass && rule in r.rules :: rule.PullRequest?)
  }

  /** main is as it was made by hand, with its review rule or, once there is the one ruleset
      of that rule, perhaps without; the App bypasses no other ruleset in force. */
  ghost predicate Acceptable(p: Policy, app: nat)
  {
    var review := PullRequest(Review(1, true, [], true, true, false, true, ["squash"]));
    var core := multiset{Deletion, NonFastForward, LinearHistory};
    var source := Ruleset("main-reviewed-source", DefaultBranch, true, [review], [Admin, App(app)]);
    && p.owned && p.main == Ruleset("main", DefaultBranch, true, p.main.rules, [Admin])
    && (multiset(p.main.rules) == core + multiset{review}
        || (multiset(p.main.rules) == core && exists r :: r in p.others && r.name == source.name))
    && (forall r | r in p.others && r.name == source.name :: r == source) && multiset(p.others)[source] <= 1
    && (forall r | r in p.others && r.active && App(app) in r.bypass :: r.name == source.name)
  }

  /** What configure leaves of a policy: main with its core rules only, and one ruleset that
      asks for the review. */
  ghost predicate Configured(p: Policy, q: Policy, app: nat)
  {
    var source := Ruleset(
      "main-reviewed-source", DefaultBranch, true,
      [PullRequest(Review(1, true, [], true, true, false, true, ["squash"]))], [Admin, App(app)]
    );
    && q.main == p.main.(rules := q.main.rules)
    && multiset(q.main.rules) == multiset{Deletion, NonFastForward, LinearHistory}
    && multiset(q.others)[source] == 1 && forall r | r in q.others && r.name == source.name :: r == source
  }

  /** The policy configure is heading for. */
  predicate Final(p: Policy, app: nat, goal: Ruleset)
  {
    p.main == goal && |Reviewed(p.others)| == 1 && Reviewed(p.others)[0] == ReviewSource(app)
  }

  /** How far a run may get: nothing, the new ruleset, and then main without its review rule. */
  ghost predicate Toward(p: Policy, q: Policy, app: nat)
  {
    && q.owned == p.owned
    && (q.others == p.others || (Reviewed(p.others) == [] && q.others == p.others + [ReviewSource(app)]))
    && (q.main == p.main || (q.main == ProtectMain(p.main) && Reviewed(q.others) != []))
  }

  lemma {:induction false} ReviewedAppend(others: seq<Ruleset>, e: Ruleset)
    ensures Reviewed(others + [e]) == Reviewed(others) + (if e.name == REVIEWED then [e] else [])
  {
    if others == [] {
      assert others + [e] == [e];
    } else {
      assert (others + [e])[1..] == others[1..] + [e];
      ReviewedAppend(others[1..], e);
      Associates(
        if others[0].name == REVIEWED then [others[0]] else [], Reviewed(others[1..]),
        if e.name == REVIEWED then [e] else []
      );
    }
  }

  lemma {:induction false} ReviewedIn(others: seq<Ruleset>, e: Ruleset)
    ensures e in Reviewed(others) <==> e in others && e.name == REVIEWED
  {
    if others != [] {
      ReviewedIn(others[1..], e);
      assert others == [others[0]] + others[1..];
    }
  }

  lemma {:induction false} WithoutReviewKeeps(rules: seq<Rule>, r: Rule)
    ensures multiset(WithoutReview(rules))[r] == if r.PullRequest? then 0 else multiset(rules)[r]
  {
    if rules != [] {
      WithoutReviewKeeps(rules[1..], r);
      assert rules == [rules[0]] + rules[1..];
    }
  }

  lemma {:induction false} WithoutReviewAgain(rules: seq<Rule>)
    ensures WithoutReview(WithoutReview(rules)) == WithoutReview(rules)
  {
    if rules != [] {
      WithoutReviewAgain(rules[1..]);
      var rest := WithoutReview(rules[1..]);
      assert ([rules[0]] + rest)[1..] == rest && [] + rest == rest;
    }
  }

  lemma StaysFamiliar(rules: seq<Rule>)
    requires Familiar(rules)
    ensures Familiar(WithoutReview(rules)) && multiset(WithoutReview(rules)) == multiset(CORE)
  {
    hide WithoutReview;
    forall r ensures multiset(WithoutReview(rules))[r] == multiset(CORE)[r] {
      WithoutReviewKeeps(rules, r);
      CoreIsNoReview(r);
    }
    SameCounts(WithoutReview(rules), CORE);
  }

  lemma CoreIsNoReview(r: Rule)
    ensures r.PullRequest? ==> multiset(CORE)[r] == 0
  {
    assert r in multiset(CORE) <==> r in CORE;
  }

  // ----- acceptance, exactly -----

  lemma {:induction false} ReviewedCounts(others: seq<Ruleset>, e: Ruleset)
    ensures multiset(Reviewed(others))[e] == if e.name == REVIEWED then multiset(others)[e] else 0
  {
    if others != [] {
      ReviewedCounts(others[1..], e);
      assert others == [others[0]] + others[1..];
      JoinCounts([others[0]], others[1..], e);
      JoinCounts(if others[0].name == REVIEWED then [others[0]] else [], Reviewed(others[1..]), e);
    }
  }

  /** None or just the one. */
  lemma ReviewedIs(others: seq<Ruleset>, source: Ruleset)
    requires source.name == REVIEWED
    ensures Reviewed(others) == [source] <==>
      multiset(others)[source] == 1 && forall r | r in others && r.name == REVIEWED :: r == source
    ensures Reviewed(others) == [] <==> forall r | r in others :: r.name != REVIEWED
  {
    var found := Reviewed(others);
    forall r ensures r in found <==> r in others && r.name == REVIEWED { ReviewedIn(others, r); }
    ReviewedCounts(others, source);
    if multiset(others)[source] == 1 && forall r | r in others && r.name == REVIEWED :: r == source {
      assert forall i | 0 <= i < |found| :: found[i] in found;
      if |found| > 1 { TwiceCounts(found, 0, 1); }
      assert source in multiset(others);
    }
    if found == [source] { assert multiset(found)[source] == 1; }
    if found != [] { assert found[0] in found; }
  }

  lemma CoreIs()
    ensures multiset(CORE) == multiset{Deletion, NonFastForward, LinearHistory}
    ensures REVIEW_RULE == PullRequest(Review(1, true, [], true, true, false, true, ["squash"]))
  {
  }

  lemma HasReview(rules: seq<Rule>)
    requires Familiar(rules)
    ensures (exists i | 0 <= i < |rules| :: rules[i].PullRequest?)
      <==> multiset(rules) == multiset(CORE) + multiset{REVIEW_RULE}
  {
    if i: nat :| i < |rules| && rules[i].PullRequest? {
      assert rules[i] in multiset(rules);
      CoreIsNoReview(rules[i]);
    }
    if multiset(rules) == multiset(CORE) + multiset{REVIEW_RULE} {
      assert REVIEW_RULE in multiset(rules);
      var i :| 0 <= i < |rules| && rules[i] == REVIEW_RULE;
    }
    assert multiset(CORE)[REVIEW_RULE] == 0 by { CoreIsNoReview(REVIEW_RULE); }
  }

  /** configure accepts exactly these policies. */
  lemma ReadyExactly(p: Policy, app: nat)
    ensures Ready(p, app) <==> Acceptable(p, app)
  {
    hide Reviewed, Grants;
    CoreIs();
    OneSource(p.others, ReviewSource(app));
    GrantsExactly(p, app);
    if Familiar(p.main.rules) { HasReview(p.main.rules); }
  }

  /** At most one ruleset has the name of the review source, and that is it. */
  lemma OneSource(others: seq<Ruleset>, source: Ruleset)
    requires source.name == REVIEWED
    ensures var found := Reviewed(others);
      && (found == [] <==> !exists r :: r in others && r.name == REVIEWED)
      && (|found| <= 1 && (found != [] ==> found[0] == source) <==>
            (forall r | r in others && r.name == REVIEWED :: r == source) && multiset(others)[source] <= 1)
  {
    hide Reviewed;
    var found := Reviewed(others);
    ReviewedIs(others, source);
    ReviewedCounts(others, source);
    if |found| == 1 { assert found == [found[0]]; }
    if found != [] { ReviewedIn(others, found[0]); }
    if multiset(others)[source] == 1 { assert source in multiset(others); }
    assert multiset(others)[source] > 0 <==> source in others;
  }

  lemma GrantsExactly(p: Policy, app: nat)
    ensures NoOtherGrants(p, app) <==>
      !(p.main.active && App(app) in p.main.bypass)
      && forall r | r in p.others && r.active && App(app) in r.bypass :: r.name == REVIEWED
  {
    if NoOtherGrants(p, app) {
      forall r | r in p.others && r.active && App(app) in r.bypass ensures r.name == REVIEWED {
        var i :| 0 <= i < |p.others| && p.others[i] == r;
        assert Grants(p.others[i], app);
      }
    }
    if forall r | r in p.others && r.active && App(app) in r.bypass :: r.name == REVIEWED {
      forall i | 0 <= i < |p.others| && p.others[i].name != REVIEWED ensures !Grants(p.others[i], app) {
        assert p.others[i] in p.others;
      }
    }
  }

  /** Whatever configure accepts is protected. */
  lemma ReadyIsProtected(p: Policy, app: nat)
    requires Ready(p, app)
    ensures Protected(p, app)
  {
    hide Reviewed, Ready;
    ReadyExactly(p, app);
    var source := ReviewSource(app);
    assert Deletion in multiset(p.main.rules) && NonFastForward in multiset(p.main.rules);
    assert LinearHistory in multiset(p.main.rules);
    assert Enforced(p.main, p, {Admin}) && Enforced(p.main, p, {Admin, App(app)});
    assert AsksReview(REVIEW_RULE);
    if REVIEW_RULE in multiset(p.main.rules) {
      assert REVIEW_RULE in p.main.rules;
    } else {
      assert source in p.others && Enforced(source, p, {Admin, App(app)}) && REVIEW_RULE in source.rules;
    }
  }

  /** Where configure heads for, exactly. */
  lemma FinalIsConfigured(p: Policy, q: Policy, app: nat)
    requires Ready(p, app)
    ensures Final(q, app, ProtectMain(p.main)) ==> Configured(p, q, app)
  {
    hide Reviewed, WithoutReview;
    StaysFamiliar(p.main.rules);
    CoreIs();
    ReviewedIs(q.others, ReviewSource(app));
    if Final(q, app, ProtectMain(p.main)) {
      assert Reviewed(q.others) == [ReviewSource(app)];
    }
  }

  /** At every point a run can stop, main is protected, a new run accepts what it finds,
      and it heads for the same two rulesets. */
  lemma EveryStopIsSafe(p: Policy, q: Policy, app: nat)
    requires Ready(p, app) && Toward(p, q, app)
    ensures Protected(q, app) && Ready(q, app) && ProtectMain(q.main) == ProtectMain(p.main)
  {
    hide Familiar, WithoutReview, Protected, Reviewed;
    StaysFamiliar(p.main.rules);
    WithoutReviewAgain(p.main.rules);
    if q.others != p.others {
      ReviewedAppend(p.others, ReviewSource(app));
    }
    ReadyIsProtected(q, app);
  }

  /** Runs one after the other end with what the first of them aimed at. */
  lemma {:induction false} RerunsConverge(states: seq<Policy>, app: nat, goal: Ruleset)
    requires states != [] && Ready(states[0], app) && goal == ProtectMain(states[0].main)
    requires forall k | 0 <= k < |states| - 1 :: Toward(states[k], states[k + 1], app)
    ensures forall k | 0 <= k < |states| ::
      Protected(states[k], app) && Ready(states[k], app) && ProtectMain(states[k].main) == goal
    decreases |states|
  {
    ReadyIsProtected(states[0], app);
    if |states| > 1 {
      assert Toward(states[0], states[1], app);
      EveryStopIsSafe(states[0], states[1], app);
      var rest := states[1..];
      forall k | 0 <= k < |rest| - 1 ensures Toward(rest[k], rest[k + 1], app) {
        assert Toward(states[k + 1], states[k + 2], app);
      }
      RerunsConverge(rest, app, goal);
      forall k | 1 <= k < |states|
        ensures Protected(states[k], app) && Ready(states[k], app) && ProtectMain(states[k].main) == goal
      {
        assert states[k] == rest[k - 1];
      }
    }
  }

  // ----- configure -----

  /** Does a request get through?  reliable: every one does. */
  method Answers(reliable: bool) returns (ok: bool)
    ensures reliable ==> ok
  {
    if reliable { ok := true; } else { ok := *; }
  }

  class Configurator {
    const app: nat

    /** Whether every request of this run succeeds. */
    const reliable: bool

    var policy: Policy
    var writes: nat

    constructor (app: nat, reliable: bool, policy: Policy)
      ensures this.app == app && this.reliable == reliable && this.policy == policy && writes == 0
    {
      this.app, this.reliable, this.policy, writes := app, reliable, policy, 0;
    }

    /** POST rulesets */
    method Create(r: Ruleset) returns (ok: bool)
      modifies this`policy, this`writes
      ensures writes == old(writes) + 1
      ensures policy == old(policy) || policy == old(policy).(others := old(policy).others + [r])
      ensures ok ==> policy == old(policy).(others := old(policy).others + [r])
      ensures reliable ==> ok
    {
      writes := writes + 1;
      var arrives := Answers(reliable);
      if arrives { policy := policy.(others := policy.others + [r]); }
      var answered := Answers(reliable);
      ok := arrives && answered;
    }

    /** PUT of the known ruleset of main. */
    method UpdateMain(r: Ruleset) returns (ok: bool)
      modifies this`policy, this`writes
      ensures writes == old(writes) + 1
      ensures policy == old(policy) || policy == old(policy).(main := r)
      ensures ok ==> policy == old(policy).(main := r)
      ensures reliable ==> ok
    {
      writes := writes + 1;
      var arrives := Answers(reliable);
      if arrives { policy := policy.(main := r); }
      var answered := Answers(reliable);
      ok := arrives && answered;
    }

    /** configure */
    method Configure(apply: bool) returns (r: Result<()>)
      modifies this`policy, this`writes
      ensures if Acceptable(old(policy), app) then Toward(old(policy), policy, app)
        else policy == old(policy) && r == Refused
      ensures Acceptable(old(policy), app) ==> Protected(policy, app) && Acceptable(policy, app)
      ensures !apply ==> policy == old(policy) && writes == old(writes)
      ensures apply && r.Ok? ==>
        Final(policy, app, ProtectMain(old(policy).main)) && Configured(old(policy), policy, app)
      ensures Acceptable(old(policy), app) && reliable ==> r.Ok?
      ensures Final(old(policy), app, ProtectMain(old(policy).main)) ==> writes == old(writes)
    {
      hide Protected, Acceptable, Configured;
      ghost var start := policy;
      ReadyExactly(start, app);
      if Ready(start, app) { ReadyIsProtected(start, app); }
      var answers := Answers(reliable);
      if !answers { return Refused; }
      var original := policy.main;
      if !Plannable(policy) { return Refused; }
      var protected, reviewed := ProtectMain(original), ReviewSource(app);
      var existing := Reviewed(policy.others);
      if |existing| > 1 { return Refused; }
      if existing != [] {
        if existing[0] != reviewed { return Refused; }
      } else if !(exists i | 0 <= i < |original.rules| :: original.rules[i].PullRequest?) {
        return Refused;
      }
      if !NoOtherGrants(policy, app) { return Refused; }
      assert Ready(start, app);
      if !apply { return Ok(()); }
      ReviewedAppend(start.others, reviewed);
      if existing == [] {
        var created := Create(reviewed);
        EveryStopIsSafe(start, policy, app);
        ReadyExactly(policy, app);
        if !created { return Refused; }
      }
      answers := Answers(reliable);
      if !answers || Reviewed(policy.others)[0] != reviewed { return Refused; }
      if policy.main != original { return Refused; }
      EveryStopIsSafe(start, policy, app);
      ReadyExactly(policy, app);
      if original != protected {
        var updated := UpdateMain(protected);
        EveryStopIsSafe(start, policy, app);
        ReadyExactly(policy, app);
        if !updated { return Refused; }
      }
      answers := Answers(reliable);
      if !answers || policy.main != protected || Reviewed(policy.others)[0] != reviewed { return Refused; }
      EveryStopIsSafe(start, policy, app);
      FinalIsConfigured(start, policy, app);
      if !NoOtherGrants(policy, app) { return Refused; }
      r := Ok(());
    }
  }
}
