/** The longest-first scheduler shared by both test runners: jobs arrive in a fixed order
    and each goes to the least loaded worker, the lowest-numbered one on a tie.

    An assignment is a sequence: entry k is the worker of the k-th job. */
module GreedySchedule {
  import opened Ordering
  import opened Sequences

  /** Load of worker w: the costs of the jobs assigned to it. */
  function Load(costs: seq<real>, assign: seq<nat>, w: nat): real
    requires |costs| == |assign|
  {
    if |costs| == 0 then 0.0
    else
      var n := |costs| - 1;
      Load(costs[..n], assign[..n], w) + (if assign[n] == w then costs[n] else 0.0)
  }

  function Total(costs: seq<real>): real
  {
    if |costs| == 0 then 0.0 else Total(costs[..|costs| - 1]) + costs[|costs| - 1]
  }

  /** Sum of the loads of workers 0..m-1. */
  function LoadSum(costs: seq<real>, assign: seq<nat>, m: nat): real
    requires |costs| == |assign|
  {
    if m == 0 then 0.0 else LoadSum(costs, assign, m - 1) + Load(costs, assign, m - 1)
  }

  ghost predicate Workers(assign: seq<nat>, m: nat)
  {
    forall k | 0 <= k < |assign| :: assign[k] < m
  }

  ghost predicate NonNegative(costs: seq<real>)
  {
    forall k | 0 <= k < |costs| :: costs[k] >= 0.0
  }

  ghost predicate Falling(costs: seq<real>)
  {
    forall i, j | 0 <= i < j < |costs| :: costs[i] >= costs[j]
  }

  /** No worker of this split carries more than t. */
  ghost predicate Within(costs: seq<real>, assign: seq<nat>, m: nat, t: real)
  {
    |costs| == |assign| && Workers(assign, m) && forall w: nat | w < m :: Load(costs, assign, w) <= t
  }

  // ----- the greedy rule -----

  /** The worker with the smallest load, and of several such the first. */
  function LeastLoaded(loads: seq<real>): (w: nat)
    requires loads != []
    ensures w < |loads|
    ensures forall v | 0 <= v < |loads| :: loads[w] <= loads[v]
    ensures forall v | 0 <= v < w :: loads[w] < loads[v]
  {
    if |loads| == 1 then 0
    else
      var n := |loads| - 1;
      var w := LeastLoaded(loads[..n]);
      if loads[n] < loads[w] then n else w
  }

  function LoadsOf(costs: seq<real>, assign: seq<nat>, m: nat): (loads: seq<real>)
    requires |costs| == |assign|
    ensures |loads| == m && forall w | 0 <= w < m :: loads[w] == Load(costs, assign, w)
  {
    seq(m, (w: nat) => Load(costs, assign, w))
  }

  function GreedyAssign(costs: seq<real>, m: nat): (assign: seq<nat>)
    requires m > 0
    ensures |assign| == |costs|
    ensures Workers(assign, m)
  {
    if costs == [] then []
    else
      var n := |costs| - 1;
      var before := GreedyAssign(costs[..n], m);
      before + [LeastLoaded(LoadsOf(costs[..n], before, m))]
  }

  /** One greedy step, on the assignment and on the running loads. */
  lemma GreedyStep(costs: seq<real>, m: nat, k: nat)
    requires m > 0 && k < |costs|
    ensures var before := GreedyAssign(costs[..k], m);
      var loads := LoadsOf(costs[..k], before, m);
      var worker := LeastLoaded(loads);
      && GreedyAssign(costs[..k + 1], m) == before + [worker]
      && LoadsOf(costs[..k + 1], before + [worker], m) == loads[worker := loads[worker] + costs[k]]
  {
    hide Load, LeastLoaded;
    assert costs[..k + 1][..k] == costs[..k];
    var before := GreedyAssign(costs[..k], m);
    LoadsStep(costs, before, LeastLoaded(LoadsOf(costs[..k], before, m)), m, k);
  }

  lemma LoadsStep(costs: seq<real>, before: seq<nat>, worker: nat, m: nat, k: nat)
    requires k < |costs| && |before| == k && worker < m
    ensures var loads := LoadsOf(costs[..k], before, m);
      LoadsOf(costs[..k + 1], before + [worker], m) == loads[worker := loads[worker] + costs[k]]
  {
    var loads, after := LoadsOf(costs[..k], before, m), LoadsOf(costs[..k + 1], before + [worker], m);
    forall w | 0 <= w < m ensures after[w] == loads[w] + if w == worker then costs[k] else 0.0 {
      LoadStep(costs, before, worker, w, k);
    }
  }

  lemma LoadStep(costs: seq<real>, before: seq<nat>, worker: nat, w: nat, k: nat)
    requires k < |costs| && |before| == k
    ensures Load(costs[..k + 1], before + [worker], w)
         == Load(costs[..k], before, w) + if w == worker then costs[k] else 0.0
  {
    assert costs[..k + 1][..k] == costs[..k] && (before + [worker])[..k] == before;
  }

  /** The items of the jobs assigned to worker w, in arrival order. */
  function Bucket<T>(items: seq<T>, assign: seq<nat>, w: nat): seq<T>
    requires |items| == |assign|
  {
    if |items| == 0 then []
    else
      var n := |items| - 1;
      Bucket(items[..n], assign[..n], w) + (if assign[n] == w then [items[n]] else [])
  }

  function Buckets<T>(items: seq<T>, assign: seq<nat>, m: nat): (groups: seq<seq<T>>)
    requires |items| == |assign|
    ensures |groups| == m && forall w | 0 <= w < m :: groups[w] == Bucket(items, assign, w)
  {
    seq(m, (w: nat) => Bucket(items, assign, w))
  }

  /** The loop over the sorted jobs, with its running groups and loads. */
  method AssignInOrder<T>(items: seq<T>, costs: seq<real>, m: nat) returns (groups: seq<seq<T>>, loads: seq<real>)
    requires m > 0 && |items| == |costs|
    ensures groups == Buckets(items, GreedyAssign(costs, m), m)
    ensures loads == LoadsOf(costs, GreedyAssign(costs, m), m)
  {
    hide Load, Bucket, LeastLoaded;
    groups := seq(m, _ => []);
    loads := seq(m, _ => 0.0);
    NothingAssigned<T>(m);
    assert costs[..0] == [] && items[..0] == [];
    for k := 0 to |costs|
      invariant groups == Buckets(items[..k], GreedyAssign(costs[..k], m), m)
      invariant |loads| == m && loads == LoadsOf(costs[..k], GreedyAssign(costs[..k], m), m)
    {
      GreedyStep(costs, m, k);
      var worker := LeastLoaded(loads);
      BucketsStep(items, GreedyAssign(costs[..k], m), worker, m, k);
      groups := groups[worker := groups[worker] + [items[k]]];
      loads := loads[worker := loads[worker] + costs[k]];
    }
    assert costs[..|costs|] == costs && items[..|items|] == items;
  }

  lemma NothingAssigned<T>(m: nat)
    ensures forall w | 0 <= w < m :: Buckets<T>([], [], m)[w] == [] && LoadsOf([], [], m)[w] == 0.0
  {
  }

  lemma BucketsStep<T>(items: seq<T>, before: seq<nat>, worker: nat, m: nat, k: nat)
    requires k < |items| && |before| == k && worker < m
    ensures var groups := Buckets(items[..k], before, m);
      Buckets(items[..k + 1], before + [worker], m) == groups[worker := groups[worker] + [items[k]]]
  {
    assert items[..k + 1][..k] == items[..k] && (before + [worker])[..k] == before;
    var groups := Buckets(items[..k], before, m);
    var after := Buckets(items[..k + 1], before + [worker], m);
    forall w | 0 <= w < m ensures after[w] == groups[worker := groups[worker] + [items[k]]][w] {}
  }

  // ----- sums -----

  /** Adding one job adds its cost to the sum of the loads. */
  lemma {:induction false} LoadSumSnoc(costs: seq<real>, assign: seq<nat>, m: nat)
    requires |costs| == |assign| && |costs| > 0
    ensures var n := |costs| - 1;
      LoadSum(costs, assign, m) ==
      LoadSum(costs[..n], assign[..n], m) + (if assign[n] < m then costs[n] else 0.0)
  {
    if m > 0 { LoadSumSnoc(costs, assign, m - 1); }
  }

  /** Conservation: the loads of all workers add up to the cost of all jobs. */
  lemma {:induction false} LoadsAddUp(costs: seq<real>, assign: seq<nat>, m: nat)
    requires |costs| == |assign| && Workers(assign, m)
    ensures LoadSum(costs, assign, m) == Total(costs)
  {
    if |costs| == 0 {
      LoadSumEmpty(m);
    } else {
      var n := |costs| - 1;
      LoadSumSnoc(costs, assign, m);
      LoadsAddUp(costs[..n], assign[..n], m);
    }
  }

  lemma {:induction false} LoadSumEmpty(m: nat)
    ensures LoadSum([], [], m) == 0.0
  {
    if m > 0 { LoadSumEmpty(m - 1); }
  }

  lemma {:induction false} LoadSumAtLeast(costs: seq<real>, assign: seq<nat>, m: nat, low: real)
    requires |costs| == |assign|
    requires forall w: nat | w < m :: Load(costs, assign, w) >= low
    ensures LoadSum(costs, assign, m) >= Times(m, low)
  {
    if m > 0 {
      LoadSumAtLeast(costs, assign, m - 1, low);
    }
  }

  lemma {:induction false} LoadSumAtMost(costs: seq<real>, assign: seq<nat>, m: nat, high: real)
    requires |costs| == |assign|
    requires forall w: nat | w < m :: Load(costs, assign, w) <= high
    ensures LoadSum(costs, assign, m) <= Times(m, high)
  {
    if m > 0 {
      LoadSumAtMost(costs, assign, m - 1, high);
    }
  }

  lemma {:induction false} LoadNonNegative(costs: seq<real>, assign: seq<nat>, w: nat)
    requires |costs| == |assign| && NonNegative(costs)
    ensures Load(costs, assign, w) >= 0.0
  {
    if |costs| > 0 { LoadNonNegative(costs[..|costs| - 1], assign[..|costs| - 1], w); }
  }

  /** Dropping the last job of a split keeps it within the same bound. */
  lemma WithinPrefix(costs: seq<real>, assign: seq<nat>, m: nat, t: real)
    requires |costs| > 0 && NonNegative(costs) && Within(costs, assign, m, t)
    ensures var n := |costs| - 1; Within(costs[..n], assign[..n], m, t)
  {
    var n := |costs| - 1;
    forall w: nat | w < m ensures Load(costs[..n], assign[..n], w) <= t {
      assert Load(costs, assign, w) <= t;
    }
  }

  /** The last job fits under the bound of any split. */
  lemma LastFits(costs: seq<real>, assign: seq<nat>, m: nat, t: real)
    requires |costs| > 0 && NonNegative(costs) && Within(costs, assign, m, t)
    ensures 0.0 <= costs[|costs| - 1] <= t
  {
    var n := |costs| - 1;
    LoadNonNegative(costs[..n], assign[..n], assign[n]);
    assert Load(costs, assign, assign[n]) <= t;
  }

  /** If every worker already carries at least low, then m*low is at most the work done. */
  lemma LeastBelowAverage(costs: seq<real>, assign: seq<nat>, m: nat, low: real)
    requires |costs| == |assign| && Workers(assign, m)
    requires forall w: nat | w < m :: Load(costs, assign, w) >= low
    ensures Times(m, low) <= Total(costs)
  {
    LoadSumAtLeast(costs, assign, m, low);
    LoadsAddUp(costs, assign, m);
  }

  // ----- the list-scheduling bound -----

  /** m*(low + last) when m workers carry at least low and the last job costs at most c. */
  lemma LastShare(m: nat, low: real, last: real, total: real, c: real)
    requires m > 0 && Times(m, low) <= total && last <= c
    ensures Times(m, low + last) <= total + last + Times(m, c) - c
  {
    TimesAdds(m, low, last);
    TimesMonotone(m, last, c);
  }

  /** load is at most total/m + (1 - 1/m) * c. */
  predicate NearAverage(m: nat, load: real, total: real, c: real)
  {
    m as real * load <= total + (m as real - 1.0) * c
  }

  lemma NearAverageTimes(m: nat, load: real, total: real, c: real)
    ensures NearAverage(m, load, total, c) <==> Times(m, load) <= total + Times(m, c) - c
  {
    TimesIsProduct(m, load);
    TimesIsProduct(m, c);
    assert (m as real - 1.0) * c == m as real * c - c;
  }

  /** Every load is at most total/m + (1 - 1/m) * c, for any bound c on a single cost.  Holds
      for every arrival order. */
  lemma AverageBound(costs: seq<real>, m: nat, c: real, w: nat)
    requires m > 0 && w < m && NonNegative(costs) && c >= 0.0
    requires forall k | 0 <= k < |costs| :: costs[k] <= c
    ensures NearAverage(m, Load(costs, GreedyAssign(costs, m), w), Total(costs), c)
  {
    hide NearAverage;
    AverageShare(costs, m, c, w);
    NearAverageTimes(m, Load(costs, GreedyAssign(costs, m), w), Total(costs), c);
  }

  lemma {:induction false} AverageShare(costs: seq<real>, m: nat, c: real, w: nat)
    requires m > 0 && w < m && NonNegative(costs) && c >= 0.0
    requires forall k | 0 <= k < |costs| :: costs[k] <= c
    ensures Times(m, Load(costs, GreedyAssign(costs, m), w)) <= Total(costs) + Times(m, c) - c
  {
    if |costs| == 0 {
      AtLeastOne(m, c);
      TimesZero(m);
    } else {
      var n := |costs| - 1;
      var before := GreedyAssign(costs[..n], m);
      var assign := GreedyAssign(costs, m);
      assert assign[..n] == before;
      if assign[n] != w {
        AverageShare(costs[..n], m, c, w);
      } else {
        var low := Load(costs[..n], before, w);
        GreedyPicksLeast(costs, m);
        LeastBelowAverage(costs[..n], before, m, low);
        LastShare(m, low, costs[n], Total(costs[..n]), c);
      }
    }
  }

  lemma AtLeastOne(m: nat, c: real)
    requires m > 0 && c >= 0.0
    ensures Times(m, c) >= c
  {
    TimesZero(m);
    TimesMonotone(m, 0.0, c);
  }

  /** The worker chosen for the last job carried the least. */
  lemma GreedyPicksLeast(costs: seq<real>, m: nat)
    requires m > 0 && |costs| > 0
    ensures var n := |costs| - 1;
      var before := GreedyAssign(costs[..n], m);
      var chosen := GreedyAssign(costs, m)[n];
      && chosen < m
      && (forall w: nat | w < m :: Load(costs[..n], before, w) >= Load(costs[..n], before, chosen))
      && (forall w: nat | w < chosen :: Load(costs[..n], before, w) > Load(costs[..n], before, chosen))
  {
    var n := |costs| - 1;
    var before := GreedyAssign(costs[..n], m);
    var loads := LoadsOf(costs[..n], before, m);
    forall w: nat | w < m ensures loads[w] == Load(costs[..n], before, w) {}
  }

  // ----- the longest-first bound -----

  /** Weights against a bound t when every job costs at least p > t/3: a job that cannot
      share a worker with another one counts double. */
  function Weights(costs: seq<real>, p: real, t: real): (r: seq<real>)
    ensures |r| == |costs|
    ensures forall k | 0 <= k < |costs| :: r[k] == if costs[k] > t - p then 2.0 else 1.0
  {
    seq(|costs|, (k: nat) requires k < |costs| => if costs[k] > t - p then 2.0 else 1.0)
  }

  lemma WeightsPrefix(costs: seq<real>, p: real, t: real, n: nat)
    requires n <= |costs|
    ensures Weights(costs, p, t)[..n] == Weights(costs[..n], p, t)
  {
  }

  /** How much load a weight forces: 1 means p, 2 means more than t - p, 3 more than t. */
  lemma {:induction false} WeightForcesLoad(costs: seq<real>, assign: seq<nat>, w: nat, p: real, t: real)
    requires |costs| == |assign| && 3.0 * p > t >= p >= 0.0
    requires forall k | 0 <= k < |costs| :: costs[k] >= p
    ensures var weight := Load(Weights(costs, p, t), assign, w);
      var load := Load(costs, assign, w);
      && (weight == 0.0 || weight == 1.0 || weight == 2.0 || weight >= 3.0)
      && (weight == 0.0 ==> load == 0.0)
      && (weight >= 1.0 ==> load >= p)
      && (weight >= 2.0 ==> load > t - p)
      && (weight >= 3.0 ==> load > t)
  {
    if |costs| > 0 {
      var n := |costs| - 1;
      WeightsPrefix(costs, p, t, n);
      WeightForcesLoad(costs[..n], assign[..n], w, p, t);
    }
  }

  /** A worker carrying more than t - p holds weight at least 2. */
  lemma {:induction false} LoadForcesWeight(costs: seq<real>, assign: seq<nat>, w: nat, p: real, t: real)
    requires |costs| == |assign| && t >= p >= 0.0
    ensures var weight := Load(Weights(costs, p, t), assign, w);
      && (weight == 0.0 || weight == 1.0 || weight >= 2.0)
      && (weight == 0.0 ==> Load(costs, assign, w) == 0.0)
      && (weight == 1.0 ==> Load(costs, assign, w) <= t - p)
  {
    if |costs| > 0 {
      var n := |costs| - 1;
      WeightsPrefix(costs, p, t, n);
      LoadForcesWeight(costs[..n], assign[..n], w, p, t);
    }
  }

  /** When the last job is the smallest and costs more than t/3, the least loaded worker
      still has room for it under t, for any t that some split achieves.  Otherwise the
      jobs weigh more than 2m, while a split within t weighs at most 2 per worker. */
  lemma BigJobFits(costs: seq<real>, m: nat, before: seq<nat>, low: real, alt: seq<nat>, t: real)
    requires |costs| > 0 && Falling(costs) && NonNegative(costs)
    requires var n := |costs| - 1;
      && |before| == n && Workers(before, m)
      && (forall w: nat | w < m :: Load(costs[..n], before, w) >= low)
      && 3.0 * costs[n] > t
    requires Within(costs, alt, m, t)
    ensures low + costs[|costs| - 1] <= t
  {
    var n := |costs| - 1;
    var p := costs[n];
    LastFits(costs, alt, m, t);
    if low + p > t {
      var weights := Weights(costs, p, t);
      forall w: nat | w < m ensures Load(weights, alt, w) <= 2.0 {
        WeightForcesLoad(costs, alt, w, p, t);
      }
      LoadSumAtMost(weights, alt, m, 2.0);
      LoadsAddUp(weights, alt, m);
      WeightsPrefix(costs, p, t, n);
      forall w: nat | w < m ensures Load(weights[..n], before, w) >= 2.0 {
        LoadForcesWeight(costs[..n], before, w, p, t);
      }
      LeastBelowAverage(weights[..n], before, m, 2.0);
      assert false;
    }
  }

  lemma SmallJobShare(m: nat, low: real, p: real, total: real, t: real)
    requires m > 0 && Times(m, low) <= total - p && total <= Times(m, t) && 3.0 * p <= t && p >= 0.0
    ensures 3.0 * Times(m, low + p) <= 4.0 * Times(m, t) - t
  {
    LastShare(m, low, p, total - p, p);
    TimesAdds(m, p, p);
    TimesAdds(m, p + p, p);
    TimesMonotone(m, p + p + p, t);
  }

  lemma WithinIsEnough(m: nat, load: real, t: real)
    requires m > 0 && load <= t && t >= 0.0
    ensures 3.0 * Times(m, load) <= 4.0 * Times(m, t) - t
  {
    TimesMonotone(m, load, t);
    AtLeastOne(m, t);
  }

  /** load is at most 4/3 - 1/(3m) times t. */
  predicate NearBest(m: nat, load: real, t: real)
  {
    3.0 * (m as real * load) <= (4.0 * m as real - 1.0) * t
  }

  lemma NearBestTimes(m: nat, load: real, t: real)
    ensures NearBest(m, load, t) <==> 3.0 * Times(m, load) <= 4.0 * Times(m, t) - t
  {
    TimesIsProduct(m, load);
    TimesIsProduct(m, t);
    assert (4.0 * m as real - 1.0) * t == 4.0 * (m as real * t) - t;
  }

  /** Longest-first is within 4/3 - 1/(3m) of every other split over m workers. */
  lemma LongestFirstBound(costs: seq<real>, m: nat, alt: seq<nat>, t: real, w: nat)
    requires m > 0 && w < m && NonNegative(costs) && Falling(costs) && Within(costs, alt, m, t)
    ensures NearBest(m, Load(costs, GreedyAssign(costs, m), w), t)
  {
    hide NearBest;
    LongestFirstShare(costs, m, alt, t, w);
    NearBestTimes(m, Load(costs, GreedyAssign(costs, m), w), t);
  }

  lemma {:induction false} LongestFirstShare(costs: seq<real>, m: nat, alt: seq<nat>, t: real, w: nat)
    requires m > 0 && w < m && NonNegative(costs) && Falling(costs) && Within(costs, alt, m, t)
    ensures 3.0 * Times(m, Load(costs, GreedyAssign(costs, m), w)) <= 4.0 * Times(m, t) - t
  {
    LoadNonNegative(costs, alt, 0);
    assert t >= 0.0 by { assert Load(costs, alt, 0) <= t; }
    if |costs| == 0 {
      WithinIsEnough(m, 0.0, t);
    } else {
      var n := |costs| - 1;
      assert GreedyAssign(costs, m)[..n] == GreedyAssign(costs[..n], m);
      if GreedyAssign(costs, m)[n] != w {
        WithinPrefix(costs, alt, m, t);
        LongestFirstShare(costs[..n], m, alt[..n], t, w);
      } else {
        LastPlacementBound(costs, m, alt, t);
      }
    }
  }

  lemma LastPlacementBound(costs: seq<real>, m: nat, alt: seq<nat>, t: real)
    requires m > 0 && |costs| > 0 && NonNegative(costs) && Falling(costs) && Within(costs, alt, m, t) && t >= 0.0
    ensures var n := |costs| - 1;
      var before := GreedyAssign(costs[..n], m);
      var low := Load(costs[..n], before, GreedyAssign(costs, m)[n]);
      3.0 * Times(m, low + costs[n]) <= 4.0 * Times(m, t) - t
  {
    var n := |costs| - 1;
    var before := GreedyAssign(costs[..n], m);
    var low := Load(costs[..n], before, GreedyAssign(costs, m)[n]);
    GreedyPicksLeast(costs, m);
    if 3.0 * costs[n] > t {
      BigJobFits(costs, m, before, low, alt, t);
      WithinIsEnough(m, low + costs[n], t);
    } else {
      LeastBelowAverage(costs[..n], before, m, low);
      LoadSumAtMost(costs, alt, m, t);
      LoadsAddUp(costs, alt, m);
      SmallJobShare(m, low, costs[n], Total(costs), t);
    }
  }

  // ----- which workers get work -----

  ghost predicate Used(assign: seq<nat>, w: nat)
  {
    w in assign
  }

  function PositiveCount(costs: seq<real>): (c: nat)
    ensures c <= |costs|
  {
    if costs == [] then 0
    else PositiveCount(costs[..|costs| - 1]) + (if costs[|costs| - 1] > 0.0 then 1 else 0)
  }

  lemma {:induction false} FallingAllPositive(costs: seq<real>)
    requires Falling(costs) && |costs| > 0 && costs[|costs| - 1] > 0.0
    ensures PositiveCount(costs) == |costs|
  {
    var n := |costs| - 1;
    if n > 0 {
      assert costs[..n][n - 1] >= costs[n];
      FallingAllPositive(costs[..n]);
    }
  }

  /** What the greedy run looks like with the given number of positive-cost jobs: the
      workers with a load are the first ones, and a job without cost goes to the first
      worker without a load. */
  ghost predicate UsedPrefix(costs: seq<real>, assign: seq<nat>, m: nat, positive: nat)
    requires |costs| == |assign|
  {
    && (forall w: nat | w < m :: Load(costs, assign, w) > 0.0 <==> w < positive)
    && (forall w: nat | w < m :: Used(assign, w) <==> w < positive || (w == positive && positive < |costs|))
  }

  /** While a worker without a load is left, the lowest-numbered one is chosen. */
  lemma ChosenIsFirstIdle(costs: seq<real>, m: nat, positive: nat)
    requires m > positive && |costs| > 0 && NonNegative(costs)
    requires var n := |costs| - 1; UsedPrefix(costs[..n], GreedyAssign(costs[..n], m), m, positive)
    ensures GreedyAssign(costs, m)[|costs| - 1] == positive
  {
    var n := |costs| - 1;
    var before := GreedyAssign(costs[..n], m);
    var chosen := GreedyAssign(costs, m)[n];
    GreedyPicksLeast(costs, m);
    LoadNonNegative(costs[..n], before, positive);
    LoadNonNegative(costs[..n], before, chosen);
    assert !(Load(costs[..n], before, positive) > 0.0);
  }

  lemma UsedPrefixStep(costs: seq<real>, before: seq<nat>, chosen: nat, m: nat, positive: nat)
    requires |costs| == |before| + 1 && NonNegative(costs) && chosen < m
    requires var n := |costs| - 1; UsedPrefix(costs[..n], before, m, positive)
    requires positive < m ==> chosen == positive
    requires var n := |costs| - 1; positive == n || (positive < n && costs[n] == 0.0)
    ensures UsedPrefix(costs, before + [chosen], m, positive + (if costs[|costs| - 1] > 0.0 then 1 else 0))
  {
    var n := |costs| - 1;
    var assign := before + [chosen];
    assert assign[..n] == before;
    var after := positive + (if costs[n] > 0.0 then 1 else 0);
    forall w: nat | w < m
      ensures Used(assign, w) <==> Used(before, w) || w == chosen
      ensures Load(costs, assign, w) > 0.0 <==> w < after
    {
      LoadNonNegative(costs[..n], before, w);
      assert Load(costs, assign, w) == Load(costs[..n], before, w) + (if chosen == w then costs[n] else 0.0);
      assert Load(costs[..n], before, w) > 0.0 <==> w < positive;
    }
  }

  lemma {:induction false} UsedWorkers(costs: seq<real>, m: nat)
    requires m > 0 && NonNegative(costs) && Falling(costs)
    ensures UsedPrefix(costs, GreedyAssign(costs, m), m, PositiveCount(costs))
  {
    if |costs| > 0 {
      var n := |costs| - 1;
      UsedWorkers(costs[..n], m);
      if costs[n] > 0.0 { FallingAllPositive(costs); }
      var positive := PositiveCount(costs[..n]);
      var chosen := GreedyAssign(costs, m)[n];
      if positive < m { ChosenIsFirstIdle(costs, m, positive); }
      UsedPrefixStep(costs, GreedyAssign(costs[..n], m), chosen, m, positive);
    }
  }

  ghost predicate AllUsed(assign: seq<nat>, m: nat)
  {
    forall w: nat | w < m :: Used(assign, w)
  }

  /** Every worker gets a job exactly when at most one worker lacks a positive-cost job. */
  lemma NoWorkerIdle(costs: seq<real>, m: nat)
    requires 0 < m <= |costs| && NonNegative(costs) && Falling(costs)
    ensures AllUsed(GreedyAssign(costs, m), m) <==> PositiveCount(costs) + 1 >= m
  {
    UsedWorkers(costs, m);
    var assign, positive := GreedyAssign(costs, m), PositiveCount(costs);
    if positive + 1 >= m {
      forall w: nat | w < m ensures Used(assign, w) {
        assert w < positive || (w == positive && positive < |costs|);
      }
    } else {
      var last: nat := m - 1;
      assert !Used(assign, last);
    }
  }

  /** Two jobs that were measured at zero both go to the first of two workers. */
  lemma ZeroCostsLeaveOneIdle()
    ensures !AllUsed(GreedyAssign([0.0, 0.0], 2), 2)
  {
    NoWorkerIdle([0.0, 0.0], 2);
    assert [0.0, 0.0][..1] == [0.0];
  }

  // ----- sums over a list of indices -----

  ghost predicate InRange(indices: seq<nat>, n: nat)
  {
    forall k | 0 <= k < |indices| :: indices[k] < n
  }

  lemma InRangePermuted(a: seq<nat>, b: seq<nat>, n: nat)
    requires multiset(a) == multiset(b) && InRange(a, n)
    ensures InRange(b, n)
  {
    forall k | 0 <= k < |b| ensures b[k] < n {
      assert b[k] in multiset(a);
    }
  }

  /** Sum of the entries of v at the listed indices. */
  ghost function VectorSum(v: seq<real>, indices: seq<nat>): real
    requires InRange(indices, |v|)
  {
    if indices == [] then 0.0
    else
      VectorSum(v, indices[..|indices| - 1]) + v[indices[|indices| - 1]]
  }

  function Without<T>(s: seq<T>, j: nat): (r: seq<T>)
    requires j < |s|
    ensures multiset(r) == multiset(s) - multiset{s[j]}
    ensures |r| == |s| - 1 && forall x | x in r :: x in s
  {
    assert s == s[..j] + [s[j]] + s[j + 1..];
    s[..j] + s[j + 1..]
  }

  lemma {:induction false} VectorSumWithout(v: seq<real>, a: seq<nat>, j: nat)
    requires InRange(a, |v|) && j < |a| && InRange(Without(a, j), |v|)
    ensures VectorSum(v, a) == VectorSum(v, Without(a, j)) + v[a[j]]
  {
    var n := |a| - 1;
    if j < n {
      assert Without(a, j)[..n - 1] == Without(a[..n], j);
      VectorSumWithout(v, a[..n], j);
    } else {
      assert Without(a, j) == a[..n];
    }
  }

  lemma InRangeWithout(b: seq<nat>, j: nat, n: nat)
    requires InRange(b, n) && j < |b|
    ensures InRange(Without(b, j), n)
  {
    var r := Without(b, j);
    forall k | 0 <= k < |r| ensures r[k] < n { assert r[k] in b; }
  }

  /** The order of the indices does not matter. */
  lemma {:induction false} VectorSumPermuted(v: seq<real>, a: seq<nat>, b: seq<nat>)
    requires InRange(a, |v|) && InRange(b, |v|)
    requires multiset(a) == multiset(b)
    ensures VectorSum(v, a) == VectorSum(v, b)
  {
    hide Without;
    assert |a| == |multiset(a)| == |multiset(b)| == |b|;
    if a != [] {
      var j := LastOccursIn(a, b);
      InRangeWithout(b, j, |v|);
      VectorSumWithout(v, b, j);
      VectorSumPermuted(v, a[..|a| - 1], Without(b, j));
    }
  }

  lemma LastOccursIn<T>(a: seq<T>, b: seq<T>) returns (j: nat)
    requires a != [] && multiset(a) == multiset(b)
    ensures j < |b| && b[j] == a[|a| - 1] && multiset(a[..|a| - 1]) == multiset(Without(b, j))
  {
    hide Without;
    var n := |a| - 1;
    assert a[n] in multiset(b);
    j :| 0 <= j < |b| && b[j] == a[n];
    assert a == a[..n] + [a[n]];
  }

  function Upto(n: nat): (r: seq<nat>)
    ensures |r| == n && forall i | 0 <= i < n :: r[i] == i
  {
    seq(n, i => i)
  }

  /** s read through a list of indices. */
  function At<T>(s: seq<T>, indices: seq<nat>): (r: seq<T>)
    requires InRange(indices, |s|)
    ensures |r| == |indices| && forall k | 0 <= k < |indices| :: r[k] == s[indices[k]]
  {
    seq(|indices|, (k: nat) requires k < |indices| => s[indices[k]])
  }

  lemma AtUpto<T>(s: seq<T>)
    ensures At(s, Upto(|s|)) == s
  {
  }

  /** A load, as a sum over the indices of the worker's entries. */
  function Masked(v: seq<real>, assign: seq<nat>, w: nat): (r: seq<real>)
    requires |v| == |assign|
    ensures |r| == |v| && forall i | 0 <= i < |v| :: r[i] == if assign[i] == w then v[i] else 0.0
  {
    seq(|v|, (i: nat) requires i < |v| => if assign[i] == w then v[i] else 0.0)
  }

  lemma {:induction false} LoadIsVectorSum(v: seq<real>, assign: seq<nat>, w: nat, order: seq<nat>)
    requires |v| == |assign| && InRange(order, |v|)
    ensures Load(At(v, order), At(assign, order), w) == VectorSum(Masked(v, assign, w), order)
  {
    if order != [] {
      var n := |order| - 1;
      assert At(v, order)[..n] == At(v, order[..n]);
      assert At(assign, order)[..n] == At(assign, order[..n]);
      LoadIsVectorSum(v, assign, w, order[..n]);
    }
  }

  /** Handing the jobs out in another order leaves every load as it was. */
  lemma LoadPermuted(v: seq<real>, assign: seq<nat>, w: nat, order: seq<nat>)
    requires |v| == |assign| && InRange(order, |v|)
    requires multiset(order) == multiset(Upto(|v|))
    ensures Load(At(v, order), At(assign, order), w) == Load(v, assign, w)
  {
    var mask := Masked(v, assign, w);
    LoadIsVectorSum(v, assign, w, order);
    LoadIsVectorSum(v, assign, w, Upto(|v|));
    AtUpto(v);
    AtUpto(assign);
    VectorSumPermuted(mask, order, Upto(|v|));
  }

  /** The cost of a bucket is the load of its worker. */
  lemma {:induction false} BucketCost(v: seq<real>, order: seq<nat>, assign: seq<nat>, w: nat)
    requires |order| == |assign| && InRange(order, |v|)
    ensures InRange(Bucket(order, assign, w), |v|)
    ensures VectorSum(v, Bucket(order, assign, w)) == Load(At(v, order), assign, w)
  {
    if order != [] {
      var n := |order| - 1;
      BucketCost(v, order[..n], assign[..n], w);
      assert At(v, order)[..n] == At(v, order[..n]);
      var smaller := Bucket(order[..n], assign[..n], w);
      assert (smaller + [order[n]])[..|smaller|] == smaller && smaller + [] == smaller;
    }
  }

  /** The groups together hold exactly the items. */
  function Concat<T>(groups: seq<seq<T>>): seq<T>
  {
    if groups == [] then [] else Concat(groups[..|groups| - 1]) + groups[|groups| - 1]
  }

  lemma {:induction false} ConcatUpdate<T>(groups: seq<seq<T>>, w: nat, x: T)
    requires w < |groups|
    ensures multiset(Concat(groups[w := groups[w] + [x]])) == multiset(Concat(groups)) + multiset{x}
  {
    var n := |groups| - 1;
    var after := groups[w := groups[w] + [x]];
    if w < n {
      ConcatUpdate(groups[..n], w, x);
      assert after[..n] == groups[..n][w := groups[..n][w] + [x]];
    } else {
      assert after[..n] == groups[..n];
    }
  }

  lemma {:induction false} ConcatEmpty<T>(m: nat)
    ensures Concat(seq<seq<T>>(m, _ => [])) == []
  {
    if m > 0 {
      var groups: seq<seq<T>> := seq(m, _ => []);
      assert groups[..m - 1] == seq<seq<T>>(m - 1, _ => []);
      ConcatEmpty<T>(m - 1);
    }
  }

  /** Conservation: the buckets hold every item as often as it arrived. */
  lemma {:induction false} BucketsConserve<T>(items: seq<T>, assign: seq<nat>, m: nat)
    requires |items| == |assign| && Workers(assign, m)
    ensures multiset(Concat(Buckets(items, assign, m))) == multiset(items)
  {
    if |items| == 0 {
      assert Buckets(items, assign, m) == seq<seq<T>>(m, _ => []);
      ConcatEmpty<T>(m);
    } else {
      var n := |items| - 1;
      var groups := Buckets(items[..n], assign[..n], m);
      calc {
        multiset(Concat(Buckets(items, assign, m)));
        { assert items[..n + 1] == items && assign[..n] + [assign[n]] == assign;
          BucketsStep(items, assign[..n], assign[n], m, n); }
        multiset(Concat(groups[assign[n] := groups[assign[n]] + [items[n]]]));
        { ConcatUpdate(groups, assign[n], items[n]); }
        multiset(Concat(groups)) + multiset{items[n]};
        { BucketsConserve(items[..n], assign[..n], m); }
        multiset(items[..n]) + multiset{items[n]};
        { assert items == items[..n] + [items[n]]; }
        multiset(items);
      }
    }
  }

  lemma {:induction false} UsedBucket<T>(items: seq<T>, assign: seq<nat>, w: nat)
    requires |items| == |assign|
    ensures Bucket(items, assign, w) != [] <==> Used(assign, w)
  {
    if |items| > 0 {
      var n := |items| - 1;
      UsedBucket(items[..n], assign[..n], w);
      assert assign == assign[..n] + [assign[n]];
    }
  }

  lemma {:induction false} PositiveCountIsSum(costs: seq<real>, v: seq<real>, order: seq<nat>)
    requires InRange(order, |v|) && costs == At(v, order)
    ensures PositiveCount(costs) as real == VectorSum(Signs(v), order)
  {
    if order != [] {
      var n := |order| - 1;
      PositiveCountIsSum(costs[..n], v, order[..n]);
    }
  }

  function Signs(v: seq<real>): (r: seq<real>)
    ensures |r| == |v| && forall i | 0 <= i < |v| :: r[i] == if v[i] > 0.0 then 1.0 else 0.0
  {
    seq(|v|, (i: nat) requires i < |v| => if v[i] > 0.0 then 1.0 else 0.0)
  }

  lemma PositiveCountPermuted(v: seq<real>, order: seq<nat>)
    requires InRange(order, |v|) && multiset(order) == multiset(Upto(|v|))
    ensures PositiveCount(At(v, order)) == PositiveCount(v)
  {
    AtUpto(v);
    PositiveCountIsSum(At(v, order), v, order);
    PositiveCountIsSum(v, v, Upto(|v|));
    VectorSumPermuted(Signs(v), order, Upto(|v|));
  }

  // ----- jobs in scheduling order -----

  /** Job i, for each cost and key. */
  function Jobs(costs: seq<real>, keys: seq<string>): (jobs: seq<Job>)
    requires |costs| == |keys|
    ensures |jobs| == |costs| && forall i | 0 <= i < |jobs| :: jobs[i] == Job(costs[i], keys[i], i)
  {
    seq(|costs|, (i: nat) requires i < |costs| => Job(costs[i], keys[i], i))
  }

  /** The indices 0..n-1 sorted by (-cost, key). */
  function ScheduleOrder(costs: seq<real>, keys: seq<string>): (order: seq<nat>)
    requires |costs| == |keys|
    ensures |order| == |costs|
  {
    Indices(Sort(Precedes, Jobs(costs, keys)))
  }

  /** The indices of a list of jobs. */
  function Indices(jobs: seq<Job>): (r: seq<nat>)
    ensures |r| == |jobs| && forall k | 0 <= k < |jobs| :: r[k] == jobs[k].index
  {
    seq(|jobs|, (k: nat) requires k < |jobs| => jobs[k].index)
  }

  lemma IndicesWithout(jobs: seq<Job>, j: nat)
    requires j < |jobs|
    ensures multiset(Indices(jobs)) == multiset(Indices(Without(jobs, j))) + multiset{jobs[j].index}
  {
    var r := Indices(jobs);
    assert Indices(Without(jobs, j)) == Without(r, j);
    assert r[j] in multiset(r);
  }

  lemma {:induction false} IndicesPermuted(a: seq<Job>, b: seq<Job>)
    requires multiset(a) == multiset(b)
    ensures multiset(Indices(a)) == multiset(Indices(b))
  {
    assert |a| == |multiset(a)| == |multiset(b)| == |b|;
    if a == [] {
      assert Indices(a) == Indices(b);
    } else {
      assert a[0] in multiset(b);
      var j :| 0 <= j < |b| && b[j] == a[0];
      var a', b' := Without(a, 0), Without(b, j);
      assert multiset(a') == multiset(b');
      IndicesPermuted(a', b');
      IndicesWithout(a, 0);
      IndicesWithout(b, j);
    }
  }

  /** Every index once, the dearer job first and of equals the one with the smaller key. */
  ghost predicate InScheduleOrder(order: seq<nat>, costs: seq<real>, keys: seq<string>)
    requires |costs| == |keys|
  {
    && multiset(order) == multiset(Upto(|costs|)) && InRange(order, |costs|)
    && forall i, j | 0 <= i < j < |order| ::
      || costs[order[i]] > costs[order[j]]
      || (costs[order[i]] == costs[order[j]] && AtMost(keys[order[i]], keys[order[j]]))
  }

  /** Scheduling order visits every job once, in falling cost. */
  lemma ScheduleOrderFacts(costs: seq<real>, keys: seq<string>)
    requires |costs| == |keys|
    ensures var order := ScheduleOrder(costs, keys);
      && multiset(order) == multiset(Upto(|costs|))
      && InRange(order, |costs|)
      && Falling(At(costs, order)) && InScheduleOrder(order, costs, keys)
  {
    hide Sort, AtMost;
    var jobs := Jobs(costs, keys);
    var sorted := Sort(Precedes, jobs);
    var order := ScheduleOrder(costs, keys);
    JobsTotallyOrdered();
    SortSorts(Precedes, jobs);
    IndicesPermuted(sorted, jobs);
    assert Indices(sorted) == order && Indices(jobs) == Upto(|costs|);
    forall k | 0 <= k < |order| ensures order[k] < |costs| && sorted[k] == jobs[order[k]] {
      assert sorted[k] in multiset(jobs);
    }
    assert forall i, j | 0 <= i < j < |sorted| :: Precedes(sorted[i], sorted[j]);
  }

  // ----- what the scheduler promises about its groups -----

  /** c bounds every cost. */
  ghost predicate Caps(v: seq<real>, c: real)
  {
    c >= 0.0 && forall i | 0 <= i < |v| :: v[i] <= c
  }

  /** No group is more than 4/3 - 1/(3m) of the heaviest worker of any other split, nor
      more than total/m + (1 - 1/m) times the dearest job. */
  ghost predicate Balanced(v: seq<real>, groups: seq<seq<nat>>)
  {
    var m := |groups|;
    && (forall w | 0 <= w < m :: InRange(groups[w], |v|))
    && (forall alt: seq<nat>, t: real | Within(v, alt, m, t) ::
        forall w | 0 <= w < m :: NearBest(m, VectorSum(v, groups[w]), t))
    && (forall c: real | Caps(v, c) ::
        forall w | 0 <= w < m :: NearAverage(m, VectorSum(v, groups[w]), VectorSum(v, Upto(|v|)), c))
  }

  lemma {:induction false} TotalIsSum(v: seq<real>, order: seq<nat>)
    requires InRange(order, |v|)
    ensures Total(At(v, order)) == VectorSum(v, order)
  {
    if order != [] {
      var n := |order| - 1;
      assert At(v, order)[..n] == At(v, order[..n]);
      TotalIsSum(v, order[..n]);
    }
  }

  /** Longest-first groups are balanced. */
  lemma GroupsBalanced(v: seq<real>, order: seq<nat>, m: nat, groups: seq<seq<nat>>)
    requires m > 0 && NonNegative(v) && multiset(order) == multiset(Upto(|v|))
    requires InRange(order, |v|) && Falling(At(v, order))
    requires |groups| == m
    requires forall w | 0 <= w < m :: multiset(groups[w]) == multiset(Bucket(order, GreedyAssign(At(v, order), m), w))
    ensures Balanced(v, groups)
  {
    hide NearBest, NearAverage;
    var costs := At(v, order);
    var assign := GreedyAssign(costs, m);
    forall w | 0 <= w < m
      ensures InRange(groups[w], |v|) && VectorSum(v, groups[w]) == Load(costs, assign, w)
    {
      BucketCost(v, order, assign, w);
      InRangePermuted(Bucket(order, assign, w), groups[w], |v|);
      VectorSumPermuted(v, groups[w], Bucket(order, assign, w));
    }
    forall alt: seq<nat>, t: real, w | Within(v, alt, m, t) && 0 <= w < m
      ensures NearBest(m, VectorSum(v, groups[w]), t)
    {
      WithinPermuted(v, order, alt, m, t);
      LongestFirstBound(costs, m, At(alt, order), t, w);
    }
    forall c: real, w | Caps(v, c) && 0 <= w < m
      ensures NearAverage(m, VectorSum(v, groups[w]), VectorSum(v, Upto(|v|)), c)
    {
      AverageBound(costs, m, c, w);
      TotalIsSum(v, order);
      VectorSumPermuted(v, order, Upto(|v|));
    }
  }

  lemma WithinPermuted(v: seq<real>, order: seq<nat>, alt: seq<nat>, m: nat, t: real)
    requires Within(v, alt, m, t) && multiset(order) == multiset(Upto(|v|))
    requires InRange(order, |v|)
    ensures Within(At(v, order), At(alt, order), m, t)
  {
    forall w: nat | w < m ensures Load(At(v, order), At(alt, order), w) <= t {
      LoadPermuted(v, alt, w, order);
      assert Load(v, alt, w) <= t;
    }
  }
}
