/** Facts about sequences that several components need: joining, elements without
    repetition, counting, sums of equal terms, and a largest element. */
module Sequences {

  lemma Associates<T>(a: seq<T>, b: seq<T>, c: seq<T>)
    ensures (a + b) + c == a + (b + c)
  {
  }

  // ----- repetition -----

  predicate NoRepeats<T(==)>(s: seq<T>)
  {
    forall i, j | 0 <= i < j < |s| :: s[i] != s[j]
  }

  lemma TwiceCounts<T>(s: seq<T>, i: nat, j: nat)
    requires i < j < |s| && s[i] == s[j]
    ensures multiset(s)[s[i]] >= 2
  {
    assert s == s[..j] + s[j..];
    assert s[i] in s[..j] && s[j] in s[j..];
    assert multiset(s[..j])[s[i]] >= 1 && multiset(s[j..])[s[i]] >= 1;
  }

  lemma {:induction false} OnceCounts<T>(s: seq<T>, x: T)
    requires NoRepeats(s)
    ensures multiset(s)[x] <= 1
  {
    if s != [] {
      var n := |s| - 1;
      OnceCounts(s[..n], x);
      assert s == s[..n] + [s[n]];
      if x == s[n] { assert x !in s[..n]; }
    }
  }

  /** Any part of a sequence without repetition, in any order, has none. */
  lemma SubNoRepeats<T>(a: seq<T>, b: seq<T>)
    requires multiset(a) <= multiset(b) && NoRepeats(b)
    ensures NoRepeats(a)
  {
    forall i, j | 0 <= i < j < |a| ensures a[i] != a[j] {
      if a[i] == a[j] {
        TwiceCounts(a, i, j);
        OnceCounts(b, a[i]);
      }
    }
  }

  // ----- counting -----

  lemma JoinCounts<T>(a: seq<T>, b: seq<T>, x: T)
    ensures multiset(a + b)[x] == multiset(a)[x] + multiset(b)[x]
  {
  }

  lemma LastCounts<T>(s: seq<T>, x: T)
    requires s != []
    ensures var n := |s| - 1; multiset(s)[x] == multiset(s[..n])[x] + if s[n] == x then 1 else 0
  {
    var n := |s| - 1;
    assert s == s[..n] + [s[n]];
    JoinCounts(s[..n], [s[n]], x);
  }

  lemma SameCounts<T(!new)>(a: seq<T>, b: seq<T>)
    requires forall x :: multiset(a)[x] == multiset(b)[x]
    ensures multiset(a) == multiset(b)
  {
  }

  // ----- sums of equal terms -----

  /** m times x, written as a sum so that no proof needs a product of two variables. */
  function Times(m: nat, x: real): real
  {
    if m == 0 then 0.0 else Times(m - 1, x) + x
  }

  lemma {:induction false} TimesIsProduct(m: nat, x: real)
    ensures Times(m, x) == m as real * x
  {
    if m > 0 {
      TimesIsProduct(m - 1, x);
      assert m as real * x == (m - 1) as real * x + x;
    }
  }

  lemma {:induction false} TimesAdds(m: nat, x: real, y: real)
    ensures Times(m, x + y) == Times(m, x) + Times(m, y)
  {
    if m > 0 { TimesAdds(m - 1, x, y); }
  }

  lemma {:induction false} TimesMonotone(m: nat, x: real, y: real)
    requires x <= y
    ensures Times(m, x) <= Times(m, y)
    ensures m > 0 ==> Times(m, y) - Times(m, x) >= y - x
  {
    if m > 0 { TimesMonotone(m - 1, x, y); }
  }

  lemma {:induction false} TimesGrows(m: nat, n: nat, x: real)
    requires m <= n && x >= 0.0
    ensures Times(m, x) <= Times(n, x)
    decreases n
  {
    if m < n { TimesGrows(m, n - 1, x); }
  }

  lemma {:induction false} TimesZero(m: nat)
    ensures Times(m, 0.0) == 0.0
  {
    if m > 0 { TimesZero(m - 1); }
  }

  // ----- the largest -----

  /** The largest element. */
  function Largest(s: seq<int>): (m: int)
    requires s != []
    ensures m in s && forall i | 0 <= i < |s| :: s[i] <= m
  {
    if |s| == 1 then s[0]
    else
      var m := Largest(s[1..]);
      assert s == [s[0]] + s[1..];
      if s[0] > m then s[0] else m
  }
}
