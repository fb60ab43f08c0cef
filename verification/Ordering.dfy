/** The orders behind the scripts' calls of sorted(): strings by code point, and
    scheduling jobs by falling cost and then by key. */
module Ordering {

  /** Python's <= on strings. */
  predicate AtMost(a: string, b: string)
  {
    a == "" || (b != "" && (a[0] < b[0] || (a[0] == b[0] && AtMost(a[1..], b[1..]))))
  }

  /** The first characters that differ decide, or the shorter text is its beginning. */
  lemma {:induction false} AtMostExactly(a: string, b: string)
    ensures AtMost(a, b) <==>
      a <= b || exists i | 0 <= i < |a| && i < |b| :: a[..i] == b[..i] && a[i] < b[i]
  {
    if a != "" && b != "" && a[0] == b[0] {
      AtMostExactly(a[1..], b[1..]);
      if a[1..] <= b[1..] { assert a <= b; }
      if a <= b { assert a[1..] <= b[1..]; }
      if i: nat :| i < |a| && i < |b| && a[..i] == b[..i] && a[i] < b[i] {
        assert a[1..][..i - 1] == a[..i][1..] && b[1..][..i - 1] == b[..i][1..];
      }
      if i: nat :| i < |a[1..]| && i < |b[1..]| && a[1..][..i] == b[1..][..i] && a[1..][i] < b[1..][i] {
        assert a[..i + 1] == [a[0]] + a[1..][..i] && b[..i + 1] == [b[0]] + b[1..][..i];
      }
    } else if a != "" && b != "" {
      assert forall i | 0 < i < |a| :: a[..i][0] == a[0];
      assert forall i | 0 < i < |b| :: b[..i][0] == b[0];
      assert a[..0] == b[..0];
    }
  }

  lemma {:induction false} AtMostTotal(a: string, b: string)
    ensures AtMost(a, b) || AtMost(b, a)
  {
    if a != "" && b != "" { AtMostTotal(a[1..], b[1..]); }
  }

  lemma {:induction false} AtMostTransitive(a: string, b: string, c: string)
    requires AtMost(a, b) && AtMost(b, c)
    ensures AtMost(a, c)
  {
    if a != "" && a[0] == b[0] == c[0] { AtMostTransitive(a[1..], b[1..], c[1..]); }
  }

  lemma {:induction false} AtMostAntisymmetric(a: string, b: string)
    requires AtMost(a, b) && AtMost(b, a)
    ensures a == b
  {
    if a != "" {
      AtMostAntisymmetric(a[1..], b[1..]);
      assert a == [a[0]] + a[1..] && b == [b[0]] + b[1..];
    }
  }

  /** A scheduling job: its weight, its tie-breaking key, and what it stands for. */
  datatype Job = Job(cost: real, key: string, index: nat)

  /** The sort key (-cost, key). */
  predicate Precedes(a: Job, b: Job)
  {
    a.cost > b.cost || (a.cost == b.cost && AtMost(a.key, b.key))
  }

  ghost predicate TotalOrder<T(!new)>(le: (T, T) -> bool)
  {
    && (forall a, b :: le(a, b) || le(b, a))
    && (forall a, b, c :: le(a, b) && le(b, c) ==> le(a, c))
  }

  ghost predicate SortedBy<T>(le: (T, T) -> bool, s: seq<T>)
  {
    forall i, j | 0 <= i < j < |s| :: le(s[i], s[j])
  }

  function Insert<T>(le: (T, T) -> bool, x: T, s: seq<T>): (r: seq<T>)
    ensures multiset(r) == multiset(s) + multiset{x}
  {
    if s == [] then [x]
    else if le(x, s[0]) then [x] + s
    else
      assert s == [s[0]] + s[1..];
      [s[0]] + Insert(le, x, s[1..])
  }

  /** sorted(s): stable insertion, last element first. */
  function Sort<T>(le: (T, T) -> bool, s: seq<T>): (r: seq<T>)
    ensures multiset(r) == multiset(s)
    ensures |r| == |s|
  {
    if s == [] then []
    else
      assert s == [s[0]] + s[1..];
      var r := Insert(le, s[0], Sort(le, s[1..]));
      assert |multiset(r)| == |multiset(s)|;
      r
  }

  lemma {:induction false} InsertKeepsSorted<T(!new)>(le: (T, T) -> bool, x: T, s: seq<T>)
    requires TotalOrder(le) && SortedBy(le, s)
    ensures SortedBy(le, Insert(le, x, s))
  {
    if s != [] && !le(x, s[0]) {
      InsertKeepsSorted(le, x, s[1..]);
      var r := Insert(le, x, s[1..]);
      forall k | 0 <= k < |r| ensures le(s[0], r[k]) {
        assert r[k] in multiset(s[1..]) + multiset{x};
        if r[k] in s[1..] {
          var i :| 0 <= i < |s[1..]| && s[1..][i] == r[k];
          assert s[i + 1] == r[k];
        }
      }
    }
  }

  lemma {:induction false} SortSorts<T(!new)>(le: (T, T) -> bool, s: seq<T>)
    requires TotalOrder(le)
    ensures SortedBy(le, Sort(le, s))
  {
    if s != [] {
      SortSorts(le, s[1..]);
      InsertKeepsSorted(le, s[0], Sort(le, s[1..]));
    }
  }

  /** Elements that tie under the order are equal. */
  ghost predicate TiesEqual<T>(le: (T, T) -> bool, s: seq<T>)
  {
    forall i, j | 0 <= i < |s| && 0 <= j < |s| :: le(s[i], s[j]) && le(s[j], s[i]) ==> s[i] == s[j]
  }

  lemma LeastFirst<T>(le: (T, T) -> bool, s: seq<T>, t: seq<T>)
    requires s != [] && t != [] && SortedBy(le, s) && t[0] in multiset(s)
    ensures le(s[0], t[0]) || s[0] == t[0]
  {
    var i :| 0 <= i < |s| && s[i] == t[0];
  }

  lemma RestOf<T>(s: seq<T>)
    requires s != []
    ensures multiset(s[1..]) == multiset(s) - multiset{s[0]}
  {
    assert s == [s[0]] + s[1..];
  }

  lemma RestsAgree<T>(s: seq<T>, t: seq<T>)
    requires s != [] && t != [] && s[0] == t[0] && multiset(s) == multiset(t)
    ensures multiset(s[1..]) == multiset(t[1..])
  {
    RestOf(s);
    RestOf(t);
  }

  lemma SameFirst<T(!new)>(le: (T, T) -> bool, s: seq<T>, t: seq<T>)
    requires SortedBy(le, s) && SortedBy(le, t) && multiset(s) == multiset(t) && TiesEqual(le, s) && s != [] && t != []
    ensures s[0] == t[0]
  {
    assert s[0] in multiset(t) && t[0] in multiset(s);
    LeastFirst(le, s, t);
    LeastFirst(le, t, s);
    var i :| 0 <= i < |s| && s[i] == t[0];
    assert le(s[0], s[i]) && le(s[i], s[0]) ==> s[0] == s[i];
  }

  /** Two sorted arrangements of the same elements agree, when ties are equal elements. */
  lemma {:induction false} SortedUnique<T(!new)>(le: (T, T) -> bool, s: seq<T>, t: seq<T>)
    requires SortedBy(le, s) && SortedBy(le, t) && multiset(s) == multiset(t) && TiesEqual(le, s)
    ensures s == t
  {
    hide SortedBy, TiesEqual;
    SameLength(s, t);
    if s != [] {
      SameFirst(le, s, t);
      RestsAgree(s, t);
      RestSorted(le, s);
      RestSorted(le, t);
      RestTies(le, s);
      SortedUnique(le, s[1..], t[1..]);
      assert s == [s[0]] + s[1..] && t == [t[0]] + t[1..];
    }
  }

  lemma SameLength<T>(s: seq<T>, t: seq<T>)
    requires multiset(s) == multiset(t)
    ensures |s| == |t|
  {
    assert |s| == |multiset(s)| == |multiset(t)| == |t|;
  }

  lemma RestSorted<T>(le: (T, T) -> bool, s: seq<T>)
    requires SortedBy(le, s) && s != []
    ensures SortedBy(le, s[1..])
  {
    forall i, j | 0 <= i < j < |s[1..]| ensures le(s[1..][i], s[1..][j]) { assert le(s[i + 1], s[j + 1]); }
  }

  lemma RestTies<T>(le: (T, T) -> bool, s: seq<T>)
    requires TiesEqual(le, s) && s != []
    ensures TiesEqual(le, s[1..])
  {
    forall i, j | 0 <= i < |s[1..]| && 0 <= j < |s[1..]| && le(s[1..][i], s[1..][j]) && le(s[1..][j], s[1..][i])
      ensures s[1..][i] == s[1..][j]
    {
      assert s[1..][i] == s[i + 1] && s[1..][j] == s[j + 1];
    }
  }

  lemma StringsTotallyOrdered()
    ensures TotalOrder(AtMost)
  {
    forall a: string, b: string ensures AtMost(a, b) || AtMost(b, a) { AtMostTotal(a, b); }
    forall a: string, b: string, c: string | AtMost(a, b) && AtMost(b, c) ensures AtMost(a, c) {
      AtMostTransitive(a, b, c);
    }
  }

  lemma JobsTotallyOrdered()
    ensures TotalOrder(Precedes)
  {
    forall a: Job, b: Job ensures Precedes(a, b) || Precedes(b, a) { AtMostTotal(a.key, b.key); }
    forall a: Job, b: Job, c: Job | Precedes(a, b) && Precedes(b, c) ensures Precedes(a, c) {
      if a.cost == b.cost == c.cost { AtMostTransitive(a.key, b.key, c.key); }
    }
  }

  /** sorted() of strings does not depend on the order they came in. */
  lemma SortStringsCanonical(s: seq<string>, t: seq<string>)
    requires multiset(s) == multiset(t)
    ensures Sort(AtMost, s) == Sort(AtMost, t)
  {
    StringsTotallyOrdered();
    SortSorts(AtMost, s);
    SortSorts(AtMost, t);
    var r := Sort(AtMost, s);
    forall i, j | 0 <= i < |r| && 0 <= j < |r| && AtMost(r[i], r[j]) && AtMost(r[j], r[i]) ensures r[i] == r[j] {
      AtMostAntisymmetric(r[i], r[j]);
    }
    SortedUnique(AtMost, Sort(AtMost, s), Sort(AtMost, t));
  }
}
