/** The two LINQ operators the queries are built from: `Where` (a filter that keeps order)
    and `OrderBy` (a sort by a comparison), over sequences. */
module Seqs {

  /** `before` is a total preorder, the kind of comparison an ORDER BY key induces. */
  ghost predicate TotalPreorder<T(!new)>(before: (T, T) -> bool) {
    (forall a, b :: before(a, b) || before(b, a)) &&
    (forall a, b, c :: before(a, b) && before(b, c) ==> before(a, c))
  }

  ghost predicate Sorted<T(!new)>(s: seq<T>, before: (T, T) -> bool) {
    forall i, j :: 0 <= i < j < |s| ==> before(s[i], s[j])
  }

  /** `Where(keep)`: each value is kept with its multiplicity exactly when `keep` holds of it. */
  function Filter<T(!new)>(s: seq<T>, keep: T -> bool): (r: seq<T>)
    ensures |r| <= |s|
    ensures forall x :: multiset(r)[x] == if keep(x) then multiset(s)[x] else 0
  {
    if s == [] then []
    else
      assert s == [s[0]] + s[1..];
      (if keep(s[0]) then [s[0]] else []) + Filter(s[1..], keep)
  }

  lemma {:induction false} FilterKeepsOrder<T(!new)>(s: seq<T>, keep: T -> bool, before: (T, T) -> bool)
    requires Sorted(s, before)
    ensures Sorted(Filter(s, keep), before)
  {
    if s != [] {
      var tail := Filter(s[1..], keep);
      FilterKeepsOrder(s[1..], keep, before);
      if keep(s[0]) {
        FilterKeepsBound(s[0], s[1..], keep, before);
        var r := [s[0]] + tail;
        forall i, j | 0 <= i < j < |r|
          ensures before(r[i], r[j])
        {
          if i == 0 {
            assert r[j] == tail[j - 1];
          } else {
            assert r[i] == tail[i - 1] && r[j] == tail[j - 1];
          }
        }
      }
    }
  }

  /** What every element of `s` comes after, every kept element does too. */
  lemma {:induction false} FilterKeepsBound<T(!new)>(a: T, s: seq<T>, keep: T -> bool, before: (T, T) -> bool)
    requires forall i :: 0 <= i < |s| ==> before(a, s[i])
    ensures forall j :: 0 <= j < |Filter(s, keep)| ==> before(a, Filter(s, keep)[j])
  {
    if s != [] {
      FilterKeepsBound(a, s[1..], keep, before);
      var head := if keep(s[0]) then [s[0]] else [];
      var tail := Filter(s[1..], keep);
      forall j | 0 <= j < |head + tail|
        ensures before(a, (head + tail)[j])
      {
        if j >= |head| {
          assert (head + tail)[j] == tail[j - |head|];
        }
      }
    }
  }

  /** Inserts `x` before the first element it may precede. */
  function Insert<T(!new)>(x: T, s: seq<T>, before: (T, T) -> bool): (r: seq<T>)
    ensures multiset(r) == multiset(s) + multiset{x}
  {
    if s == [] then [x]
    else if before(x, s[0]) then [x] + s
    else
      assert s == [s[0]] + s[1..];
      [s[0]] + Insert(x, s[1..], before)
  }

  lemma {:induction false} InsertKeepsOrder<T(!new)>(x: T, s: seq<T>, before: (T, T) -> bool)
    requires TotalPreorder(before) && Sorted(s, before)
    ensures Sorted(Insert(x, s, before), before)
  {
    if s != [] && !before(x, s[0]) {
      var tail := Insert(x, s[1..], before);
      InsertKeepsOrder(x, s[1..], before);
      var r := [s[0]] + tail;
      forall j | 0 < j < |r|
        ensures before(r[0], r[j])
      {
        assert r[j] in multiset(tail);
        if r[j] != x {
          assert r[j] in multiset(s[1..]);
          var k :| 0 <= k < |s[1..]| && s[1..][k] == r[j];
          assert s[k + 1] == r[j];
        }
      }
    }
  }

  /** `OrderBy`: a sorted permutation of `s`. */
  function SortBy<T(!new)>(s: seq<T>, before: (T, T) -> bool): (r: seq<T>)
    requires TotalPreorder(before)
    ensures Sorted(r, before)
    ensures multiset(r) == multiset(s)
  {
    if s == [] then []
    else
      assert s == [s[0]] + s[1..];
      InsertKeepsOrder(s[0], SortBy(s[1..], before), before);
      Insert(s[0], SortBy(s[1..], before), before)
  }
}
