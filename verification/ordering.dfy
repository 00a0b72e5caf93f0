/** Python's `sorted(xs, reverse=True)` for a total order, as a functional
    insertion sort with its specification: the result is in descending
    order and is a permutation of the input. */
module Ordering {
  import opened PyStr

  /** `le` is a total preorder: any two elements compare, and it chains. */
  ghost predicate IsTotalPreorder<T(!new)>(le: (T, T) -> bool) {
    && (forall a, b :: le(a, b) || le(b, a))
    && (forall a, b, c :: le(a, b) && le(b, c) ==> le(a, c))
  }

  /** Every element is at least as large as every later one. */
  ghost predicate SortedDesc<T>(xs: seq<T>, le: (T, T) -> bool) {
    forall i, j :: 0 <= i < j < |xs| ==> le(xs[j], xs[i])
  }

  /** Places `x` before the first element it is at least as large as,
      so that of equal elements the one inserted later comes first. */
  function InsertDesc<T(!new)>(x: T, xs: seq<T>, le: (T, T) -> bool): (r: seq<T>)
    requires IsTotalPreorder(le)
    requires SortedDesc(xs, le)
    ensures SortedDesc(r, le)
    ensures multiset(r) == multiset(xs) + multiset{x}
  {
    if |xs| == 0 then [x]
    else if le(xs[0], x) then
      var r := [x] + xs;
      assert forall j :: 0 < j < |r| ==> le(r[j], x) by {
        forall j | 0 < j < |r| ensures le(r[j], x) {
          if j > 1 {
            assert le(xs[j - 1], xs[0]);
          }
        }
      }
      r
    else
      var rest := InsertDesc(x, xs[1..], le);
      var r := [xs[0]] + rest;
      assert xs == [xs[0]] + xs[1..];
      assert le(x, xs[0]);
      assert forall j :: 0 <= j < |rest| ==> le(rest[j], xs[0]) by {
        forall j | 0 <= j < |rest| ensures le(rest[j], xs[0]) {
          assert rest[j] in multiset(rest);
          assert rest[j] == x || rest[j] in multiset(xs[1..]);
          if rest[j] != x {
            var k :| 0 <= k < |xs[1..]| && xs[1..][k] == rest[j];
            assert le(xs[k + 1], xs[0]);
          }
        }
      }
      r
  }

  /** Python's `sorted(xs, reverse=True)` under the order `le`. */
  function SortDesc<T(!new)>(xs: seq<T>, le: (T, T) -> bool): (r: seq<T>)
    requires IsTotalPreorder(le)
    ensures SortedDesc(r, le)
    ensures multiset(r) == multiset(xs)
    ensures |r| == |xs|
  {
    if |xs| == 0 then []
    else
      assert xs == [xs[0]] + xs[1..];
      var r := InsertDesc(xs[0], SortDesc(xs[1..], le), le);
      assert |r| == |multiset(r)|;
      r
  }

  /** Membership is preserved by sorting, both ways. */
  lemma SortDescMembers<T(!new)>(xs: seq<T>, le: (T, T) -> bool, x: T)
    requires IsTotalPreorder(le)
    ensures x in SortDesc(xs, le) <==> x in xs
  {
    var r := SortDesc(xs, le);
    assert x in r <==> x in multiset(r);
    assert x in xs <==> x in multiset(xs);
  }

  /** The elements of `xs` satisfying `p`, in their original order. */
  function Filter<T(!new)>(xs: seq<T>, p: T -> bool): (r: seq<T>)
    ensures |r| <= |xs|
    ensures forall x :: x in r <==> x in xs && p(x)
  {
    if |xs| == 0 then []
    else
      assert forall x :: x in xs <==> x == xs[0] || x in xs[1..];
      if p(xs[0]) then [xs[0]] + Filter(xs[1..], p) else Filter(xs[1..], p)
  }

  /** Filtering keeps every element satisfying `p` as often as it occurs
      and drops every other one. */
  lemma {:induction false} FilterCounts<T(!new)>(xs: seq<T>, p: T -> bool)
    ensures forall x :: multiset(Filter(xs, p))[x] == if p(x) then multiset(xs)[x] else 0
    decreases |xs|
  {
    if |xs| > 0 {
      FilterCounts(xs[1..], p);
      assert xs == [xs[0]] + xs[1..];
      assert multiset(xs) == multiset{xs[0]} + multiset(xs[1..]);
    }
  }

  /** The values `f` gives for the elements of `xs`, in order, skipping
      the elements for which it gives `None`: a loop that appends only
      what parses. */
  function Collect<S(!new), T(!new)>(xs: seq<S>, f: S -> Option<T>): (r: seq<T>)
    ensures |r| <= |xs|
  {
    if |xs| == 0 then []
    else
      var rest := Collect(xs[1..], f);
      match f(xs[0])
      case Some(y) => [y] + rest
      case None => rest
  }

  /** A value is collected exactly when some element gives it. */
  lemma {:induction false} CollectMembers<S(!new), T(!new)>(xs: seq<S>, f: S -> Option<T>, y: T)
    ensures y in Collect(xs, f) <==> exists x :: x in xs && f(x) == Some(y)
    decreases |xs|
  {
    if |xs| > 0 {
      CollectMembers(xs[1..], f, y);
      if y in Collect(xs, f) && f(xs[0]) != Some(y) {
        var x :| x in xs[1..] && f(x) == Some(y);
        assert x in xs;
      }
      if x :| x in xs && f(x) == Some(y) {
        if x != xs[0] {
          var k :| 0 <= k < |xs| && xs[k] == x;
          assert xs[1..][k - 1] == x;
        }
      }
    }
  }

  /** Nothing is collected when every element gives `None`. */
  lemma {:induction false} CollectNothing<S(!new), T(!new)>(xs: seq<S>, f: S -> Option<T>)
    requires forall i :: 0 <= i < |xs| ==> f(xs[i]).None?
    ensures Collect(xs, f) == []
    decreases |xs|
  {
    if |xs| > 0 {
      CollectNothing(xs[1..], f);
    }
  }

  /** Collecting over two blocks collects each block in turn. */
  lemma {:induction false} CollectAppend<S(!new), T(!new)>(xs: seq<S>, ys: seq<S>, f: S -> Option<T>)
    ensures Collect(xs + ys, f) == Collect(xs, f) + Collect(ys, f)
    decreases |xs|
  {
    if |xs| == 0 {
      assert xs + ys == ys;
    } else {
      CollectAppend(xs[1..], ys, f);
      assert (xs + ys)[1..] == xs[1..] + ys;
    }
  }

  /** Filtering keeps a descending sequence descending. */
  lemma {:induction false} FilterSorted<T(!new)>(xs: seq<T>, p: T -> bool, le: (T, T) -> bool)
    requires SortedDesc(xs, le)
    ensures SortedDesc(Filter(xs, p), le)
    decreases |xs|
  {
    if |xs| > 0 {
      var rest := Filter(xs[1..], p);
      FilterSorted(xs[1..], p, le);
      if p(xs[0]) {
        forall j | 0 <= j < |rest| ensures le(rest[j], xs[0]) {
          assert rest[j] in xs[1..];
          var k :| 0 <= k < |xs[1..]| && xs[1..][k] == rest[j];
          assert xs[k + 1] == rest[j];
        }
        var r := [xs[0]] + rest;
        forall i, j | 0 <= i < j < |r| ensures le(r[j], r[i]) {
          if i > 0 {
            assert r[i] == rest[i - 1] && r[j] == rest[j - 1];
          }
        }
      }
    }
  }
}
