/**
 * Sorting by a strict order. Python's `sorted` is stable; the model gets the
 * same result by sorting elements that carry their original position (or
 * another tie-breaker), which makes the order strict on the elements sorted.
 * A strictly sorted permutation is unique, so any correct sort gives it.
 */
module Sorting {

  /** `lt` is irreflexive and transitive. */
  ghost predicate StrictOrder<T(!new)>(lt: (T, T) -> bool) {
    && (forall a :: !lt(a, a))
    && (forall a, b, c :: lt(a, b) && lt(b, c) ==> lt(a, c))
  }

  /** Any two elements at different positions of `s` are ordered one way or the other. */
  ghost predicate Comparable<T>(lt: (T, T) -> bool, s: seq<T>) {
    forall i, j :: 0 <= i < |s| && 0 <= j < |s| && i != j ==> lt(s[i], s[j]) || lt(s[j], s[i])
  }

  ghost predicate Sorted<T>(lt: (T, T) -> bool, s: seq<T>) {
    forall i, j :: 0 <= i < j < |s| ==> lt(s[i], s[j])
  }

  /** Places `x` in front of the first element it precedes. */
  function Insert<T>(x: T, s: seq<T>, lt: (T, T) -> bool): (r: seq<T>)
    ensures multiset(r) == multiset(s) + multiset{x}
  {
    if |s| == 0 then [x]
    else if lt(x, s[0]) then [x] + s
    else
      assert s == [s[0]] + s[1..];
      [s[0]] + Insert(x, s[1..], lt)
  }

  /** Insertion sort. */
  function SortBy<T>(s: seq<T>, lt: (T, T) -> bool): (r: seq<T>)
    ensures multiset(r) == multiset(s)
  {
    if |s| == 0 then []
    else
      assert s == [s[0]] + s[1..];
      Insert(s[0], SortBy(s[1..], lt), lt)
  }

  lemma {:induction false} InsertSorted<T(!new)>(x: T, s: seq<T>, lt: (T, T) -> bool)
    requires StrictOrder(lt)
    requires Sorted(lt, s)
    requires forall k :: 0 <= k < |s| ==> lt(x, s[k]) || lt(s[k], x)
    ensures Sorted(lt, Insert(x, s, lt))
    decreases |s|
  {
    if |s| == 0 {
    } else if lt(x, s[0]) {
      forall k | 0 <= k < |s|
        ensures lt(x, s[k])
      {
        if k > 0 {
          assert lt(s[0], s[k]);
        }
      }
      SortedCons(x, s, lt);
    } else {
      var rest := s[1..];
      var tail := Insert(x, rest, lt);
      assert Sorted(lt, rest) && forall k :: 0 <= k < |rest| ==> lt(x, rest[k]) || lt(rest[k], x) by {
        assert forall k :: 0 <= k < |rest| ==> rest[k] == s[k + 1];
      }
      InsertSorted(x, rest, lt);
      forall k | 0 <= k < |tail|
        ensures lt(s[0], tail[k])
      {
        assert tail[k] in multiset(tail);
        assert tail[k] in multiset(rest) || tail[k] == x;
        if tail[k] != x {
          var m :| 0 <= m < |rest| && rest[m] == tail[k];
          assert rest[m] == s[m + 1];
        }
      }
      SortedCons(s[0], tail, lt);
    }
  }

  /** An element below every element of a sorted sequence can go in front. */
  lemma SortedCons<T>(x: T, s: seq<T>, lt: (T, T) -> bool)
    requires Sorted(lt, s)
    requires forall k :: 0 <= k < |s| ==> lt(x, s[k])
    ensures Sorted(lt, [x] + s)
  {
    forall i, j | 0 <= i < j < |s| + 1
      ensures lt(([x] + s)[i], ([x] + s)[j])
    {
      assert ([x] + s)[j] == s[j - 1];
      if i > 0 {
        assert ([x] + s)[i] == s[i - 1];
      }
    }
  }

  /** Sorting elements that are pairwise comparable yields a strictly sorted sequence. */
  lemma {:induction false} SortBySorted<T(!new)>(s: seq<T>, lt: (T, T) -> bool)
    requires StrictOrder(lt)
    requires Comparable(lt, s)
    ensures Sorted(lt, SortBy(s, lt))
    decreases |s|
  {
    if |s| > 0 {
      var rest := SortBy(s[1..], lt);
      assert Comparable(lt, s[1..]) by {
        forall i, j | 0 <= i < |s| - 1 && 0 <= j < |s| - 1 && i != j
          ensures lt(s[1..][i], s[1..][j]) || lt(s[1..][j], s[1..][i])
        {
          assert s[1..][i] == s[i + 1] && s[1..][j] == s[j + 1];
        }
      }
      SortBySorted(s[1..], lt);
      forall k | 0 <= k < |rest|
        ensures lt(s[0], rest[k]) || lt(rest[k], s[0])
      {
        assert rest[k] in multiset(s[1..]);
        var m :| 0 <= m < |s| - 1 && s[1..][m] == rest[k];
        assert s[m + 1] == rest[k];
      }
      InsertSorted(s[0], rest, lt);
    }
  }

  /** Two strictly sorted sequences with the same elements are equal. */
  lemma {:induction false} SortedUnique<T(!new)>(a: seq<T>, b: seq<T>, lt: (T, T) -> bool)
    requires StrictOrder(lt)
    requires Sorted(lt, a) && Sorted(lt, b)
    requires multiset(a) == multiset(b)
    ensures a == b
    decreases |a|
  {
    assert |a| == |multiset(a)| == |multiset(b)| == |b|;
    if |a| > 0 {
      assert a[0] in multiset(b) && b[0] in multiset(a);
      SortedFirstLeast(b, a[0], lt);
      SortedFirstLeast(a, b[0], lt);
      assert a[0] == b[0];
      assert a == [a[0]] + a[1..];
      assert b == [b[0]] + b[1..];
      assert multiset(a[1..]) == multiset(a) - multiset{a[0]};
      assert multiset(b[1..]) == multiset(b) - multiset{b[0]};
      SortedTail(a, lt);
      SortedTail(b, lt);
      SortedUnique(a[1..], b[1..], lt);
    }
  }

  /** The first element of a sorted sequence precedes every other element. */
  lemma SortedFirstLeast<T>(s: seq<T>, x: T, lt: (T, T) -> bool)
    requires Sorted(lt, s) && x in s
    ensures x == s[0] || lt(s[0], x)
  {
    var i :| 0 <= i < |s| && s[i] == x;
    if i > 0 {
      assert lt(s[0], s[i]);
    }
  }

  lemma SortedTail<T>(s: seq<T>, lt: (T, T) -> bool)
    requires Sorted(lt, s) && |s| > 0
    ensures Sorted(lt, s[1..])
  {
    assert forall k :: 0 <= k < |s| - 1 ==> s[1..][k] == s[k + 1];
  }

  /** The indices `0 .. n-1` in ascending order. */
  function Range(n: nat): (r: seq<int>)
    ensures |r| == n
    ensures forall i :: 0 <= i < n ==> r[i] == i
  {
    seq(n, i => i)
  }

  /** `lt` orders any two distinct indices below `n`. */
  ghost predicate TotalBelow(lt: (int, int) -> bool, n: nat) {
    forall i, j :: 0 <= i < n && 0 <= j < n && i != j ==> lt(i, j) || lt(j, i)
  }

  /** The indices `0 .. n-1` arranged by `lt`. */
  function SortIndices(n: nat, lt: (int, int) -> bool): (r: seq<int>)
    requires StrictOrder(lt)
    requires TotalBelow(lt, n)
    ensures |r| == n
    ensures forall k :: 0 <= k < n ==> 0 <= r[k] < n
    ensures forall x :: 0 <= x < n ==> x in r
    ensures Sorted(lt, r)
  {
    var r := SortBy(Range(n), lt);
    assert multiset(r) == multiset(Range(n));
    assert |r| == n by {
      assert |multiset(r)| == |multiset(Range(n))|;
    }
    assert Comparable(lt, Range(n));
    SortBySorted(Range(n), lt);
    assert forall k :: 0 <= k < n ==> 0 <= r[k] < n by {
      forall k | 0 <= k < n
        ensures 0 <= r[k] < n
      {
        assert r[k] in multiset(Range(n));
      }
    }
    assert forall x :: 0 <= x < n ==> x in r by {
      forall x | 0 <= x < n
        ensures x in r
      {
        assert Range(n)[x] == x;
        assert x in multiset(r);
      }
    }
    r
  }

  /**
   * The first `k` indices by `lt`: each chosen index precedes every later
   * chosen one and every index left out, and an index is left out only when
   * `k` were chosen.
   */
  function TopIndices(n: nat, k: nat, lt: (int, int) -> bool): (r: seq<int>)
    requires StrictOrder(lt)
    requires TotalBelow(lt, n)
    ensures |r| == if k < n then k else n
    ensures forall a :: 0 <= a < |r| ==> 0 <= r[a] < n
    ensures Sorted(lt, r)
    ensures forall x, a :: 0 <= x < n && x !in r && 0 <= a < |r| ==> lt(r[a], x)
    ensures forall x :: 0 <= x < n && x !in r ==> |r| == k
  {
    var all := SortIndices(n, lt);
    var r := if k < n then all[..k] else all;
    assert forall x, a :: 0 <= x < n && x !in r && 0 <= a < |r| ==> lt(r[a], x) by {
      forall x, a | 0 <= x < n && x !in r && 0 <= a < |r|
        ensures lt(r[a], x)
      {
        assert x in all;
        var p :| 0 <= p < |all| && all[p] == x;
        assert p >= |r|;
        assert all[a] == r[a];
      }
    }
    r
  }
}
