/**
 * Sequence vocabulary shared by the pipeline stages: the distinct values of
 * a sequence in first-occurrence order (what an insertion-ordered `dict` or
 * `Counter` keeps as keys), filtering, sums and extrema.
 */
module Collections {
  import opened Wrappers

  predicate NoDuplicates<T(==)>(s: seq<T>) {
    forall i, j :: 0 <= i < j < |s| ==> s[i] != s[j]
  }

  lemma NoDuplicatesCons<T>(x: T, s: seq<T>)
    requires x !in s && NoDuplicates(s)
    ensures NoDuplicates([x] + s)
  {
    forall i, j | 0 <= i < j < |[x] + s|
      ensures ([x] + s)[i] != ([x] + s)[j]
    {
      assert ([x] + s)[j] == s[j - 1];
      if i > 0 {
        assert ([x] + s)[i] == s[i - 1];
      }
    }
  }

  function Elements<T>(s: seq<T>): set<T> {
    set x | x in s
  }

  /** The first components of a sequence of pairs: the keys of `(key, value)` items. */
  function Firsts<A, B>(ps: seq<(A, B)>): (r: seq<A>)
    ensures |r| == |ps|
    ensures forall k :: 0 <= k < |ps| ==> r[k] == ps[k].0
  {
    seq(|ps|, k requires 0 <= k < |ps| => ps[k].0)
  }

  /** The position where `x` first occurs in `s`. */
  function FirstIndex<T(==)>(s: seq<T>, x: T): (r: nat)
    requires x in s
    ensures r < |s| && s[r] == x
    ensures forall k :: 0 <= k < r ==> s[k] != x
  {
    if s[0] == x then 0 else 1 + FirstIndex(s[1..], x)
  }

  /** The distinct values of `s`, each where it first occurs. */
  function Distinct<T(==,!new)>(s: seq<T>): (r: seq<T>)
    ensures NoDuplicates(r)
    ensures forall x :: x in r <==> x in s
    decreases |s|
  {
    if |s| == 0 then []
    else
      var prev := Distinct(s[..|s| - 1]);
      var x := s[|s| - 1];
      assert forall y :: y in s <==> y in s[..|s| - 1] || y == x by {
        assert s == s[..|s| - 1] + [x];
      }
      if x in prev then prev else prev + [x]
  }

  lemma DistinctSnoc<T(!new)>(s: seq<T>, x: T)
    ensures Distinct(s + [x]) == if x in s then Distinct(s) else Distinct(s) + [x]
  {
    assert (s + [x])[..|s|] == s;
  }

  /** `Distinct` lists the values in the order of their first occurrences. */
  lemma {:induction false} DistinctInFirstOccurrenceOrder<T(!new)>(s: seq<T>)
    ensures var d := Distinct(s);
      forall i, j :: 0 <= i < j < |d| ==> FirstIndex(s, d[i]) < FirstIndex(s, d[j])
    decreases |s|
  {
    if |s| > 0 {
      var p := s[..|s| - 1];
      var x := s[|s| - 1];
      assert s == p + [x];
      DistinctInFirstOccurrenceOrder(p);
      DistinctSnoc(p, x);
      var dp := Distinct(p);
      var d := Distinct(s);
      forall i, j | 0 <= i < j < |d|
        ensures FirstIndex(s, d[i]) < FirstIndex(s, d[j])
      {
        assert d[i] == dp[i] && dp[i] in p;
        FirstIndexPrefix(p, [x], d[i]);
        if j < |dp| {
          assert d[j] == dp[j] && dp[j] in p;
          FirstIndexPrefix(p, [x], d[j]);
        } else {
          FirstIndexOfNew(p, x);
        }
      }
    }
  }

  /** A value new to `p` first occurs in `p + [x]` at the end. */
  lemma FirstIndexOfNew<T>(p: seq<T>, x: T)
    requires x !in p
    ensures FirstIndex(p + [x], x) == |p|
  {
    forall k | 0 <= k < |p|
      ensures (p + [x])[k] != x
    {
      assert (p + [x])[k] == p[k];
    }
  }

  lemma {:induction false} FirstIndexPrefix<T>(p: seq<T>, q: seq<T>, y: T)
    requires y in p
    ensures FirstIndex(p + q, y) == FirstIndex(p, y)
    decreases |p|
  {
    if p[0] != y {
      assert (p + q)[1..] == p[1..] + q;
      FirstIndexPrefix(p[1..], q, y);
    }
  }

  /** A sequence without repetitions has as many elements as its set. */
  lemma {:induction false} NoDuplicatesCardinality<T>(s: seq<T>)
    requires NoDuplicates(s)
    ensures |Elements(s)| == |s|
    decreases |s|
  {
    if |s| > 0 {
      var p := s[..|s| - 1];
      NoDuplicatesCardinality(p);
      assert Elements(s) == Elements(p) + {s[|s| - 1]};
      assert s[|s| - 1] !in Elements(p);
    }
  }

  /** There are as many distinct values as the set of values has members. */
  lemma DistinctCardinality<T(!new)>(s: seq<T>)
    ensures |Distinct(s)| == |Elements(s)|
  {
    NoDuplicatesCardinality(Distinct(s));
    assert Elements(Distinct(s)) == Elements(s);
  }

  /** A sequence without repetitions is its own distinct values. */
  lemma {:induction false} DistinctOfNoDuplicates<T(!new)>(s: seq<T>)
    requires NoDuplicates(s)
    ensures Distinct(s) == s
    decreases |s|
  {
    if |s| > 0 {
      var p := s[..|s| - 1];
      DistinctOfNoDuplicates(p);
      assert s == p + [s[|s| - 1]];
    }
  }

  /** The elements satisfying `keep`, in their original order (a list comprehension with an `if`). */
  function Filter<T(!new)>(s: seq<T>, keep: T -> bool): (r: seq<T>)
    ensures |r| <= |s|
    ensures forall x :: x in r <==> x in s && keep(x)
    ensures forall x :: keep(x) ==> multiset(r)[x] == multiset(s)[x]
    decreases |s|
  {
    if |s| == 0 then []
    else
      assert s == [s[0]] + s[1..];
      (if keep(s[0]) then [s[0]] else []) + Filter(s[1..], keep)
  }

  /**
   * The results `f` gives for the elements it accepts, in order (a loop
   * that skips some elements and appends a record for the others).
   */
  function FilterMap<A, B(!new)>(s: seq<A>, f: A -> Option<B>): (r: seq<B>)
    ensures |r| <= |s|
    ensures forall y :: y in r <==> exists j :: 0 <= j < |s| && f(s[j]) == Some(y)
    decreases |s|
  {
    if |s| == 0 then []
    else
      var rest := FilterMap(s[1..], f);
      assert forall j :: 1 <= j < |s| ==> s[j] == s[1..][j - 1];
      assert forall j :: 0 <= j < |s[1..]| ==> s[1..][j] == s[j + 1];
      match f(s[0])
      case None => rest
      case Some(y) => [y] + rest
  }

  /** Filtering one more element appends its result, if `f` accepts it. */
  lemma {:induction false} FilterMapSnoc<A, B(!new)>(s: seq<A>, x: A, f: A -> Option<B>)
    ensures FilterMap(s + [x], f) == FilterMap(s, f) + (if f(x).Some? then [f(x).value] else [])
    decreases |s|
  {
    if |s| == 0 {
      assert s + [x] == [x];
      assert [x][1..] == [];
    } else {
      assert (s + [x])[0] == s[0];
      assert (s + [x])[1..] == s[1..] + [x];
      FilterMapSnoc(s[1..], x, f);
    }
  }

  /** `s[:n]` with Python's meaning for a negative bound: all but the last `-n` elements. */
  function SliceTo<T>(s: seq<T>, n: int): (r: seq<T>)
    ensures r <= s
    ensures 0 <= n ==> |r| == (if n < |s| then n else |s|)
    ensures n < 0 ==> |r| == (if |s| + n < 0 then 0 else |s| + n)
  {
    if 0 <= n then (if n < |s| then s[..n] else s)
    else if |s| + n < 0 then []
    else s[..|s| + n]
  }

  function Sum(s: seq<real>): real
    decreases |s|
  {
    if |s| == 0 then 0.0 else s[0] + Sum(s[1..])
  }

  /** A sum of values each within [lo, hi] lies within [n * lo, n * hi]. */
  lemma {:induction false} SumBounds(s: seq<real>, lo: real, hi: real)
    requires forall i :: 0 <= i < |s| ==> lo <= s[i] <= hi
    ensures |s| as real * lo <= Sum(s) <= |s| as real * hi
    decreases |s|
  {
    if |s| > 0 {
      SumBounds(s[1..], lo, hi);
    }
  }

  lemma ProductSign(a: real, n: real)
    requires n > 0.0 && a * n >= 0.0
    ensures a >= 0.0
  {
  }

  /** A quotient by a positive number lies between the bounds its dividend has once scaled. */
  lemma QuotientBounds(s: real, n: real, lo: real, hi: real)
    requires n > 0.0
    requires lo * n <= s <= hi * n
    ensures lo <= s / n <= hi
  {
    var q := s / n;
    assert q * n == s;
    assert (q - lo) * n == s - lo * n;
    assert (hi - q) * n == hi * n - s;
    ProductSign(q - lo, n);
    ProductSign(hi - q, n);
  }

  /** The least element (`min` over a non-empty list). */
  function Min(s: seq<int>): (r: int)
    requires |s| > 0
    ensures r in s
    ensures forall i :: 0 <= i < |s| ==> r <= s[i]
  {
    if |s| == 1 then s[0]
    else
      var m := Min(s[1..]);
      assert forall i :: 1 <= i < |s| ==> s[i] == s[1..][i - 1];
      if s[0] <= m then s[0] else m
  }

  /** The greatest element (`max` over a non-empty list). */
  function Max(s: seq<int>): (r: int)
    requires |s| > 0
    ensures r in s
    ensures forall i :: 0 <= i < |s| ==> s[i] <= r
  {
    if |s| == 1 then s[0]
    else
      var m := Max(s[1..]);
      assert forall i :: 1 <= i < |s| ==> s[i] == s[1..][i - 1];
      if s[0] >= m then s[0] else m
  }
}
