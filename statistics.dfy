/**
 * The NumPy reductions the noise detector is built from, over mathematical
 * reals: the sum, the mean, the population variance (`np.var`, dividing by
 * the count) and the median (`np.median`: the middle of the sorted values,
 * or the mean of the two middle values when their number is even).
 */
module Statistics {

  function Sum(s: seq<real>): real
  {
    if s == [] then 0.0 else s[0] + Sum(s[1..])
  }

  /** The arithmetic mean; the mean of a constant sequence is its value. */
  function Mean(s: seq<real>): (r: real)
    requires |s| > 0
    ensures Constant(s) ==> r == s[0]
  {
    SumOfConstant(s);
    Sum(s) / |s| as real
  }

  lemma SumOfConstant(s: seq<real>)
    requires |s| > 0
    ensures Constant(s) ==> Sum(s) == |s| as real * s[0]
  {
    if Constant(s) {
      SumConstant(s, s[0]);
    }
  }

  /** The sum of the squared deviations of the values from `m`. */
  function SumSquaredDeviations(s: seq<real>, m: real): (r: real)
    ensures r >= 0.0
  {
    if s == [] then 0.0
    else
      SquareNonNegative(s[0] - m);
      (s[0] - m) * (s[0] - m) + SumSquaredDeviations(s[1..], m)
  }

  /** `np.var(s)`: the population variance (divide by the count). */
  function Variance(s: seq<real>): (r: real)
    requires |s| > 0
    ensures r >= 0.0
  {
    SumSquaredDeviations(s, Mean(s)) / |s| as real
  }

  /** All values are equal. */
  predicate Constant(s: seq<real>)
  {
    forall i :: 0 <= i < |s| ==> s[i] == s[0]
  }

  lemma SquareOfPositive(d: real)
    requires d > 0.0
    ensures d * d > 0.0
  {
  }

  lemma SquareOfNegative(d: real)
    requires d < 0.0
    ensures d * d > 0.0
  {
    SquareOfPositive(-d);
    assert (-d) * (-d) == d * d;
  }

  /** A square is never negative. */
  lemma SquareNonNegative(d: real)
    ensures d * d >= 0.0
  {
    if d > 0.0 {
      SquareOfPositive(d);
    } else if d < 0.0 {
      SquareOfNegative(d);
    }
  }

  /** The sum of `n` copies of `c` is `n * c`. */
  lemma {:induction false} SumConstant(s: seq<real>, c: real)
    requires forall i :: 0 <= i < |s| ==> s[i] == c
    ensures Sum(s) == |s| as real * c
  {
    if s != [] {
      SumConstant(s[1..], c);
    }
  }

  /** Deviations from `m` are all zero when every value is `m`. */
  lemma {:induction false} SumSquaredDeviationsOfConstant(s: seq<real>, m: real)
    requires forall i :: 0 <= i < |s| ==> s[i] == m
    ensures SumSquaredDeviations(s, m) == 0.0
  {
    if s != [] {
      SumSquaredDeviationsOfConstant(s[1..], m);
    }
  }

  /** The variance of a constant-valued volume is zero. */
  lemma VarianceOfConstant(s: seq<real>)
    requires |s| > 0 && Constant(s)
    ensures Variance(s) == 0.0
  {
    SumSquaredDeviationsOfConstant(s, s[0]);
  }

  // ---------------------------------------------------------------------
  // Sorting and the median

  predicate Sorted(s: seq<real>)
  {
    forall i, j :: 0 <= i < j < |s| ==> s[i] <= s[j]
  }

  /** Insert `x` into a sorted sequence. */
  function Insert(x: real, s: seq<real>): (r: seq<real>)
    requires Sorted(s)
    ensures Sorted(r)
    ensures multiset(r) == multiset(s) + multiset{x}
  {
    if s == [] then [x]
    else if x <= s[0] then [x] + s
    else
      var t := Insert(x, s[1..]);
      InsertLowerBound(s[0], x, s[1..], t);
      assert s == [s[0]] + s[1..];
      [s[0]] + t
  }

  /** A common lower bound of `x` and of `s` bounds every element of `t`, any arrangement of them. */
  lemma InsertLowerBound(lo: real, x: real, s: seq<real>, t: seq<real>)
    requires lo <= x && forall i :: 0 <= i < |s| ==> lo <= s[i]
    requires multiset(t) == multiset(s) + multiset{x}
    ensures forall k :: 0 <= k < |t| ==> lo <= t[k]
  {
    forall k | 0 <= k < |t|
      ensures lo <= t[k]
    {
      assert t[k] in multiset(t);
      if t[k] != x {
        assert t[k] in multiset(s);
      }
    }
  }

  /** Insertion sort: the sorted permutation of `s`. */
  function Sort(s: seq<real>): (r: seq<real>)
    ensures Sorted(r)
    ensures multiset(r) == multiset(s)
    ensures |r| == |s|
  {
    if s == [] then []
    else
      assert s == [s[0]] + s[1..];
      Insert(s[0], Sort(s[1..]))
  }

  /** `np.median(s)`: it lies between the two middle elements of the sorted values (one element when the count is odd). */
  function Median(s: seq<real>): (r: real)
    requires |s| > 0
    ensures Sort(s)[(|s| - 1) / 2] <= r <= Sort(s)[|s| / 2]
  {
    var t := Sort(s);
    var n := |t|;
    MiddleElements(t);
    if n % 2 == 1 then t[n / 2] else (t[n / 2 - 1] + t[n / 2]) / 2.0
  }

  /** The two middle positions of a sorted sequence: equal for an odd count, adjacent and ordered for an even one. */
  lemma MiddleElements(t: seq<real>)
    requires |t| > 0 && Sorted(t)
    ensures |t| % 2 == 1 ==> (|t| - 1) / 2 == |t| / 2
    ensures |t| % 2 == 0 ==> (|t| - 1) / 2 == |t| / 2 - 1 && t[|t| / 2 - 1] <= t[|t| / 2]
  {
  }

  /** A lower bound of every value bounds the median. */
  lemma MedianAtLeast(s: seq<real>, lo: real)
    requires |s| > 0
    requires forall i :: 0 <= i < |s| ==> lo <= s[i]
    ensures lo <= Median(s)
  {
    var t := Sort(s);
    forall k | 0 <= k < |t|
      ensures lo <= t[k]
    {
      assert t[k] in multiset(s);
    }
  }

  /** An upper bound of every value bounds the median. */
  lemma MedianAtMost(s: seq<real>, hi: real)
    requires |s| > 0
    requires forall i :: 0 <= i < |s| ==> s[i] <= hi
    ensures Median(s) <= hi
  {
    var t := Sort(s);
    forall k | 0 <= k < |t|
      ensures t[k] <= hi
    {
      assert t[k] in multiset(s);
    }
  }

  /** The median of values that are all `c` is `c`. */
  lemma MedianOfConstant(s: seq<real>, c: real)
    requires |s| > 0
    requires forall i :: 0 <= i < |s| ==> s[i] == c
    ensures Median(s) == c
  {
    MedianAtLeast(s, c);
    MedianAtMost(s, c);
  }

  /** The first element of a sorted sequence is its least. */
  lemma SortedHeadIsLeast(a: seq<real>, x: real)
    requires Sorted(a) && x in multiset(a)
    ensures a[0] <= x
  {
    var k :| 0 <= k < |a| && a[k] == x;
  }

  /** Removing the head from both sides of a multiset equation. */
  lemma TailMultiset(a: seq<real>, b: seq<real>)
    requires |a| > 0 && |b| > 0 && a[0] == b[0]
    requires multiset(a) == multiset(b)
    ensures multiset(a[1..]) == multiset(b[1..])
  {
    assert a == [a[0]] + a[1..];
    assert b == [b[0]] + b[1..];
    assert multiset(a) == multiset{a[0]} + multiset(a[1..]);
    assert multiset(b) == multiset{b[0]} + multiset(b[1..]);
    assert multiset(a[1..]) == multiset(a) - multiset{a[0]};
    assert multiset(b[1..]) == multiset(b) - multiset{b[0]};
  }

  /** Two sorted sequences with the same elements are equal. */
  lemma {:induction false} SortedUnique(a: seq<real>, b: seq<real>)
    requires Sorted(a) && Sorted(b)
    requires multiset(a) == multiset(b)
    ensures a == b
  {
    assert |a| == |multiset(a)| == |multiset(b)| == |b|;
    if a != [] {
      assert a[0] in multiset(a) && b[0] in multiset(b);
      SortedHeadIsLeast(a, b[0]);
      SortedHeadIsLeast(b, a[0]);
      TailMultiset(a, b);
      SortedUnique(a[1..], b[1..]);
      assert a == [a[0]] + a[1..] && b == [b[0]] + b[1..];
    }
  }

  /** The median depends only on the values, not on their order. */
  lemma MedianPermutation(s: seq<real>, u: seq<real>)
    requires |s| > 0
    requires multiset(s) == multiset(u)
    ensures |u| > 0 && Median(s) == Median(u)
  {
    assert |multiset(s)| == |s| && |multiset(u)| == |u|;
    SortedUnique(Sort(s), Sort(u));
  }

  /** On sorted values the median is the middle (or the mean of the two middle) values. */
  lemma MedianOfSorted(s: seq<real>)
    requires |s| > 0 && Sorted(s)
    ensures Median(s) == if |s| % 2 == 1 then s[|s| / 2] else (s[|s| / 2 - 1] + s[|s| / 2]) / 2.0
  {
    var t := Sort(s);
    SortedUnique(t, s);
    assert t == s;
  }
}
