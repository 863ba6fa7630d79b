/**
 The percentile helper nested in the latency handler: sort the sample, take
 the fractional rank k = (n - 1) * p, and interpolate linearly between the
 values at the closest ranks floor(k) and ceil(k).
 */
module Percentiles {
  import opened Sorting
  import opened Statistics

  /** Smallest integer not below `k`, built from the built-in floor. */
  function Ceil(k: real): (c: int)
    ensures c as real - 1.0 < k <= c as real
    ensures c == k.Floor <==> k == k.Floor as real
  {
    if k.Floor as real == k then k.Floor else k.Floor + 1
  }

  /**
   Value at fractional rank `k` of the sample `s` (indices from 0): the
   element there at an integral rank, otherwise the point on the straight
   line between the two neighbouring elements.
   */
  function Interpolate(s: seq<real>, k: real): (r: real)
    requires |s| > 0
    requires 0.0 <= k <= (|s| - 1) as real
    ensures 0 <= k.Floor <= Ceil(k) <= k.Floor + 1 && Ceil(k) < |s|
    ensures k == k.Floor as real ==> r == s[k.Floor]
  {
    var f := k.Floor;
    var c := Ceil(k);
    if f == c then s[f]
    else
      var d0 := s[f];
      var d1 := s[c];
      d0 + (d1 - d0) * (k - f as real)
  }

  /** Scaling a non-negative amount by a fraction does not make it larger. */
  lemma ScaleByFraction(d: real, t: real)
    requires d >= 0.0
    requires 0.0 <= t <= 1.0
    ensures 0.0 <= d * t <= d
  {
    assert d * (1.0 - t) >= 0.0;
  }

  /** Scaling by a non-negative amount keeps the order of the factors. */
  lemma ScaleMonotone(d: real, t1: real, t2: real)
    requires d >= 0.0
    requires t1 <= t2
    ensures d * t1 <= d * t2
  {
    assert d * (t2 - t1) >= 0.0;
  }

  /** Along a non-decreasing line from a to b, a later point is no lower. */
  lemma LerpMonotone(a: real, b: real, t1: real, t2: real)
    requires a <= b
    requires t1 <= t2
    ensures a + (b - a) * t1 <= a + (b - a) * t2
  {
    ScaleMonotone(b - a, t1, t2);
  }

  /** The interpolation formula s[f] + (s[c] - s[f]) * (k - f) covers the integral case too. */
  lemma InterpolateFormula(s: seq<real>, k: real)
    requires |s| > 0
    requires 0.0 <= k <= (|s| - 1) as real
    ensures Interpolate(s, k) == s[k.Floor] + (s[Ceil(k)] - s[k.Floor]) * (k - k.Floor as real)
  {
    if k.Floor == Ceil(k) {
      assert s[Ceil(k)] - s[k.Floor] == 0.0;
    }
  }

  /** On a sorted sample the interpolated value lies between its two closest ranks. */
  lemma InterpolateBetween(s: seq<real>, k: real)
    requires |s| > 0 && Sorted(s)
    requires 0.0 <= k <= (|s| - 1) as real
    ensures s[k.Floor] <= Interpolate(s, k) <= s[Ceil(k)]
  {
    var f, c := k.Floor, Ceil(k);
    if f != c {
      assert s[f] <= s[c];
      ScaleByFraction(s[c] - s[f], k - f as real);
    }
  }

  /** On a sorted sample, interpolation at a larger rank gives a value no smaller. */
  lemma InterpolateMonotone(s: seq<real>, k1: real, k2: real)
    requires |s| > 0 && Sorted(s)
    requires 0.0 <= k1 <= k2 <= (|s| - 1) as real
    ensures Interpolate(s, k1) <= Interpolate(s, k2)
  {
    var f1, c1, f2, c2 := k1.Floor, Ceil(k1), k2.Floor, Ceil(k2);
    if f1 < f2 {
      InterpolateBetween(s, k1);
      InterpolateBetween(s, k2);
      assert s[c1] <= s[f2];
    } else if c1 == f1 {
      InterpolateBetween(s, k2);
    } else {
      assert f1 == f2 && c1 == c2;
      InterpolateFormula(s, k1);
      InterpolateFormula(s, k2);
      assert s[f1] <= s[c1];
      LerpMonotone(s[f1], s[c1], k1 - f1 as real, k2 - f1 as real);
    }
  }

  /**
   Fractional rank (n - 1) * p of the p-th quantile in an n-element sample;
   a fraction p gives a rank inside the sample.
   */
  function Rank(n: nat, p: real): (k: real)
    requires n > 0
    requires 0.0 <= p <= 1.0
    ensures 0.0 <= k <= (n - 1) as real
  {
    ScaleByFraction((n - 1) as real, p);
    (n - 1) as real * p
  }

  /** A larger fraction gives a rank no smaller. */
  lemma RankMonotone(n: nat, p1: real, p2: real)
    requires n > 0
    requires 0.0 <= p1 <= p2 <= 1.0
    ensures Rank(n, p1) <= Rank(n, p2)
  {
    ScaleMonotone((n - 1) as real, p1, p2);
  }

  /** The first and last element of the sorted sample are its minimum and maximum. */
  lemma SortedEnds(data: seq<real>)
    requires |data| > 0
    ensures Sort(data)[0] == Min(data)
    ensures Sort(data)[|data| - 1] == Max(data)
  {
    var s := Sort(data);
    var lo, hi := Min(data), Max(data);
    assert s[0] in multiset(s) && s[|s| - 1] in multiset(s);
    assert s[0] in data && s[|s| - 1] in data;
    assert lo in multiset(data) && hi in multiset(data);
    assert lo in s && hi in s;
    var i :| 0 <= i < |s| && s[i] == lo;
    var j :| 0 <= j < |s| && s[j] == hi;
    assert s[0] <= s[i] && s[j] <= s[|s| - 1];
  }

  /**
   The p-th quantile (p a fraction) of `data` by linear interpolation between
   closest ranks; 0 for an empty sample. It lies between the smallest and the
   largest value and is the value itself for a one-element sample.
   */
  function Percentile(data: seq<real>, p: real): (r: real)
    requires 0.0 <= p <= 1.0
    ensures |data| == 0 ==> r == 0.0
    ensures |data| > 0 ==> Min(data) <= r <= Max(data)
    ensures |data| == 1 ==> r == data[0]
  {
    if |data| == 0 then 0.0
    else
      SortedEnds(data);
      InterpolateBetween(Sort(data), Rank(|data|, p));
      Interpolate(Sort(data), Rank(|data|, p))
  }

  /** An already sorted sample is interpolated as it stands. */
  lemma PercentileOfSorted(s: seq<real>, p: real)
    requires |s| > 0 && Sorted(s)
    requires 0.0 <= p <= 1.0
    ensures Percentile(s, p) == Interpolate(s, Rank(|s|, p))
  {
    SortIsUnique(s, s);
  }

  /**
   With s the sorted sample and k its rank for p, the closest ranks floor(k)
   and ceil(k) are equal or adjacent indices of s, and the percentile lies
   between the values at those ranks.
   */
  lemma PercentileBetweenClosestRanks(data: seq<real>, p: real)
    requires |data| > 0
    requires 0.0 <= p <= 1.0
    ensures
      var k := Rank(|data|, p);
      0 <= k.Floor <= Ceil(k) <= k.Floor + 1 && Ceil(k) < |data|
    ensures
      var s, k := Sort(data), Rank(|data|, p);
      s[k.Floor] <= Percentile(data, p) <= s[Ceil(k)]
  {
    var s := Sort(data);
    var k := Rank(|data|, p);
    assert Percentile(data, p) == Interpolate(s, k);
    InterpolateBetween(s, k);
  }

  /** Sorting first makes the percentile depend only on the multiset of values. */
  lemma PercentilePermutationInvariant(a: seq<real>, b: seq<real>, p: real)
    requires 0.0 <= p <= 1.0
    requires multiset(a) == multiset(b)
    ensures Percentile(a, p) == Percentile(b, p)
  {
    assert |a| == |multiset(a)| == |multiset(b)| == |b|;
    SortPermutationInvariant(a, b);
  }

  /** The 0th percentile is the minimum and the 100th is the maximum. */
  lemma PercentileExtremes(data: seq<real>)
    requires |data| > 0
    ensures Percentile(data, 0.0) == Min(data)
    ensures Percentile(data, 1.0) == Max(data)
  {
    SortedEnds(data);
  }

  /** A larger fraction never gives a smaller percentile. */
  lemma PercentileMonotone(data: seq<real>, p1: real, p2: real)
    requires |data| > 0
    requires 0.0 <= p1 <= p2 <= 1.0
    ensures Percentile(data, p1) <= Percentile(data, p2)
  {
    RankMonotone(|data|, p1, p2);
    InterpolateMonotone(Sort(data), Rank(|data|, p1), Rank(|data|, p2));
  }
}
