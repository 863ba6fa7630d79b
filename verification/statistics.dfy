/**
 Arithmetic mean and the extreme values of a non-empty sample, over exact
 reals. `Mean` stands in for Python's `statistics.mean`.
 */
module Statistics {

  /** Sum of all values, left to right. */
  function Sum(s: seq<real>): real {
    if |s| == 0 then 0.0 else s[0] + Sum(s[1..])
  }

  /** `x` added to itself `n` times. */
  function Times(n: nat, x: real): real {
    if n == 0 then 0.0 else x + Times(n - 1, x)
  }

  /** The smallest value of a non-empty sample. */
  function Min(s: seq<real>): (r: real)
    requires |s| > 0
    ensures r in s
    ensures forall i :: 0 <= i < |s| ==> r <= s[i]
  {
    if |s| == 1 then s[0]
    else
      var m := Min(s[1..]);
      if s[0] <= m then s[0] else m
  }

  /** The largest value of a non-empty sample. */
  function Max(s: seq<real>): (r: real)
    requires |s| > 0
    ensures r in s
    ensures forall i :: 0 <= i < |s| ==> s[i] <= r
  {
    if |s| == 1 then s[0]
    else
      var m := Max(s[1..]);
      if s[0] >= m then s[0] else m
  }

  /** Repeated addition is multiplication. */
  lemma {:induction false} TimesIsProduct(n: nat, x: real)
    ensures Times(n, x) == n as real * x
  {
    if n > 0 {
      TimesIsProduct(n - 1, x);
    }
  }

  /** If every value lies in [lo, hi], the sum of n values lies in [n*lo, n*hi]. */
  lemma {:induction false} SumBounds(s: seq<real>, lo: real, hi: real)
    requires forall i :: 0 <= i < |s| ==> lo <= s[i] <= hi
    ensures Times(|s|, lo) <= Sum(s) <= Times(|s|, hi)
  {
    if |s| > 0 {
      SumBounds(s[1..], lo, hi);
    }
  }

  /** A factor of a non-negative product with a positive other factor is non-negative. */
  lemma NonNegativeFactor(a: real, b: real)
    requires a > 0.0
    requires a * b >= 0.0
    ensures b >= 0.0
  {
  }

  /** Dividing by a positive m and multiplying back gives the original value. */
  lemma DivideThenMultiply(t: real, m: real)
    requires m > 0.0
    ensures (t / m) * m == t
  {
  }

  /** Dividing n*lo <= t <= n*hi by a positive n; the quotient taken n times gives t back. */
  lemma DivideBounds(t: real, n: nat, lo: real, hi: real)
    requires n > 0
    requires Times(n, lo) <= t <= Times(n, hi)
    ensures lo <= t / n as real <= hi
    ensures Times(n, t / n as real) == t
  {
    var m := n as real;
    var q := t / m;
    TimesIsProduct(n, lo);
    TimesIsProduct(n, hi);
    TimesIsProduct(n, q);
    DivideThenMultiply(t, m);
    assert m * (q - lo) == t - m * lo;
    assert m * (hi - q) == m * hi - t;
    NonNegativeFactor(m, q - lo);
    NonNegativeFactor(m, hi - q);
  }

  /**
   Arithmetic mean of a non-empty sample: the value that, added to itself
   once per sample, gives the sum.
   */
  function Mean(s: seq<real>): (r: real)
    requires |s| > 0
    ensures Times(|s|, r) == Sum(s)
  {
    SumBounds(s, Min(s), Max(s));
    DivideBounds(Sum(s), |s|, Min(s), Max(s));
    Sum(s) / |s| as real
  }

  /** The mean lies between the smallest and the largest value. */
  lemma MeanWithinRange(s: seq<real>)
    requires |s| > 0
    ensures Min(s) <= Mean(s) <= Max(s)
  {
    SumBounds(s, Min(s), Max(s));
    DivideBounds(Sum(s), |s|, Min(s), Max(s));
  }
}
