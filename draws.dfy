/** The two random draws of the model. Each is a method whose body picks an
    arbitrary value satisfying its contract, so that nothing else about the
    distribution is known to the rest of the model. */
module Draws {
  import opened Dicts

  /** The standardised bounds `a = -mean / sd` and `b = (1 - mean) / sd` handed
      to `truncnorm.rvs` with `loc = mean` and `scale = sd`. */
  function TruncationBounds(mean: real, sd: real): (bounds: (real, real))
    requires sd > 0.0
    ensures bounds.0 < bounds.1
    ensures mean + bounds.0 * sd == 0.0 && mean + bounds.1 * sd == 1.0
  {
    var a, b := -mean / sd, (1.0 - mean) / sd;
    assert a * sd == -mean && b * sd == 1.0 - mean;
    (a, b)
  }

  /** One draw of a normal distribution of centre `mean` and spread `sd`,
      truncated to the standardised interval [a, b], that is to
      [mean + a * sd, mean + b * sd] on the real line. */
  method TruncatedGaussian(mean: real, sd: real) returns (x: real)
    requires sd > 0.0
    ensures 0.0 <= x <= 1.0
  {
    var bounds := TruncationBounds(mean, sd);
    x :| mean + bounds.0 * sd <= x <= mean + bounds.1 * sd;
  }

  /** What `np.random.multinomial` checks of `pvals`: at least one entry, every
      entry in [0, 1], and the entries but the last summing to at most 1. */
  predicate ValidPvals(pvals: seq<real>) {
    && |pvals| > 0
    && (forall i | 0 <= i < |pvals| :: 0.0 <= pvals[i] <= 1.0)
    && SumReals(pvals[..|pvals| - 1]) <= 1.0
  }

  /** The counts a multinomial draw can give: none for an entry but the last
      of probability 0, and none for the last entry, which takes the mass
      `1 - sum(pvals[:-1])` the others leave, when they leave none. */
  predicate InSupport(counts: seq<int>, pvals: seq<real>)
    requires |counts| == |pvals| > 0
  {
    var last := |pvals| - 1;
    && (forall i | 0 <= i < last :: pvals[i] == 0.0 ==> counts[i] == 0)
    && (SumReals(pvals[..last]) == 1.0 ==> counts[last] == 0)
  }

  /** One draw of `np.random.multinomial(n, pvals)`: a split of `n` trials into
      `|pvals|` non-negative counts within the support of the distribution.
      A negative `n` raises in numpy. */
  method Multinomial(n: int, pvals: seq<real>) returns (counts: seq<int>)
    requires n >= 0 && ValidPvals(pvals)
    ensures |counts| == |pvals| && InSupport(counts, pvals)
    ensures forall i | 0 <= i < |counts| :: counts[i] >= 0
    ensures SumInts(counts) == n
  {
    var onePool := OnePoolSplit(n, pvals);
    counts :| && |counts| == |pvals| && InSupport(counts, pvals)
              && (forall i | 0 <= i < |counts| :: counts[i] >= 0)
              && SumInts(counts) == n;
  }

  /** One outcome of the draw: all `n` trials in a single slot of positive
      probability, or in the last slot when the others leave it some mass. */
  function OnePoolSplit(n: int, pvals: seq<real>): (z: seq<int>)
    requires n >= 0 && ValidPvals(pvals)
    ensures |z| == |pvals| && InSupport(z, pvals)
    ensures forall i | 0 <= i < |z| :: z[i] >= 0
    ensures SumInts(z) == n
  {
    var last := |pvals| - 1;
    if SumReals(pvals[..last]) == 1.0 then OneSplit(n, LastPositive(pvals[..last]), |pvals|)
    else OneSplit(n, last, |pvals|)
  }

  /** The last positive entry of a non-negative sequence summing to 1. */
  function LastPositive(s: seq<real>): (k: nat)
    requires (forall i | 0 <= i < |s| :: s[i] >= 0.0) && SumReals(s) == 1.0
    ensures k < |s| && s[k] > 0.0
    ensures forall i | k < i < |s| :: s[i] == 0.0
  {
    if s[|s| - 1] > 0.0 then |s| - 1
    else LastPositive(s[..|s| - 1])
  }

  /** `n` trials all in slot `k` of `size`. */
  function OneSplit(n: int, k: nat, size: nat): (z: seq<int>)
    requires k < size
    ensures |z| == size && SumInts(z) == n
    ensures z[k] == n && forall i | 0 <= i < size && i != k :: z[i] == 0
  {
    var z := Zeros(k) + [n] + Zeros(size - k - 1);
    SumIntsConcat(Zeros(k) + [n], Zeros(size - k - 1));
    SumIntsConcat(Zeros(k), [n]);
    z
  }

  function Zeros(k: nat): (z: seq<int>)
    ensures |z| == k && SumInts(z) == 0
    ensures forall i | 0 <= i < k :: z[i] == 0
  {
    if k == 0 then [] else
      var z := Zeros(k - 1) + [0];
      assert z[..k - 1] == Zeros(k - 1);
      z
  }
}
