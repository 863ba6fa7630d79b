/**
 The per-region aggregation behind the latency endpoint: for every requested
 region, select its observations from the loaded dataset and summarise them
 as mean latency, 95th-percentile latency, mean uptime and the number of
 threshold breaches. The dataset is an input value; a dataset that failed to
 load is the empty sequence.
 */
module Aggregator {
  import opened Statistics
  import opened Percentiles

  /** One recorded sample: `region`, `latency_ms` and `uptime_pct`. */
  datatype Observation = Observation(region: string, latencyMs: real, uptimePct: real)

  /** One entry of the response; `region` echoes the requested identifier. */
  datatype RegionResult = RegionResult(
    region: string,
    avgLatency: real,
    p95Latency: real,
    avgUptime: real,
    breaches: nat)

  /** The fraction whose percentile is reported as `p95_latency`. */
  const P95: real := 0.95

  /** The result reported for a region without observations: every statistic is 0. */
  function EmptyResult(region: string): RegionResult {
    RegionResult(region, 0.0, 0.0, 0.0, 0)
  }

  /**
   The observations of `region`, in dataset order. Every selected observation
   belongs to the region, and the selection is empty exactly when no
   observation of the dataset does.
   */
  function ObservationsFor(dataset: seq<Observation>, region: string): (r: seq<Observation>)
    ensures |r| <= |dataset|
    ensures forall i :: 0 <= i < |r| ==> r[i].region == region
    ensures |r| == 0 <==> forall i :: 0 <= i < |dataset| ==> dataset[i].region != region
  {
    if |dataset| == 0 then []
    else
      var rest := ObservationsFor(dataset[1..], region);
      assert forall i :: 1 <= i < |dataset| ==> dataset[i] == dataset[1..][i - 1];
      if dataset[0].region == region then [dataset[0]] + rest else rest
  }

  /**
   The selection holds every observation of the region as often as the
   dataset does, and nothing else.
   */
  lemma {:induction false} ObservationsForCounts(dataset: seq<Observation>, region: string, o: Observation)
    ensures multiset(ObservationsFor(dataset, region))[o]
      == if o.region == region then multiset(dataset)[o] else 0
  {
    if |dataset| > 0 {
      ObservationsForCounts(dataset[1..], region, o);
      assert dataset == [dataset[0]] + dataset[1..];
    }
  }

  /** A single observation is kept exactly when it belongs to the region. */
  lemma ObservationsForOne(o: Observation, region: string)
    ensures ObservationsFor([o], region) == if o.region == region then [o] else []
  {
    assert [o][1..] == [];
  }

  /** Selecting from a concatenation selects from each part and keeps them in order. */
  lemma {:induction false} ObservationsForAppend(a: seq<Observation>, b: seq<Observation>, region: string)
    ensures ObservationsFor(a + b, region) == ObservationsFor(a, region) + ObservationsFor(b, region)
  {
    if |a| == 0 {
      assert a + b == b;
    } else {
      assert (a + b)[0] == a[0];
      assert (a + b)[1..] == a[1..] + b;
      ObservationsForAppend(a[1..], b, region);
    }
  }

  /** The latencies of `obs`, position by position. */
  function Latencies(obs: seq<Observation>): (r: seq<real>)
    ensures |r| == |obs|
    ensures forall i :: 0 <= i < |obs| ==> r[i] == obs[i].latencyMs
  {
    if |obs| == 0 then [] else [obs[0].latencyMs] + Latencies(obs[1..])
  }

  /** The uptimes of `obs`, position by position. */
  function Uptimes(obs: seq<Observation>): (r: seq<real>)
    ensures |r| == |obs|
    ensures forall i :: 0 <= i < |obs| ==> r[i] == obs[i].uptimePct
  {
    if |obs| == 0 then [] else [obs[0].uptimePct] + Uptimes(obs[1..])
  }

  /**
   Number of observations whose latency is strictly above `threshold`. It is
   0 exactly when no latency exceeds the threshold, and |obs| exactly when
   every latency does.
   */
  function Breaches(obs: seq<Observation>, threshold: real): (n: nat)
    ensures n <= |obs|
    ensures n == 0 <==> forall i :: 0 <= i < |obs| ==> obs[i].latencyMs <= threshold
    ensures n == |obs| <==> forall i :: 0 <= i < |obs| ==> obs[i].latencyMs > threshold
  {
    if |obs| == 0 then 0
    else
      var rest := Breaches(obs[1..], threshold);
      assert forall i :: 1 <= i < |obs| ==> obs[i] == obs[1..][i - 1];
      (if obs[0].latencyMs > threshold then 1 else 0) + rest
  }

  /** Counting over a concatenation adds the counts of the parts. */
  lemma {:induction false} BreachesAppend(a: seq<Observation>, b: seq<Observation>, threshold: real)
    ensures Breaches(a + b, threshold) == Breaches(a, threshold) + Breaches(b, threshold)
  {
    if |a| == 0 {
      assert a + b == b;
    } else {
      assert (a + b)[0] == a[0];
      assert (a + b)[1..] == a[1..] + b;
      BreachesAppend(a[1..], b, threshold);
    }
  }

  /** An observation exactly at the threshold is not a breach: removing it changes nothing. */
  lemma BreachesIgnoreAtThreshold(a: seq<Observation>, o: Observation, b: seq<Observation>)
    ensures Breaches(a + [o] + b, o.latencyMs) == Breaches(a + b, o.latencyMs)
  {
    BreachesAppend(a + [o], b, o.latencyMs);
    BreachesAppend(a, [o], o.latencyMs);
    BreachesAppend(a, b, o.latencyMs);
  }

  /** Raising the threshold never adds breaches. */
  lemma {:induction false} BreachesAntitone(obs: seq<Observation>, t1: real, t2: real)
    requires t1 <= t2
    ensures Breaches(obs, t2) <= Breaches(obs, t1)
  {
    if |obs| > 0 {
      BreachesAntitone(obs[1..], t1, t2);
    }
  }

  /**
   The statistics of one requested region. It echoes the region; with no
   matching observation every field is 0; the breach count is that of the
   matching observations.
   */
  function Summarize(dataset: seq<Observation>, region: string, threshold: real): (r: RegionResult)
    ensures r.region == region
    ensures r.breaches == Breaches(ObservationsFor(dataset, region), threshold)
    ensures (forall i :: 0 <= i < |dataset| ==> dataset[i].region != region) ==> r == EmptyResult(region)
  {
    var matching := ObservationsFor(dataset, region);
    if |matching| == 0 then EmptyResult(region)
    else
      var latencies := Latencies(matching);
      RegionResult(
        region,
        Mean(latencies),
        Percentile(latencies, P95),
        Mean(Uptimes(matching)),
        Breaches(matching, threshold))
  }

  /**
   For a region with observations, both latency statistics lie between the
   smallest and largest matching latency, and the mean uptime between the
   smallest and largest matching uptime.
   */
  lemma SummarizeWithinRange(dataset: seq<Observation>, region: string, threshold: real)
    requires |ObservationsFor(dataset, region)| > 0
    ensures
      var r := Summarize(dataset, region, threshold);
      var latencies := Latencies(ObservationsFor(dataset, region));
      var uptimes := Uptimes(ObservationsFor(dataset, region));
      && Min(latencies) <= r.avgLatency <= Max(latencies)
      && Min(latencies) <= r.p95Latency <= Max(latencies)
      && Min(uptimes) <= r.avgUptime <= Max(uptimes)
  {
    var matching := ObservationsFor(dataset, region);
    MeanWithinRange(Latencies(matching));
    MeanWithinRange(Uptimes(matching));
  }

  /**
   A region with a single observation reports that observation's latency as
   both mean and 95th percentile, its uptime as the mean uptime, and one
   breach exactly when its latency is above the threshold.
   */
  lemma SummarizeSingle(dataset: seq<Observation>, region: string, threshold: real, o: Observation)
    requires ObservationsFor(dataset, region) == [o]
    ensures Summarize(dataset, region, threshold)
      == RegionResult(region, o.latencyMs, o.latencyMs, o.uptimePct, if o.latencyMs > threshold then 1 else 0)
  {
    assert Latencies([o]) == [o.latencyMs];
    assert Uptimes([o]) == [o.uptimePct];
    SummarizeWithinRange(dataset, region, threshold);
  }

  /**
   Observations of other regions do not affect a region's summary, wherever
   they stand in the dataset.
   */
  lemma SummarizeIgnoresOtherRegions(d: seq<Observation>, other: seq<Observation>, region: string, threshold: real)
    requires forall i :: 0 <= i < |other| ==> other[i].region != region
    ensures Summarize(d + other, region, threshold) == Summarize(d, region, threshold)
    ensures Summarize(other + d, region, threshold) == Summarize(d, region, threshold)
  {
    ObservationsForAppend(d, other, region);
    ObservationsForAppend(other, d, region);
    assert ObservationsFor(d, region) + [] == ObservationsFor(d, region);
    assert [] + ObservationsFor(d, region) == ObservationsFor(d, region);
  }

  /** Applies `f` to every requested region, keeping request order. */
  method MapRegions(regions: seq<string>, f: string -> RegionResult) returns (results: seq<RegionResult>)
    ensures |results| == |regions|
    ensures forall i :: 0 <= i < |regions| ==> results[i] == f(regions[i])
  {
    results := [];
    var i := 0;
    while i < |regions|
      invariant 0 <= i <= |regions|
      invariant |results| == i
      invariant forall j :: 0 <= j < i ==> results[j] == f(regions[j])
    {
      results := results + [f(regions[i])];
      i := i + 1;
    }
  }

  /**
   The handler's loop: one result per requested region, in request order,
   duplicates and unknown regions included, each echoing its region.
   */
  method Compute(dataset: seq<Observation>, regions: seq<string>, threshold: real)
    returns (results: seq<RegionResult>)
    ensures |results| == |regions|
    ensures forall i :: 0 <= i < |regions| ==> results[i].region == regions[i]
    ensures forall i :: 0 <= i < |regions| ==> results[i] == Summarize(dataset, regions[i], threshold)
  {
    results := MapRegions(regions, region => Summarize(dataset, region, threshold));
  }
}
