/**
 Worked examples: concrete samples and a concrete dataset, with the values
 the aggregator reports for them.
 */
module Scenarios {
  import opened Sorting
  import opened Statistics
  import opened Percentiles
  import opened Aggregator

  /** The five-value sample is in ascending order. */
  lemma FiveSorted()
    ensures Sorted([10.0, 20.0, 30.0, 40.0, 50.0])
  {
  }

  /** Being sorted, the five-value sample is interpolated as it stands, at rank 4 * 0.95. */
  lemma FiveIsInterpolated()
    ensures Percentile([10.0, 20.0, 30.0, 40.0, 50.0], P95) == Interpolate([10.0, 20.0, 30.0, 40.0, 50.0], 3.8)
  {
    var s := [10.0, 20.0, 30.0, 40.0, 50.0];
    FiveSorted();
    PercentileOfSorted(s, P95);
    assert Rank(5, P95) == 3.8;
  }

  /** Rank 3.8 lies 0.8 of the way from the fourth value, 40, to the fifth, 50. */
  lemma FiveAtRank()
    ensures Interpolate([10.0, 20.0, 30.0, 40.0, 50.0], 3.8) == 48.0
  {
    InterpolateFormula([10.0, 20.0, 30.0, 40.0, 50.0], 3.8);
    assert (3.8).Floor == 3 && Ceil(3.8) == 4;
  }

  /** The 95th percentile of five evenly spaced values. */
  lemma PercentileOfFive()
    ensures Percentile([10.0, 20.0, 30.0, 40.0, 50.0], P95) == 48.0
  {
    FiveIsInterpolated();
    FiveAtRank();
  }

  /** The mean of two values is their midpoint. */
  lemma MeanOfPair(x: real, y: real)
    ensures Mean([x, y]) == (x + y) / 2.0
  {
    var s := [x, y];
    assert s[1..] == [y] && [y][1..] == [];
    assert Sum([y]) == y;
    assert Sum(s) == x + y;
  }

  /** The 95th percentile of two values lies 95 % of the way from the smaller to the larger. */
  lemma PercentileOfPair(x: real, y: real)
    requires x <= y
    ensures Percentile([x, y], P95) == x + (y - x) * 0.95
  {
    var s := [x, y];
    assert Sorted(s);
    PercentileOfSorted(s, P95);
    assert Rank(2, P95) == 0.95;
    InterpolateFormula(s, 0.95);
    assert (0.95).Floor == 0 && Ceil(0.95) == 1;
  }

  /** Two observations of "a", one of "b". */
  function Dataset(): seq<Observation> {
    [Observation("a", 100.0, 99.0), Observation("a", 300.0, 98.0), Observation("b", 50.0, 100.0)]
  }

  /** Region "a" selects the first two observations, in dataset order. */
  lemma ObservationsOfA()
    ensures ObservationsFor(Dataset(), "a") == [Dataset()[0], Dataset()[1]]
  {
    var d := Dataset();
    assert d[1..][1..] == [d[2]];
    assert d[1..][1..][1..] == [];
  }

  /** Region "a": mean 200, percentile 100 + 200 * 0.95, mean uptime 98.5, one latency above 150. */
  lemma SummaryOfTwoObservations()
    ensures Summarize(Dataset(), "a", 150.0) == RegionResult("a", 200.0, 290.0, 98.5, 1)
  {
    var d := Dataset();
    var matching := [d[0], d[1]];
    ObservationsOfA();
    assert matching[1..] == [d[1]];
    assert Latencies(matching) == [100.0, 300.0];
    assert Uptimes(matching) == [99.0, 98.0];
    MeanOfPair(100.0, 300.0);
    MeanOfPair(99.0, 98.0);
    PercentileOfPair(100.0, 300.0);
    assert Breaches(matching, 150.0) == 1;
  }

  /** Region "c" has no observation: every statistic is 0. */
  lemma SummaryOfUnknownRegion()
    ensures Summarize(Dataset(), "c", 150.0) == RegionResult("c", 0.0, 0.0, 0.0, 0)
  {
    var d := Dataset();
    assert forall i :: 0 <= i < |d| ==> d[i].region != "c";
  }

  /**
   A request for "a", "b", an unknown region "c" and "a" again: four results
   in request order, the unknown region all zeros, the repeat identical to
   the first.
   */
  method ExampleRequest() returns (results: seq<RegionResult>)
    ensures |results| == 4
    ensures results[0] == RegionResult("a", 200.0, 290.0, 98.5, 1)
    ensures results[1] == RegionResult("b", 50.0, 50.0, 100.0, 0)
    ensures results[2] == RegionResult("c", 0.0, 0.0, 0.0, 0)
    ensures results[3] == results[0]
  {
    var regions := ["a", "b", "c", "a"];
    results := Compute(Dataset(), regions, 150.0);
    SummaryOfTwoObservations();
    SummaryOfOneObservation();
    SummaryOfUnknownRegion();
    assert results[0] == Summarize(Dataset(), regions[0], 150.0);
    assert results[1] == Summarize(Dataset(), regions[1], 150.0);
    assert results[2] == Summarize(Dataset(), regions[2], 150.0);
    assert results[3] == Summarize(Dataset(), regions[3], 150.0);
  }

  /** Region "b" has one observation, 50 ms at 100 % uptime, under the threshold. */
  lemma SummaryOfOneObservation()
    ensures Summarize(Dataset(), "b", 150.0) == RegionResult("b", 50.0, 50.0, 100.0, 0)
  {
    var d := Dataset();
    assert d[1..][1..] == [d[2]];
    assert ObservationsFor(d, "b") == [d[2]];
    SummarizeSingle(d, "b", 150.0, d[2]);
  }
}
