# Latency statistics aggregator

A Dafny model of the statistics aggregator inside the `/api/latency` handler
of `vercel_latency.py`. A request gives a list of region identifiers and a
latency threshold in milliseconds. For every requested region, in request
order, the handler does three things:

- It selects that region's observations from the loaded dataset, in dataset order.
- If none match, it reports all zeros.
- Otherwise it reports four statistics:
  - the mean latency;
  - the 95th-percentile latency, by linear interpolation between the closest ranks of the sorted latencies;
  - the mean uptime;
  - the number of observations whose latency is strictly above the threshold.

The model is a pure function of (dataset, regions, threshold). The dataset
is an input value, and a dataset that failed to load is the empty sequence.
Numbers are exact `real`s.

Modules:

- `Sorting`: ascending insertion sort, standing in for Python's `sorted`, and the uniqueness of the sorted permutation.
- `Statistics`: sum, minimum, maximum and arithmetic mean, standing in for `statistics.mean`.
- `Percentiles`: the nested `percentile(data, p)` helper. Its ceiling is built from Dafny's `.Floor`.
- `Aggregator`: observations, result records, region selection, the breach count, the per-region summary and the handler's loop.
- `Scenarios`: worked examples with concrete numbers.

## Model

| member | source | states |
|---|---|---|
| Sorting.Insert | vercel_latency.py:103 | inserting into an ascending sequence gives an ascending sequence one longer, holding the old values plus the new one |
| Sorting.Sort | vercel_latency.py:103 | the sorted sample is ascending and is a permutation of the input (same values, same multiplicities) |
| Sorting.SortedPermutationsAreEqual | vercel_latency.py:103 | two ascending sequences with the same multiset of values are identical |
| Sorting.SortIsUnique | vercel_latency.py:103 | any ascending rearrangement of the input is exactly what sorting returns |
| Sorting.SortPermutationInvariant | vercel_latency.py:103 | inputs that are permutations of each other sort to the same sequence |
| Statistics.Min | vercel_latency.py:60 | the minimum is an element of the sample and at most every element |
| Statistics.Max | vercel_latency.py:60 | the maximum is an element of the sample and at least every element |
| Statistics.SumBounds | vercel_latency.py:60 | if every value lies in [lo, hi], the sum of n values lies between n copies of lo and n copies of hi |
| Statistics.Mean | vercel_latency.py:60 | the mean is the value that, added to itself once per sample value, gives the sum of the sample |
| Statistics.MeanWithinRange | vercel_latency.py:60 | the mean lies between the sample's minimum and maximum |
| Percentiles.Ceil | vercel_latency.py:106 | the ceiling is the least integer not below k, and it equals the floor exactly when k is integral |
| Percentiles.Interpolate | vercel_latency.py:105-111 | floor and ceiling of an in-range rank are equal or adjacent valid indices, and an integral rank returns the element at that index |
| Percentiles.InterpolateFormula | vercel_latency.py:107-111 | both branches agree with d0 + (d1 - d0) * (k - f), so the integral case is the formula with k == f |
| Percentiles.InterpolateBetween | vercel_latency.py:109-111 | on sorted data the interpolated value lies between the values at floor(k) and ceil(k) |
| Percentiles.InterpolateMonotone | vercel_latency.py:104-111 | on sorted data a larger rank never gives a smaller interpolated value |
| Percentiles.Rank | vercel_latency.py:104 | for a fraction p the rank (n - 1) * p is a valid position in an n-element sample |
| Percentiles.RankMonotone | vercel_latency.py:104 | a larger fraction never gives a smaller rank |
| Percentiles.SortedEnds | vercel_latency.py:103 | the first element of the sorted sample is its minimum and the last is its maximum |
| Percentiles.Percentile | vercel_latency.py:101-111 | empty data gives 0, one-element data gives that element, and otherwise the result lies between the minimum and maximum |
| Percentiles.PercentileOfSorted | vercel_latency.py:103-111 | data that is already sorted is interpolated as it stands, at rank (n - 1) * p |
| Percentiles.PercentileBetweenClosestRanks | vercel_latency.py:103-111 | the two closest ranks are equal or adjacent indices of the sorted data, and the percentile lies between the sorted values there |
| Percentiles.PercentilePermutationInvariant | vercel_latency.py:103 | permuting the data does not change the percentile |
| Percentiles.PercentileExtremes | vercel_latency.py:101-111 | the 0th percentile is the minimum and the 100th is the maximum |
| Percentiles.PercentileMonotone | vercel_latency.py:101-111 | a larger fraction never gives a smaller percentile |
| Aggregator.ObservationsFor | vercel_latency.py:44 | every selected observation belongs to the region, and the selection is empty exactly when no observation of the dataset does |
| Aggregator.ObservationsForCounts | vercel_latency.py:44 | each observation of the region is kept as many times as it occurs in the dataset, and no observation of another region is kept |
| Aggregator.ObservationsForOne | vercel_latency.py:44 | a single observation is kept exactly when its region equals the requested one |
| Aggregator.ObservationsForAppend | vercel_latency.py:44 | selecting from a concatenation gives the selections from the parts, in the same order, so load order is kept |
| Aggregator.Latencies | vercel_latency.py:57 | the latency list has one entry per observation, holding that observation's latency at the same position |
| Aggregator.Uptimes | vercel_latency.py:58 | the uptime list has one entry per observation, holding that observation's uptime at the same position |
| Aggregator.Breaches | vercel_latency.py:117 | the count is at most the number of observations, is 0 exactly when no latency exceeds the threshold, and is the full count exactly when every latency does |
| Aggregator.BreachesAppend | vercel_latency.py:117 | the count over a concatenation is the sum of the counts over the parts |
| Aggregator.BreachesIgnoreAtThreshold | vercel_latency.py:117 | an observation whose latency equals the threshold is not counted |
| Aggregator.BreachesAntitone | vercel_latency.py:117 | raising the threshold never increases the count |
| Aggregator.Summarize | vercel_latency.py:44-125 | the result echoes the region; a region with no observation, including any region of an empty dataset, gives the all-zero record; breaches counts only the region's observations |
| Aggregator.SummarizeWithinRange | vercel_latency.py:57-115 | for a region with observations, the mean and 95th-percentile latency lie within the range of its latencies and the mean uptime within the range of its uptimes |
| Aggregator.SummarizeSingle | vercel_latency.py:57-117 | a region with one observation reports its latency as mean and percentile, its uptime as mean uptime, and one breach exactly when the latency is above the threshold |
| Aggregator.SummarizeIgnoresOtherRegions | vercel_latency.py:44 | observations of other regions, placed before or after, do not change a region's summary |
| Aggregator.MapRegions | vercel_latency.py:42 | the loop produces one result per requested region, at the same position |
| Aggregator.Compute | vercel_latency.py:42-127 | one result per requested region, in request order, duplicates and unknown regions included; entry i echoes region i and is that region's summary |
| Scenarios.PercentileOfFive | vercel_latency.py:101-111 | the 95th percentile of 10, 20, 30, 40, 50 is 48 |
| Scenarios.MeanOfPair | vercel_latency.py:60 | the mean of two values is their midpoint, so the mean of 100 and 200 is 150 |
| Scenarios.PercentileOfPair | vercel_latency.py:101-111 | for two values x <= y the 95th percentile is x + (y - x) * 0.95 |
| Scenarios.ObservationsOfA | vercel_latency.py:44 | in the example dataset, region "a" selects its two observations in dataset order |
| Scenarios.SummaryOfTwoObservations | vercel_latency.py:44-125 | latencies 100 and 300 with uptimes 99 and 98 at threshold 150 give mean 200, percentile 290, mean uptime 98.5 and one breach |
| Scenarios.SummaryOfOneObservation | vercel_latency.py:44-125 | one observation of 50 ms at 100 % uptime gives 50, 50, 100 and no breach at threshold 150 |
| Scenarios.SummaryOfUnknownRegion | vercel_latency.py:46-55 | a region absent from the dataset gives the all-zero record |
| Scenarios.ExampleRequest | vercel_latency.py:42-127 | the request "a", "b", "c", "a" on the example dataset gives the four expected records, with the repeated region reported twice |

## Left out

- The web layer: the FastAPI application, CORS middleware, routing, the pydantic request model and uvicorn startup (vercel_latency.py:5-18, 30-35, 129-130). It is transport and framework code.
- Loading the JSON file at startup and swallowing the load error (vercel_latency.py:20-28). This is I/O. The dataset is a parameter, and an empty dataset stands for a failed load.
- The first, abandoned percentile computation (vercel_latency.py:66-97). Its value is never used; only `percentile(latencies, 0.95)` feeds the result.
- The unused `regions_set` (vercel_latency.py:36).
- IEEE-754 floating-point rounding in `statistics.mean` and in the interpolation. All arithmetic is exact over `real`, so rounding error is not covered.
- Python's distinction between the integer 0 of the all-zero record and a float 0.0. Both are the real 0.
- The `async` request handling. The computation itself is sequential and stateless.
- Percentiles.Percentile: requires p in [0, 1]. The source only ever calls it with 0.95. An out-of-range p would hit Python's negative indexing or an IndexError, and that is not modelled.
- Statistics.Mean: requires a non-empty sample, as `statistics.mean` raises on empty input. The handler only calls it after checking that the region has observations (vercel_latency.py:46).
