# Histograph in Dafny

A verified model of `Histograph` (histograph.py), a store of scalar markers
that gives fixed-resolution histograms of them.

- The store maps each marker to its multiplicity (`db`). It also keeps the
  least marker added (`first`) and the greatest (`last`); both are absent
  until a marker is added.
- `get_histogram(resolution, first, last)` checks the resolution. It then
  takes each bound from the caller, or else from the store, and returns
  `resolution` counts:
  - all zeros when a bound is missing;
  - the multiplicity of the single point, shared by the greedy ceiling rule,
    when the range has zero width;
  - the counts of `resolution` equal-width buckets otherwise. Bucket 0 is
    closed on both ends; each later bucket is open on the left.

Files:

- `wrappers.dfy` (module `Wrappers`): `Option` and `Result`.
- `markers.dfy` (module `Markers`): sums of multiplicities. `Mass` is the
  multiplicity of the markers in an interval, summed over the map's keys.
  `Sum` is Python's `sum` over the counts, `Zeros` a list of zero counts.
- `greedy.dfy` (module `Greedy`): exact ceiling division and the greedy
  ceiling split of the zero-width range.
- `bucketing.dfy` (module `Bucketing`): the bucket edges and the bucket counts
  of a range of non-zero width.
- `histograph.dfy` (module `Histograph`): the store's invariant and the
  specification function `Histogram`. Also the class `Histograph`, with
  `db: map<int, nat>` and `first`, `last: Option<int>`, whose methods follow
  the source.
- `properties.dfy` (module `HistographProperties`): what the histogram
  promises, proved on `Histogram`, and scenarios of tests/test_histograph.py.

`GetHistogram` has no `modifies` clause, so Dafny checks that it leaves `db`,
`first` and `last` unchanged. Its postcondition equates its result with
`Histogram` on the store's fields. The lemmas in `HistographProperties` are
what `Histogram` is then shown to satisfy.

The two loops of `get_histogram` are the methods `SplitPoint` and
`CountBuckets`. `GetHistogram` calls them, which keeps each proof small.
Their loops are the source's loops: `for index in range(resolution)` with
`result.append`, and `total -= chunk` in the zero-width case.

Marker arithmetic is exact. Markers are integers, as in the tests. Bucket
edges are `real`. The ceiling in the zero-width case is integer ceiling
division.

Two behaviours of the code are kept as written:

- The code raises a plain `Exception('Invalid resolution')`. Here that is
  `Err(InvalidResolution)`.
- Inverted bounds (`first > last`) are not rejected. The code walks from
  `first` by `|last - first| / resolution`, so every bucket begins above its
  end. `InvertedBoundsGiveZeros` proves the result is all zeros.

## Model

| member | source | states |
|---|---|---|
| `Histograph.Count` | histograph.py:18 | defines the multiplicity of a marker, `db.get(marker, 0)`, also used for the point of a zero-width range at histograph.py:39: the stored count, or 0 for a marker never added |
| `Histograph.Lower` | histograph.py:19 | the new `first` is at most the marker and at most the old `first`, and it is one of the two: their minimum, or the marker when there was no `first` |
| `Histograph.Upper` | histograph.py:20 | the new `last` is at least the marker and at least the old `last`, and it is one of the two: their maximum, or the marker when there was no `last` |
| `Histograph.EffectiveBound` | histograph.py:29-30 | defines the bound used: the caller's when given, else the store's |
| `Histograph.Histogram` | histograph.py:25-59 | defines, on the store's values, what `get_histogram` returns: the error for a resolution below 1, zeros when a bound is missing, the greedy split of the point's multiplicity over a zero-width range, the bucket counts otherwise; the lemmas of `HistographProperties` are proved about it |
| `Histograph.Histograph.constructor` | histograph.py:12-15 | a new store is empty, has no extremes, and satisfies the store invariant |
| `Histograph.Histograph.AddMarker` | histograph.py:17-20 | the marker's count rises by exactly one (from 0 if absent); no other count changes; the only key added is the marker; `first` becomes `min(first, marker)` (or `marker`) and `last` becomes `max(last, marker)`; `first` never rises and `last` never falls; the invariant is kept |
| `Histograph.AddKeepsInvariant` | histograph.py:17-20 | on values: adding a marker keeps the store's invariant (both extremes absent exactly when the store is empty; otherwise both are keys, `first <= last`, and every key lies between them) |
| `Histograph.Histograph.GetTimespan` | histograph.py:22-23 | returns `(first, last)`; for a valid store they are absent exactly when it is empty, and otherwise they are a least key and a greatest key |
| `Histograph.Histograph.GetHistogram` | histograph.py:25-59 | the result is the error for `resolution < 1`; otherwise it is the histogram over the bounds taken from the caller or else from the store; the store is left unchanged |
| `Histograph.Histograph.CountBuckets` | histograph.py:47-59 | the loop builds exactly the `resolution` bucket counts, bucket 0 closed at `begin` and every later bucket open there |
| `Histograph.SplitPoint` | histograph.py:39-44 | the loop that gives each bucket the ceiling of the remainder over the buckets left builds exactly the greedy split |
| `Greedy.CeilDiv` | histograph.py:41 | the result is the ceiling of `a / b`: `(c - 1) * b < a <= c * b` |
| `Greedy.ChunkFits` | histograph.py:41-42 | a share is never negative and never more than what is left, so the running total stays non-negative |
| `Greedy.GreedySplit` | histograph.py:40-43 | the split has one share per bucket |
| `Greedy.GreedySplitSum` | histograph.py:37-44 | the shares add up to the multiplicity shared |
| `Greedy.GreedySplitFrontLoads` | histograph.py:40-43 | share `i` is `total / parts`, plus one when `i < total % parts`: the surplus sits at the front |
| `Greedy.GreedySplitBalanced` | histograph.py:40-43 | the shares never increase, any two differ by at most one, and each lies between `total / parts` and its ceiling |
| `Greedy.GreedySplitOfZero` | histograph.py:39-44 | sharing nothing gives all zeros |
| `Bucketing.Timestep` | histograph.py:34-35 | the width of a bucket is never negative, and `resolution` widths together span `abs(last - first)` exactly |
| `Bucketing.Begin` | histograph.py:49 | defines the left edge of bucket `index`, `first + index * timestep` |
| `Bucketing.End` | histograph.py:50-51 | defines the right edge of bucket `index`, `last - (resolution - (index + 1)) * timestep`, walked back from `last` |
| `Bucketing.InBucketAt` | histograph.py:52-57 | defines whether a marker is counted in bucket `index`: it lies between that bucket's edges, with the left edge included only for bucket 0 |
| `Bucketing.Bucket` | histograph.py:52-58 | defines the count of bucket `index` as the mass between its edges, closed on the left only for bucket 0 |
| `Bucketing.Buckets` | histograph.py:47-58 | there is one count per bucket |
| `Bucketing.EdgesMeet` | histograph.py:49-51 | for `first <= last`: bucket 0 begins at `first`, each bucket's `end` is the next bucket's `begin`, and the last bucket ends exactly at `last` |
| `Bucketing.EdgesIncrease` | histograph.py:34-51 | over a range of non-zero width the step is positive; `begin` and `end` each rise by exactly one step per bucket; every `begin` is at least `first` and every `end` at most `last` |
| `Bucketing.BucketsPrefixSum` | histograph.py:47-58 | the first `n` buckets together count exactly the markers from `first` to the right edge of bucket `n - 1` |
| `Bucketing.BucketsSum` | histograph.py:47-59 | for `first < last`, the counts add up to the multiplicity of the markers in `[first, last]` |
| `Bucketing.MarkerInSomeBucket` | histograph.py:52-57 | a marker between `first` and the right edge of bucket `n - 1` lies in one of the first `n` buckets |
| `Bucketing.BucketsPartitionRange` | histograph.py:52-57 | every marker of `[first, last]` is in exactly one bucket, and a marker outside in none |
| `Bucketing.InvertedBucketsEmpty` | histograph.py:34-35 | for `first > last` every bucket begins above its end, so every count is zero |
| `Markers.InBucket` | histograph.py:54-57 | defines membership of a marker in an interval: at most the right end, and above the left end, or equal to it when `closedLeft` holds |
| `Markers.Mass` | histograph.py:54-58 | the summed multiplicity of the markers in a bucket, closed on the right and closed on the left when `closedLeft` holds; it is never more than the store's total multiplicity |
| `Markers.MassSplit` | histograph.py:54-57 | cutting an interval at `mid` into a part closed at `mid` and a part open at `mid` splits its mass: no marker is lost and none is counted twice |
| `Markers.MassOfEmptyInterval` | histograph.py:54-57 | an interval whose left end exceeds its right end has mass zero |
| `Markers.MassOfCoveringInterval` | histograph.py:54 | a closed interval that holds every key has the store's total multiplicity |
| `Markers.MassOfPoint` | histograph.py:39 | the closed interval `[x, x]` holds exactly `db.get(x, 0)` |
| `HistographProperties.HistogramShape` | histograph.py:26-28 | a resolution below 1 gives exactly the error; any other gives exactly `resolution` counts |
| `HistographProperties.MissingBoundGivesZeros` | histograph.py:29-33 | when either bound is missing, in the caller's arguments and in the store, the result is `resolution` zeros |
| `HistographProperties.EmptyStoreGivesZeros` | histograph.py:29-59 | an empty store gives all zeros for any bounds, inverted ones included |
| `HistographProperties.PointRangeSharesMultiplicity` | histograph.py:37-44 | over a zero-width range the counts add up to the point's multiplicity, with the surplus front-loaded |
| `HistographProperties.HistogramCountsRange` | histograph.py:34-59 | for bounds `lo <= hi`, the counts add up to the multiplicity of the markers in `[lo, hi]` |
| `HistographProperties.InvertedBoundsGiveZeros` | histograph.py:34-35 | for bounds `lo > hi` the result is all zeros |
| `HistographProperties.DefaultHistogramCountsEveryMarker` | histograph.py:29-59 | without caller bounds, the histogram of a valid store counts every marker once: the counts add up to the total multiplicity |
| `HistographProperties.EmptyStoreExamples` | tests/test_histograph.py:45-56 | the test's expected zeros for an empty store |
| `HistographProperties.GiantPeakExamples` | tests/test_histograph.py:185-197 | ten markers at 5: `[4,3,3]` and `[3,3,2,2]` without bounds, and `[0,10,0]` over `[0, 10]` |
| `HistographProperties.GiantPeakScenario` | tests/test_histograph.py:169-195 | a store built by ten `AddMarker(5)` calls yields `[4,3,3]` for resolution 3, `[0,10,0]` over bounds `0, 10`, and the error for resolutions 0 and -77 (tests/test_histograph.py:35-39) |
| `HistographProperties.SingleValueExamples` | tests/test_histograph.py:66-94 | one marker at 0: `[1,0,0,0,0]`, then `[0,1]` with `first=-1`, then `[0,1,0]` with bounds `-1, 1` |

## Left out

- `make_marker` (histograph.py:61-64): a conversion from a calendar date to
  epoch seconds, done by Python's `datetime`, which is not part of this model.
- Floating point: the divisions at histograph.py:35 and histograph.py:41 are
  exact here. The comment at histograph.py:50 is about a float rounding
  problem, which cannot arise in exact arithmetic. The model still computes
  `end` from `last`, as the source does, and proves it meets the next
  `begin`.
- The `type(resolution) is not int` test (histograph.py:26): `resolution` is
  an `int` here, so a fractional resolution such as `5.5` cannot be passed.
  Only the `< 1` check is modelled.
- Markers and bounds of other numeric types: the markers and the caller's bounds (histograph.py:25, 29-30) are integers, as in the tests. A fractional bound such as `first=0.5` cannot be passed.
- Dictionary iteration order (histograph.py:54, 57): a bucket's count is a
  sum over the map's keys in ascending order. The sum does not depend on the
  order.
- The unused imports `re` and `sys` (histograph.py:4-5), and the unittest
  harness.
- Most of the tests' expected outputs. A selection of them is worked out in
  `EmptyStoreExamples`, `SingleValueExamples`, `GiantPeakExamples` and
  `GiantPeakScenario`. Outputs such as `[0,0,1,0,0]` and `[0,0,10,0,0]`
  (tests/test_histograph.py:92, 197), and the flat-histogram scenarios (ten
  markers at 0..9, tests/test_histograph.py:98-165), are not stated. For
  these, the general lemmas fix only the sum of the counts
  (`HistogramCountsRange`) and that each marker falls in exactly one bucket
  (`BucketsPartitionRange`). They do not give the per-bucket values.
