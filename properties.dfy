/** What the histogram promises, stated on its specification function
    `Histogram` (which `Histograph.GetHistogram` returns), and the scenarios of
    tests/test_histograph.py worked out on it. */
module HistographProperties {
  import opened Wrappers
  import opened Markers
  import opened Greedy
  import opened Bucketing
  import opened Histograph

  /** A resolution below 1 is the one error; any other gives exactly
      `resolution` counts. */
  lemma HistogramShape(db: map<int, nat>, first: Option<int>, last: Option<int>,
                       resolution: int, firstArg: Option<int>, lastArg: Option<int>)
    ensures resolution < 1 <==> Histogram(db, first, last, resolution, firstArg, lastArg) == Err(InvalidResolution)
    ensures resolution >= 1 ==> Histogram(db, first, last, resolution, firstArg, lastArg).Ok?
    ensures resolution >= 1 ==> |Histogram(db, first, last, resolution, firstArg, lastArg).value| == resolution
  {
  }

  /** Without a bound to start or end at, the histogram is all zeros. */
  lemma MissingBoundGivesZeros(db: map<int, nat>, first: Option<int>, last: Option<int>,
                               resolution: int, firstArg: Option<int>, lastArg: Option<int>)
    requires resolution >= 1
    requires EffectiveBound(firstArg, first).None? || EffectiveBound(lastArg, last).None?
    ensures Histogram(db, first, last, resolution, firstArg, lastArg) == Ok(Zeros(resolution))
  {
  }

  /** An empty store gives all zeros, whatever bounds are given, inverted ones
      included. */
  lemma EmptyStoreGivesZeros(first: Option<int>, last: Option<int>,
                             resolution: int, firstArg: Option<int>, lastArg: Option<int>)
    requires resolution >= 1
    ensures Histogram(map[], first, last, resolution, firstArg, lastArg) == Ok(Zeros(resolution))
  {
    var lo, hi := EffectiveBound(firstArg, first), EffectiveBound(lastArg, last);
    if lo.Some? && hi.Some? {
      if lo.value == hi.value {
        GreedySplitOfZero(resolution);
      } else {
        assert Buckets(map[], lo.value, hi.value, resolution) == Zeros(resolution);
      }
    }
  }

  /** Over a single point the histogram shares that point's multiplicity by
      the greedy ceiling rule: the counts add up to it, every count is
      `total / resolution` and the first `total % resolution` are one more. */
  lemma PointRangeSharesMultiplicity(db: map<int, nat>, first: Option<int>, last: Option<int>,
                                     resolution: int, firstArg: Option<int>, lastArg: Option<int>)
    requires resolution >= 1
    requires EffectiveBound(firstArg, first).Some? && EffectiveBound(lastArg, last).Some?
    requires EffectiveBound(firstArg, first).value == EffectiveBound(lastArg, last).value
    ensures var total := Count(db, EffectiveBound(firstArg, first).value);
            var counts := Histogram(db, first, last, resolution, firstArg, lastArg).value;
            && Sum(counts) == total
            && forall i :: 0 <= i < resolution ==>
                 counts[i] == total / resolution + (if i < total % resolution then 1 else 0)
  {
    var total := Count(db, EffectiveBound(firstArg, first).value);
    GreedySplitSum(total, resolution);
    GreedySplitFrontLoads(total, resolution);
  }

  /** Over bounds `lo <= hi` the counts add up to the multiplicity of the
      markers in `[lo, hi]`: those inside are counted once, those outside not
      at all. */
  lemma HistogramCountsRange(db: map<int, nat>, first: Option<int>, last: Option<int>,
                             resolution: int, firstArg: Option<int>, lastArg: Option<int>)
    requires resolution >= 1
    requires EffectiveBound(firstArg, first).Some? && EffectiveBound(lastArg, last).Some?
    requires EffectiveBound(firstArg, first).value <= EffectiveBound(lastArg, last).value
    ensures var lo, hi := EffectiveBound(firstArg, first).value, EffectiveBound(lastArg, last).value;
            Sum(Histogram(db, first, last, resolution, firstArg, lastArg).value)
              == Mass(db, db.Keys, lo as real, hi as real, true)
  {
    var lo, hi := EffectiveBound(firstArg, first).value, EffectiveBound(lastArg, last).value;
    if lo == hi {
      GreedySplitSum(Count(db, lo), resolution);
      MassOfPoint(db, db.Keys, lo);
    } else {
      BucketsSum(db, lo, hi, resolution);
    }
  }

  /** Inverted bounds (`first > last`) give all zeros: every bucket begins
      above its end. */
  lemma InvertedBoundsGiveZeros(db: map<int, nat>, first: Option<int>, last: Option<int>,
                                resolution: int, firstArg: Option<int>, lastArg: Option<int>)
    requires resolution >= 1
    requires EffectiveBound(firstArg, first).Some? && EffectiveBound(lastArg, last).Some?
    requires EffectiveBound(firstArg, first).value > EffectiveBound(lastArg, last).value
    ensures Histogram(db, first, last, resolution, firstArg, lastArg) == Ok(Zeros(resolution))
  {
    InvertedBucketsEmpty(db, EffectiveBound(firstArg, first).value, EffectiveBound(lastArg, last).value, resolution);
  }

  /** Without caller bounds the histogram of a store counts every marker
      exactly once: its counts add up to the store's total multiplicity. */
  lemma DefaultHistogramCountsEveryMarker(db: map<int, nat>, first: Option<int>, last: Option<int>, resolution: int)
    requires StoreInvariant(db, first, last)
    requires resolution >= 1
    ensures Sum(Histogram(db, first, last, resolution, None, None).value) == Total(db, db.Keys)
  {
    if first.Some? {
      HistogramCountsRange(db, first, last, resolution, None, None);
      MassOfCoveringInterval(db, db.Keys, first.value as real, last.value as real);
    } else {
      assert db.Keys == {};
      ZerosSumToZero(resolution);
    }
  }

  /** tests/test_histograph.py, EmptyHistograph: zeros for any bounds. */
  lemma EmptyStoreExamples()
    ensures Histogram(map[], None, None, 3, None, None) == Ok([0, 0, 0])
    ensures Histogram(map[], None, None, 5, Some(50), None) == Ok([0, 0, 0, 0, 0])
    ensures Histogram(map[], None, None, 5, Some(100), Some(50)) == Ok([0, 0, 0, 0, 0])
  {
    EmptyStoreGivesZeros(None, None, 5, Some(100), Some(50));
    assert Zeros(3) == [0, 0, 0];
    assert Zeros(5) == [0, 0, 0, 0, 0];
  }

  /** tests/test_histograph.py, GiantPeakHistogramCheck: ten markers at 5. */
  lemma GiantPeakExamples()
    ensures Histogram(map[5 := 10], Some(5), Some(5), 3, None, None) == Ok([4, 3, 3])
    ensures Histogram(map[5 := 10], Some(5), Some(5), 4, None, None) == Ok([3, 3, 2, 2])
    ensures Histogram(map[5 := 10], Some(5), Some(5), 3, Some(0), Some(10)) == Ok([0, 10, 0])
  {
    var db := map[5 := 10];
    assert GreedySplit(10, 3) == [4, 3, 3] by {
      assert GreedySplit(3, 1) == [3];
      assert GreedySplit(6, 2) == [3, 3];
    }
    assert GreedySplit(10, 4) == [3, 3, 2, 2] by {
      assert GreedySplit(2, 1) == [2];
      assert GreedySplit(4, 2) == [2, 2];
      assert GreedySplit(7, 3) == [3, 2, 2];
    }
    assert Least({5}) == 5;
    assert db.Keys == {5};
    var step := Timestep(0, 10, 3);
    assert step == 10.0 / 3.0;
    assert Bucket(db, 0, 10, 3, 0) == 0;
    assert Bucket(db, 0, 10, 3, 1) == 10;
    assert Bucket(db, 0, 10, 3, 2) == 0;
    assert Buckets(db, 0, 10, 3) == [0, 10, 0];
  }

  /** tests/test_histograph.py, SingleValueHistograph: one marker at 0. */
  lemma SingleValueExamples()
    ensures Histogram(map[0 := 1], Some(0), Some(0), 5, None, None) == Ok([1, 0, 0, 0, 0])
    ensures Histogram(map[0 := 1], Some(0), Some(0), 2, Some(-1), None) == Ok([0, 1])
    ensures Histogram(map[0 := 1], Some(0), Some(0), 3, Some(-1), Some(1)) == Ok([0, 1, 0])
  {
    var db := map[0 := 1];
    assert GreedySplit(1, 5) == [1, 0, 0, 0, 0] by {
      GreedySplitOfZero(4);
      assert Zeros(4) == [0, 0, 0, 0];
    }
    assert Least({0}) == 0;
    assert db.Keys == {0};
    assert Buckets(db, -1, 0, 2) == [0, 1] by {
      assert Bucket(db, -1, 0, 2, 0) == 0;
      assert Bucket(db, -1, 0, 2, 1) == 1;
    }
    assert Buckets(db, -1, 1, 3) == [0, 1, 0] by {
      assert Bucket(db, -1, 1, 3, 0) == 0;
      assert Bucket(db, -1, 1, 3, 1) == 1;
      assert Bucket(db, -1, 1, 3, 2) == 0;
    }
  }

  /** tests/test_histograph.py, GiantPeakHistogramCheck and
      InvalidParametersTest, worked through the store's own methods. */
  method GiantPeakScenario()
    returns (unbounded: Result<seq<nat>, Error>, bounded: Result<seq<nat>, Error>,
             zero: Result<seq<nat>, Error>, negative: Result<seq<nat>, Error>)
    ensures unbounded == Ok([4, 3, 3])
    ensures bounded == Ok([0, 10, 0])
    ensures zero == Err(InvalidResolution) && negative == Err(InvalidResolution)
  {
    var h := new Histograph();
    for i := 0 to 10
      invariant h.Valid()
      invariant h.db == if i == 0 then map[] else map[5 := i]
      invariant h.first == (if i == 0 then None else Some(5)) && h.last == h.first
    {
      h.AddMarker(5);
    }
    var lo, hi := h.GetTimespan();
    assert lo == Some(5) && hi == Some(5);
    GiantPeakExamples();
    unbounded := h.GetHistogram(3);
    bounded := h.GetHistogram(3, Some(0), Some(10));
    zero := h.GetHistogram(0);
    negative := h.GetHistogram(-77);
  }
}
