/** The equal-width buckets of a histogram over a range of non-zero width
    (histograph.py:34-35, 47-59). Bucket `i` of `resolution` runs from
    `begin = first + i * timestep` to `end = last - (resolution - (i + 1)) * timestep`,
    where `timestep = |last - first| / resolution`; bucket 0 is closed on the
    left, every later bucket open. The arithmetic is exact (`real`). */
module Bucketing {
  import opened Markers

  function Abs(x: int): nat
  {
    if x < 0 then -x else x
  }

  /** The width of one bucket: `resolution` of them span the range exactly. */
  function Timestep(first: int, last: int, resolution: int): (step: real)
    requires resolution >= 1
    ensures step >= 0.0
    ensures step * resolution as real == Abs(last - first) as real
  {
    Abs(last - first) as real / resolution as real
  }

  /** The left edge of bucket `index`, walking up from `first`. */
  function Begin(first: int, step: real, index: int): real
  {
    first as real + index as real * step
  }

  /** The right edge of bucket `index`, walking back from `last`. */
  function End(last: int, step: real, resolution: int, index: int): real
  {
    last as real - (resolution - (index + 1)) as real * step
  }

  /** Whether marker `k` is counted in bucket `index`. */
  predicate InBucketAt(k: int, first: int, last: int, resolution: int, index: int)
    requires resolution >= 1
  {
    var step := Timestep(first, last, resolution);
    InBucket(k, Begin(first, step, index), End(last, step, resolution, index), index == 0)
  }

  /** The count of bucket `index`: the summed multiplicity of the markers in it. */
  function Bucket(db: map<int, nat>, first: int, last: int, resolution: int, index: int): nat
    requires resolution >= 1
  {
    var step := Timestep(first, last, resolution);
    Mass(db, db.Keys, Begin(first, step, index), End(last, step, resolution, index), index == 0)
  }

  /** All `resolution` bucket counts, left to right. */
  function Buckets(db: map<int, nat>, first: int, last: int, resolution: int): (counts: seq<nat>)
    requires resolution >= 1
    ensures |counts| == resolution
  {
    seq(resolution, i => Bucket(db, first, last, resolution, i))
  }

  /** With `first <= last` the walk from the far end meets the walk from the
      near end: bucket 0 starts at `first`, every bucket ends where the next
      begins, and the last bucket ends exactly at `last`. */
  lemma EdgesMeet(first: int, last: int, resolution: int)
    requires resolution >= 1 && first <= last
    ensures Begin(first, Timestep(first, last, resolution), 0) == first as real
    ensures End(last, Timestep(first, last, resolution), resolution, resolution - 1) == last as real
    ensures forall i :: End(last, Timestep(first, last, resolution), resolution, i)
                     == Begin(first, Timestep(first, last, resolution), i + 1)
  {
  }

  /** Over a range of non-zero width the buckets grow left to right, both
      edges by exactly one step per bucket. */
  lemma EdgesIncrease(first: int, last: int, resolution: int, i: int)
    requires resolution >= 1 && first != last
    ensures Timestep(first, last, resolution) > 0.0
    ensures Begin(first, Timestep(first, last, resolution), i + 1)
         == Begin(first, Timestep(first, last, resolution), i) + Timestep(first, last, resolution)
    ensures End(last, Timestep(first, last, resolution), resolution, i + 1)
         == End(last, Timestep(first, last, resolution), resolution, i) + Timestep(first, last, resolution)
    ensures Begin(first, Timestep(first, last, resolution), i) < Begin(first, Timestep(first, last, resolution), i + 1)
    ensures 0 <= i ==> first as real <= Begin(first, Timestep(first, last, resolution), i)
    ensures End(last, Timestep(first, last, resolution), resolution, i) < End(last, Timestep(first, last, resolution), resolution, i + 1)
    ensures i < resolution ==> End(last, Timestep(first, last, resolution), resolution, i) <= last as real
  {
  }

  /** The first `n` buckets together count exactly the markers from `first`
      up to the right edge of bucket `n - 1`. */
  lemma {:induction false} BucketsPrefixSum(db: map<int, nat>, first: int, last: int, resolution: int, n: nat)
    requires resolution >= 1 && first < last
    requires 1 <= n <= resolution
    ensures Sum(Buckets(db, first, last, resolution)[..n])
         == Mass(db, db.Keys, first as real, End(last, Timestep(first, last, resolution), resolution, n - 1), true)
  {
    var step := Timestep(first, last, resolution);
    var counts := Buckets(db, first, last, resolution);
    EdgesMeet(first, last, resolution);
    if n == 1 {
      assert counts[..1] == [counts[0]];
    } else {
      BucketsPrefixSum(db, first, last, resolution, n - 1);
      assert counts[..n] == counts[..n - 1] + [counts[n - 1]];
      SumSnoc(counts[..n - 1], counts[n - 1]);
      var mid := End(last, step, resolution, n - 2);
      assert mid == Begin(first, step, n - 1);
      EdgesIncrease(first, last, resolution, n - 1);
      EdgesIncrease(first, last, resolution, n - 2);
      MassSplit(db, db.Keys, first as real, mid, End(last, step, resolution, n - 1), true);
    }
  }

  /** Adjacent buckets share their edge, so the buckets together count every
      marker of `[first, last]` once: their sum is the mass of that range. */
  lemma BucketsSum(db: map<int, nat>, first: int, last: int, resolution: int)
    requires resolution >= 1 && first < last
    ensures Sum(Buckets(db, first, last, resolution)) == Mass(db, db.Keys, first as real, last as real, true)
  {
    var counts := Buckets(db, first, last, resolution);
    BucketsPrefixSum(db, first, last, resolution, resolution);
    assert counts[..resolution] == counts;
    EdgesMeet(first, last, resolution);
  }

  /** A marker of `[first, last]` lies in some bucket. */
  lemma {:induction false} MarkerInSomeBucket(k: int, first: int, last: int, resolution: int, n: nat)
    requires resolution >= 1 && first < last
    requires 1 <= n <= resolution
    requires first as real <= k as real <= End(last, Timestep(first, last, resolution), resolution, n - 1)
    ensures exists i :: 0 <= i < n && InBucketAt(k, first, last, resolution, i)
  {
    var step := Timestep(first, last, resolution);
    EdgesMeet(first, last, resolution);
    if n == 1 {
      assert InBucketAt(k, first, last, resolution, 0);
    } else if k as real <= End(last, step, resolution, n - 2) {
      MarkerInSomeBucket(k, first, last, resolution, n - 1);
    } else {
      assert InBucketAt(k, first, last, resolution, n - 1);
    }
  }

  /** Every marker of `[first, last]` is counted in exactly one bucket, and a
      marker outside it in none. */
  lemma BucketsPartitionRange(k: int, first: int, last: int, resolution: int)
    requires resolution >= 1 && first < last
    ensures first <= k <= last ==> exists i :: 0 <= i < resolution && InBucketAt(k, first, last, resolution, i)
    ensures forall i, j ::
              (0 <= i < resolution && 0 <= j < resolution &&
               InBucketAt(k, first, last, resolution, i) && InBucketAt(k, first, last, resolution, j)) ==> i == j
    ensures k < first || last < k ==> forall i :: 0 <= i < resolution ==> !InBucketAt(k, first, last, resolution, i)
  {
    var step := Timestep(first, last, resolution);
    EdgesMeet(first, last, resolution);
    if first <= k <= last {
      MarkerInSomeBucket(k, first, last, resolution, resolution);
    }
    forall i, j | 0 <= i < j < resolution && InBucketAt(k, first, last, resolution, i)
      ensures !InBucketAt(k, first, last, resolution, j)
    {
      EdgesAscend(first, last, resolution, i + 1, j);
    }
    forall i | 0 <= i < resolution
      ensures k < first || last < k ==> !InBucketAt(k, first, last, resolution, i)
    {
      EdgesIncrease(first, last, resolution, i);
    }
  }

  /** Left edges only grow. */
  lemma EdgesAscend(first: int, last: int, resolution: int, i: int, j: int)
    requires resolution >= 1 && first != last
    requires i <= j
    ensures Begin(first, Timestep(first, last, resolution), i) <= Begin(first, Timestep(first, last, resolution), j)
  {
  }

  /** With `first > last` (inverted bounds) every bucket begins above its end,
      so every bucket is empty. */
  lemma InvertedBucketsEmpty(db: map<int, nat>, first: int, last: int, resolution: int)
    requires resolution >= 1 && last < first
    ensures forall i :: 0 <= i < resolution ==>
              Begin(first, Timestep(first, last, resolution), i) > End(last, Timestep(first, last, resolution), resolution, i)
    ensures Buckets(db, first, last, resolution) == Zeros(resolution)
  {
    var step := Timestep(first, last, resolution);
    assert step > 0.0;
    forall i | 0 <= i < resolution
      ensures Begin(first, step, i) > End(last, step, resolution, i)
      ensures Bucket(db, first, last, resolution, i) == 0
    {
      var b, e := Begin(first, step, i), End(last, step, resolution, i);
      assert b - e == (first - last) as real + (resolution - 1) as real * step;
      assert (resolution - 1) as real * step >= 0.0;
      MassOfEmptyInterval(db, db.Keys, b, e, i == 0);
    }
  }
}
