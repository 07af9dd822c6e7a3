/** A histogram over a multiset of integer markers (histograph.py). The store
    maps each marker to how many times it was added and keeps the least and the
    greatest marker added so far; a histogram of `resolution` buckets is taken
    over the store's range or over bounds given by the caller. */
module Histograph {
  import opened Wrappers
  import opened Markers
  import opened Greedy
  import opened Bucketing

  /** The one failure of the histogram: a resolution below 1. */
  datatype Error = InvalidResolution

  /** How many times `marker` was added, Python's `db.get(marker, 0)`. */
  function Count(db: map<int, nat>, marker: int): nat
  {
    if marker in db then db[marker] else 0
  }

  /** The store's invariant: the extremes are absent exactly when no marker was
      added; otherwise they are the least and the greatest marker of the store,
      and every stored multiplicity is positive. */
  predicate StoreInvariant(db: map<int, nat>, first: Option<int>, last: Option<int>)
  {
    && (first.None? <==> last.None?)
    && (first.None? <==> db == map[])
    && (first.Some? ==>
          && first.value in db && last.value in db
          && first.value <= last.value
          && forall k :: k in db ==> first.value <= k <= last.value)
    && forall k :: k in db ==> db[k] >= 1
  }

  /** The new least marker after adding `marker`: `min(first, marker)`, or
      `marker` when there was none. */
  function Lower(first: Option<int>, marker: int): (l: int)
    ensures l <= marker && (first.Some? ==> l <= first.value)
    ensures l == marker || (first.Some? && l == first.value)
  {
    if first.None? then marker else if marker < first.value then marker else first.value
  }

  /** The new greatest marker after adding `marker`: `max(last, marker)`, or
      `marker` when there was none. */
  function Upper(last: Option<int>, marker: int): (u: int)
    ensures marker <= u && (last.Some? ==> last.value <= u)
    ensures u == marker || (last.Some? && u == last.value)
  {
    if last.None? then marker else if last.value < marker then marker else last.value
  }

  /** Adding a marker keeps the store's invariant. */
  lemma AddKeepsInvariant(db: map<int, nat>, first: Option<int>, last: Option<int>, marker: int)
    requires StoreInvariant(db, first, last)
    ensures StoreInvariant(db[marker := Count(db, marker) + 1], Some(Lower(first, marker)), Some(Upper(last, marker)))
  {
  }

  /** The bound the histogram uses: the caller's when given, else the store's. */
  function EffectiveBound(given: Option<int>, stored: Option<int>): Option<int>
  {
    if given.Some? then given else stored
  }

  /** The histogram the source computes (histograph.py:25-59), on the store's
      values: an error for a resolution below 1; zeros when a bound is missing;
      the greedy split of the point's multiplicity when the range has zero
      width; the equal-width buckets otherwise. */
  function Histogram(db: map<int, nat>, first: Option<int>, last: Option<int>,
                     resolution: int, firstArg: Option<int>, lastArg: Option<int>): Result<seq<nat>, Error>
  {
    if resolution < 1 then Err(InvalidResolution)
    else
      var lo, hi := EffectiveBound(firstArg, first), EffectiveBound(lastArg, last);
      if lo.None? || hi.None? then Ok(Zeros(resolution))
      else if Abs(hi.value - lo.value) == 0 then Ok(GreedySplit(Count(db, lo.value), resolution))
      else Ok(Buckets(db, lo.value, hi.value, resolution))
  }

  /** The marker store with its histogram. */
  class Histograph {
    var db: map<int, nat>
    var first: Option<int>
    var last: Option<int>

    ghost predicate Valid()
      reads this
    {
      StoreInvariant(db, first, last)
    }

    /** An empty store. */
    constructor ()
      ensures Valid()
      ensures db == map[] && first == None && last == None
    {
      db := map[];
      first := None;
      last := None;
    }

    /** Records one more occurrence of `marker` and widens the range to hold it. */
    method AddMarker(marker: int)
      modifies this
      ensures db == old(db)[marker := Count(old(db), marker) + 1]
      ensures forall k :: Count(db, k) == Count(old(db), k) + (if k == marker then 1 else 0)
      ensures db.Keys == old(db).Keys + {marker}
      ensures first == Some(Lower(old(first), marker)) && last == Some(Upper(old(last), marker))
      ensures old(first).Some? ==> first.value <= old(first).value
      ensures old(last).Some? ==> old(last).value <= last.value
      ensures old(Valid()) ==> Valid()
    {
      ghost var wasValid := Valid();
      if wasValid {
        AddKeepsInvariant(db, first, last, marker);
      }
      db := db[marker := Count(db, marker) + 1];
      first := Some(Lower(first, marker));
      last := Some(Upper(last, marker));
    }

    /** The least and the greatest marker added, both absent when none was. */
    method GetTimespan() returns (lo: Option<int>, hi: Option<int>)
      ensures lo == first && hi == last
      ensures Valid() ==> (lo.None? <==> db == map[]) && (hi.None? <==> db == map[])
      ensures Valid() && lo.Some? ==> lo.value in db && forall k :: k in db ==> lo.value <= k
      ensures Valid() && hi.Some? ==> hi.value in db && forall k :: k in db ==> k <= hi.value
    {
      lo, hi := first, last;
    }

    /** The histogram of the store in `resolution` buckets over the range from
        `firstArg` (or the least marker) to `lastArg` (or the greatest). It
        changes nothing: it has no `modifies` clause. */
    method GetHistogram(resolution: int := 10, firstArg: Option<int> := None, lastArg: Option<int> := None)
      returns (r: Result<seq<nat>, Error>)
      ensures r == Histogram(db, first, last, resolution, firstArg, lastArg)
    {
      if resolution < 1 {
        return Err(InvalidResolution);
      }
      var lo := if firstArg.Some? then firstArg else first;
      var hi := if lastArg.Some? then lastArg else last;
      if lo.None? || hi.None? {
        return Ok(Zeros(resolution));
      }
      var f, l := lo.value, hi.value;
      var timespan := Abs(l - f);
      var counts;
      if timespan == 0 {
        // the range is a single point: share its multiplicity among the buckets
        counts := SplitPoint(Count(db, f), resolution);
      } else {
        counts := CountBuckets(resolution, f, l);
      }
      return Ok(counts);
    }

    /** The counts of the `resolution` equal-width buckets from `f` to `l`
        (histograph.py:47-59). */
    method CountBuckets(resolution: int, f: int, l: int) returns (result: seq<nat>)
      requires resolution >= 1
      ensures result == Buckets(db, f, l, resolution)
    {
      var timestep := Abs(l - f) as real / resolution as real;
      result := [];
      for index := 0 to resolution
        invariant |result| == index
        invariant forall j :: 0 <= j < index ==> result[j] == Bucket(db, f, l, resolution, j)
      {
        var begin := f as real + index as real * timestep;
        var end := l as real - (resolution - (index + 1)) as real * timestep;
        assert timestep == Timestep(f, l, resolution);
        assert begin == Begin(f, timestep, index) && end == End(l, timestep, resolution, index);
        var value;
        if index == 0 {
          // the first bucket also holds the marker on its left edge
          value := Mass(db, db.Keys, begin, end, true);
        } else {
          value := Mass(db, db.Keys, begin, end, false);
        }
        result := result + [value];
      }
    }
  }

  /** Shares `total` among `resolution` buckets by the greedy ceiling rule
      (histograph.py:39-44): each bucket takes the ceiling of what is left over
      the number of buckets still to fill. */
  method SplitPoint(total: nat, resolution: int) returns (result: seq<nat>)
    requires resolution >= 1
    ensures result == GreedySplit(total, resolution)
  {
    var left: nat := total;
    result := [];
    for index := 0 to resolution
      invariant result + GreedySplit(left, resolution - index) == GreedySplit(total, resolution)
    {
      ChunkFits(left, resolution - index);
      var chunk := CeilDiv(left, resolution - index);
      left := left - chunk;
      result := result + [chunk];
    }
    assert result + [] == result;
  }
}
