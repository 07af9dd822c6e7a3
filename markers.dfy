/** Sums of marker multiplicities: the sum of a list of bucket counts, and the
    total multiplicity of the markers of a store that fall in an interval. The
    store is a map from marker to multiplicity; a sum over its keys visits them
    in ascending order, which is one fixed order among the many a dictionary may
    have and gives the same total as any of them. */
module Markers {

  /** The sum of a list of counts, Python's `sum`. */
  function Sum(s: seq<nat>): nat
  {
    if s == [] then 0 else s[0] + Sum(s[1..])
  }

  /** `n` zero counts. */
  function Zeros(n: nat): seq<nat>
  {
    seq(n, _ => 0)
  }

  /** Zero counts add up to zero. */
  lemma {:induction false} ZerosSumToZero(n: nat)
    ensures Sum(Zeros(n)) == 0
  {
    if n > 0 {
      assert Zeros(n)[1..] == Zeros(n - 1);
      ZerosSumToZero(n - 1);
    }
  }

  lemma {:induction false} SumSnoc(s: seq<nat>, x: nat)
    ensures Sum(s + [x]) == Sum(s) + x
  {
    if s == [] {
      assert s + [x] == [x];
    } else {
      assert (s + [x])[1..] == s[1..] + [x];
      SumSnoc(s[1..], x);
    }
  }

  /** Every finite non-empty set of markers has a least element. */
  lemma {:induction false} HasLeast(s: set<int>)
    requires s != {}
    ensures exists m :: m in s && forall j :: j in s ==> m <= j
  {
    if forall y :: y !in s {
      assert false;
    }
    var x :| x in s;
    if s != {x} {
      HasLeast(s - {x});
      var m :| m in s - {x} && forall j :: j in s - {x} ==> m <= j;
      var least := if x < m then x else m;
      forall j | j in s
        ensures least <= j
      {
        if j != x {
          assert j in s - {x};
        }
      }
      assert least in s;
    }
  }

  /** The least marker of a non-empty set. */
  function Least(s: set<int>): (m: int)
    requires s != {}
    ensures m in s
    ensures forall j :: j in s ==> m <= j
  {
    HasLeast(s);
    var m :| m in s && forall j :: j in s ==> m <= j;
    m
  }

  /** Whether marker `k` lies in the bucket from `lo` to `hi`: always closed on
      the right, and closed on the left only when `closedLeft` holds. */
  predicate InBucket(k: int, lo: real, hi: real, closedLeft: bool)
  {
    (if closedLeft then lo <= k as real else lo < k as real) && k as real <= hi
  }

  /** The summed multiplicity of the markers in `keys` that lie in the bucket
      from `lo` to `hi`; never more than all of them together. */
  function Mass(db: map<int, nat>, keys: set<int>, lo: real, hi: real, closedLeft: bool): (m: nat)
    requires keys <= db.Keys
    ensures m <= Total(db, keys)
    decreases keys
  {
    if keys == {} then 0
    else
      var k := Least(keys);
      (if InBucket(k, lo, hi, closedLeft) then db[k] else 0) + Mass(db, keys - {k}, lo, hi, closedLeft)
  }

  /** The summed multiplicity of all markers in `keys`. */
  function Total(db: map<int, nat>, keys: set<int>): nat
    requires keys <= db.Keys
    decreases keys
  {
    if keys == {} then 0
    else
      var k := Least(keys);
      db[k] + Total(db, keys - {k})
  }

  /** Splitting an interval at `mid` into the part up to `mid` and the part
      strictly after it splits its mass: no marker is lost and none is counted
      twice. */
  lemma {:induction false} MassSplit(db: map<int, nat>, keys: set<int>, lo: real, mid: real, hi: real, closedLeft: bool)
    requires keys <= db.Keys
    requires lo <= mid <= hi
    ensures Mass(db, keys, lo, mid, closedLeft) + Mass(db, keys, mid, hi, false) == Mass(db, keys, lo, hi, closedLeft)
    decreases keys
  {
    if keys != {} {
      MassSplit(db, keys - {Least(keys)}, lo, mid, hi, closedLeft);
    }
  }

  /** An interval whose left end exceeds its right end holds no marker. */
  lemma {:induction false} MassOfEmptyInterval(db: map<int, nat>, keys: set<int>, lo: real, hi: real, closedLeft: bool)
    requires keys <= db.Keys
    requires hi < lo
    ensures Mass(db, keys, lo, hi, closedLeft) == 0
    decreases keys
  {
    if keys != {} {
      MassOfEmptyInterval(db, keys - {Least(keys)}, lo, hi, closedLeft);
    }
  }

  /** A closed interval that holds every marker of `keys` has their total mass. */
  lemma {:induction false} MassOfCoveringInterval(db: map<int, nat>, keys: set<int>, lo: real, hi: real)
    requires keys <= db.Keys
    requires forall k :: k in keys ==> lo <= k as real <= hi
    ensures Mass(db, keys, lo, hi, true) == Total(db, keys)
    decreases keys
  {
    if keys != {} {
      MassOfCoveringInterval(db, keys - {Least(keys)}, lo, hi);
    }
  }

  /** The closed interval `[x, x]` holds exactly the multiplicity of marker `x`. */
  lemma {:induction false} MassOfPoint(db: map<int, nat>, keys: set<int>, x: int)
    requires keys <= db.Keys
    ensures Mass(db, keys, x as real, x as real, true) == if x in keys then db[x] else 0
    decreases keys
  {
    if keys != {} {
      MassOfPoint(db, keys - {Least(keys)}, x);
    }
  }
}
