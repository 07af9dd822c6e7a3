/** The "greedy ceiling" rule that spreads the multiplicity of a single point
    over the buckets of a zero-width histogram (histograph.py:37-44): bucket
    `i` of `n` takes the ceiling of what is left divided by the number of
    buckets still to fill. */
module Greedy {
  import opened Markers

  /** The ceiling of `a / b`, Python's `math.ceil(a / b)` taken exactly. */
  function CeilDiv(a: int, b: int): (c: int)
    requires b > 0
    ensures (c - 1) * b < a <= c * b
  {
    if a % b == 0 then a / b else a / b + 1
  }

  /** A share never exceeds what is left to share, and is never negative. */
  lemma ChunkFits(total: nat, parts: nat)
    requires parts >= 1
    ensures 0 <= CeilDiv(total, parts) <= total
  {
  }

  /** The shares of `total` over `parts` buckets, front to back. */
  function GreedySplit(total: nat, parts: nat): (chunks: seq<nat>)
    ensures |chunks| == parts
    decreases parts
  {
    if parts == 0 then []
    else
      ChunkFits(total, parts);
      var chunk := CeilDiv(total, parts);
      [chunk] + GreedySplit(total - chunk, parts - 1)
  }

  /** A positive multiple of `b` is at least `b`. */
  lemma MultipleAtLeast(k: int, b: int)
    requires k >= 1 && b > 0
    ensures k * b >= b
  {
  }

  /** Division with remainder has only one answer. */
  lemma DivModUnique(a: int, b: int, q: int, r: int)
    requires b > 0
    requires a == q * b + r && 0 <= r < b
    ensures a / b == q && a % b == r
  {
    var q', r' := a / b, a % b;
    assert a == q' * b + r';
    assert (q' - q) * b == q' * b - q * b;
    assert (q' - q) * b == r - r';
    if q' > q {
      MultipleAtLeast(q' - q, b);
    } else if q' < q {
      MultipleAtLeast(q - q', b);
    }
  }

  /** What is left after the first share of `total` over `n >= 2` buckets has
      quotient and remainder one step along: the same quotient, and one unit of
      surplus fewer when there was any. */
  lemma {:induction false} RestAfterFirstChunk(total: nat, n: nat)
    requires n >= 2
    ensures (total - CeilDiv(total, n)) / (n - 1) == total / n
    ensures (total - CeilDiv(total, n)) % (n - 1) == if total % n == 0 then 0 else total % n - 1
  {
    var q, r := total / n, total % n;
    var rest := total - CeilDiv(total, n);
    if r == 0 {
      assert rest == q * (n - 1) + 0;
      DivModUnique(rest, n - 1, q, 0);
    } else {
      assert rest == q * (n - 1) + (r - 1);
      DivModUnique(rest, n - 1, q, r - 1);
    }
  }

  /** The shares add up to what was shared: nothing is lost or invented. */
  lemma {:induction false} GreedySplitSum(total: nat, parts: nat)
    requires parts >= 1
    ensures Sum(GreedySplit(total, parts)) == total
    decreases parts
  {
    ChunkFits(total, parts);
    var chunk := CeilDiv(total, parts);
    var s := GreedySplit(total, parts);
    assert s[1..] == GreedySplit(total - chunk, parts - 1);
    if parts == 1 {
      assert chunk == total;
    } else {
      GreedySplitSum(total - chunk, parts - 1);
    }
  }

  /** Shares of exactly nothing are all zero. */
  lemma {:induction false} GreedySplitOfZero(parts: nat)
    ensures GreedySplit(0, parts) == Zeros(parts)
    decreases parts
  {
    if parts > 0 {
      assert CeilDiv(0, parts) == 0;
      GreedySplitOfZero(parts - 1);
      assert GreedySplit(0, parts) == [0] + Zeros(parts - 1);
    }
  }

  /** The exact shape of the split: every bucket holds `total / parts`, and the
      first `total % parts` buckets hold one more, so the surplus sits at the
      front. */
  lemma {:induction false} GreedySplitFrontLoads(total: nat, parts: nat)
    requires parts >= 1
    ensures forall i :: 0 <= i < parts ==>
      GreedySplit(total, parts)[i] == total / parts + (if i < total % parts then 1 else 0)
    decreases parts
  {
    ChunkFits(total, parts);
    var chunk := CeilDiv(total, parts);
    var s := GreedySplit(total, parts);
    var rest := total - chunk;
    assert s[0] == chunk;
    assert forall i :: 1 <= i < parts ==> s[i] == GreedySplit(rest, parts - 1)[i - 1];
    if parts >= 2 {
      RestAfterFirstChunk(total, parts);
      GreedySplitFrontLoads(rest, parts - 1);
    }
  }

  /** Shares never grow from one bucket to the next, and any two differ by at
      most one. */
  lemma GreedySplitBalanced(total: nat, parts: nat)
    requires parts >= 1
    ensures forall i, j :: 0 <= i <= j < parts ==> GreedySplit(total, parts)[j] <= GreedySplit(total, parts)[i]
    ensures forall i, j :: 0 <= i < parts && 0 <= j < parts ==> GreedySplit(total, parts)[i] <= GreedySplit(total, parts)[j] + 1
    ensures forall i :: 0 <= i < parts ==> total / parts <= GreedySplit(total, parts)[i] <= CeilDiv(total, parts)
  {
    GreedySplitFrontLoads(total, parts);
  }
}
