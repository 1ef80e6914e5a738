/** The percentile engine, `calculate_percentiles`: for each rank
    p = 0, 5, ..., 100 it picks one element of the sorted copy, at the index
    p * (N - 1) / 100 truncated toward zero (no interpolation). */
module Percentiles {
  import opened RealSeq
  import Sorting

  /** Number of ranks: 0, 5, ..., 100. */
  const RankCount: nat := 21

  /** Index picked for rank `p` in a sorted buffer of `n` elements; it is
      always within the buffer. */
  function RankIndex(p: nat, n: nat): (idx: nat)
    requires p <= 100 && n >= 1
    ensures idx <= n - 1
  {
    assert p * (n - 1) <= 100 * (n - 1);
    p * (n - 1) / 100
  }

  /** Rank 0 picks the first element and rank 100 the last. */
  lemma RankIndexEnds(n: nat)
    requires n >= 1
    ensures RankIndex(0, n) == 0
    ensures RankIndex(100, n) == n - 1
  {
  }

  /** A higher rank never picks a lower index. */
  lemma RankIndexMonotone(p: nat, q: nat, n: nat)
    requires p <= q <= 100 && n >= 1
    ensures RankIndex(p, n) <= RankIndex(q, n)
  {
    var x, y := p * (n - 1), q * (n - 1);
    assert x <= y;
    assert x == 100 * (x / 100) + x % 100;
    assert y == 100 * (y / 100) + y % 100;
  }

  /** The percentile set of a buffer: empty for an empty buffer, otherwise
      the sorted copy read at the 21 rank indices. */
  function PercentileSet(data: seq<real>): (r: seq<real>)
    ensures |r| == if data == [] then 0 else RankCount
  {
    if data == [] then []
    else
      var sorted := SortedCopy(data);
      seq(RankCount, k requires 0 <= k < RankCount =>
        sorted[RankIndex(5 * k, |data|)])
  }

  /** `calculate_percentiles`: an empty result for an empty buffer, else 21
      values, the one for rank 5k read from the sorted copy at RankIndex. */
  method CalculatePercentiles(data: seq<real>) returns (r: seq<real>)
    ensures data == [] ==> r == []
    ensures data != [] ==> |r| == RankCount
    ensures data != [] ==> forall k :: 0 <= k < RankCount ==>
      r[k] == SortedCopy(data)[RankIndex(5 * k, |data|)]
    ensures r == PercentileSet(data)
  {
    if |data| == 0 {
      return [];
    }
    var sorted := new real[|data|](i requires 0 <= i < |data| => data[i]);
    assert sorted[..] == data;
    Sorting.SortInPlace(sorted);
    r := PickRanks(sorted);
    assert sorted[..] == SortedCopy(data);
  }

  /** The loop over p = 0, 5, ..., 100 reading a sorted, non-empty buffer
      at each rank's index. */
  method PickRanks(sorted: array<real>) returns (r: seq<real>)
    requires sorted.Length >= 1
    ensures |r| == RankCount
    ensures forall k :: 0 <= k < RankCount ==> r[k] == sorted[RankIndex(5 * k, sorted.Length)]
  {
    var n := sorted.Length;
    r := [];
    var p := 0;
    while p <= 100
      invariant p == 5 * |r| && |r| <= RankCount
      invariant forall k :: 0 <= k < |r| ==> r[k] == sorted[RankIndex(5 * k, n)]
    {
      var idx := p * (n - 1) / 100;
      assert idx == RankIndex(p, n);
      r := r + [sorted[idx]];
      p := p + 5;
    }
  }

  /** The first percentile is the minimum and the last the maximum. */
  lemma PercentileSetEnds(data: seq<real>)
    requires data != []
    ensures IsMin(PercentileSet(data)[0], data)
    ensures IsMax(PercentileSet(data)[RankCount - 1], data)
  {
    var n := |data|;
    var sorted := SortedCopy(data);
    var r := PercentileSet(data);
    SortedEnds(sorted, data);
    RankIndexEnds(n);
    assert r[0] == sorted[RankIndex(0, n)];
    assert r[RankCount - 1] == sorted[RankIndex(100, n)];
  }

  /** The percentiles are non-decreasing. */
  lemma PercentileSetSorted(data: seq<real>)
    requires data != []
    ensures Sorted(PercentileSet(data))
  {
    forall i, j | 0 <= i < j < RankCount
      ensures PercentileSet(data)[i] <= PercentileSet(data)[j]
    {
      PercentilePairOrdered(data, i, j);
    }
  }

  /** A lower rank never reads a larger value than a higher rank. */
  lemma PercentilePairOrdered(data: seq<real>, i: nat, j: nat)
    requires data != [] && i < j < RankCount
    ensures PercentileSet(data)[i] <= PercentileSet(data)[j]
  {
    var n := |data|;
    RankIndexMonotone(5 * i, 5 * j, n);
    SortedPick(SortedCopy(data), RankIndex(5 * i, n), RankIndex(5 * j, n));
  }

  /** A sorted buffer read at a lower index gives no larger value. */
  lemma SortedPick(sorted: seq<real>, a: nat, b: nat)
    requires Sorted(sorted) && a <= b < |sorted|
    ensures sorted[a] <= sorted[b]
  {
  }
}
