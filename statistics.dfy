/** The statistics engine, `calculateStats`: mean, median and the
    population variance from which the standard deviation is taken. */
module Statistics {
  import opened RealSeq
  import Sorting

  /** Arithmetic mean: the sum divided by the element count. */
  function Mean(s: seq<real>): real
    requires s != []
  {
    Sum(s) / |s| as real
  }

  /** Median of a sorted buffer: the central element for an odd length, the
      average of the two central elements for an even one. */
  function Median(sorted: seq<real>): real
    requires sorted != []
  {
    var n := |sorted|;
    if n % 2 == 0 then (sorted[n / 2 - 1] + sorted[n / 2]) / 2.0 else sorted[n / 2]
  }

  /** E[x^2] - mean^2: the value whose square root is the reported standard
      deviation. */
  function Variance(s: seq<real>): real
    requires s != []
  {
    SumSquares(s) / |s| as real - Mean(s) * Mean(s)
  }

  /** `std::accumulate(data, 0.0)`: left-to-right sum. */
  method Accumulate(data: seq<real>) returns (sum: real)
    ensures sum == Sum(data)
  {
    sum := 0.0;
    var i := 0;
    while i < |data|
      invariant 0 <= i <= |data|
      invariant sum == Sum(data[..i])
    {
      assert data[..i + 1][..i] == data[..i];
      sum := sum + data[i];
      i := i + 1;
    }
    assert data[..|data|] == data;
  }

  /** `std::inner_product(data, data, 0.0)`: left-to-right sum of squares. */
  method InnerProductSelf(data: seq<real>) returns (sqSum: real)
    ensures sqSum == SumSquares(data)
  {
    sqSum := 0.0;
    var i := 0;
    while i < |data|
      invariant 0 <= i <= |data|
      invariant sqSum == SumSquares(data[..i])
    {
      assert data[..i + 1][..i] == data[..i];
      sqSum := sqSum + data[i] * data[i];
      i := i + 1;
    }
    assert data[..|data|] == data;
  }

  /** Median of a sorted copy of `data` (the copy is sorted in place). */
  method SortedMedian(data: seq<real>) returns (median: real)
    requires data != []
    ensures median == Median(SortedCopy(data))
  {
    var sorted := new real[|data|](k requires 0 <= k < |data| => data[k]);
    assert sorted[..] == data;
    Sorting.SortInPlace(sorted);
    var n := sorted.Length;
    if n % 2 == 0 {
      median := (sorted[n / 2 - 1] + sorted[n / 2]) / 2.0;
    } else {
      median := sorted[n / 2];
    }
    assert median == Median(sorted[..]);
  }

  /** `calculateStats`: [mean, median, variance]; [0, 0, 0] for an empty
      buffer. One pass for the sum, a sorted copy for the median, one pass
      for the sum of squares. */
  method CalculateStats(data: seq<real>) returns (r: seq<real>)
    ensures |r| == 3
    ensures data == [] ==> r == [0.0, 0.0, 0.0]
    ensures data != [] ==> r[0] == Mean(data) && r[1] == Median(SortedCopy(data)) && r[2] == Variance(data)
  {
    if |data| == 0 {
      return [0.0, 0.0, 0.0];
    }

    var sum := Accumulate(data);
    var mean := sum / |data| as real;
    assert mean == Mean(data);

    var median := SortedMedian(data);

    var sqSum := InnerProductSelf(data);
    var variance := sqSum / |data| as real - mean * mean;
    VarianceFromMoments(data, sqSum, mean);

    r := [mean, median, variance];
  }

  lemma VarianceFromMoments(data: seq<real>, sqSum: real, mean: real)
    requires data != []
    requires sqSum == SumSquares(data) && mean == Mean(data)
    ensures sqSum / |data| as real - mean * mean == Variance(data)
  {
  }

  /** The median lies between the minimum and the maximum. */
  lemma MedianBetweenMinMax(s: seq<real>, lo: real, hi: real)
    requires s != []
    requires IsMin(lo, s) && IsMax(hi, s)
    ensures lo <= Median(SortedCopy(s)) <= hi
  {
    var sorted := SortedCopy(s);
    var n := |s|;
    SortedEnds(sorted, s);
    assert sorted[n / 2] in multiset(s);
    if n % 2 == 0 {
      assert sorted[n / 2 - 1] in multiset(s);
    }
  }

  /** Sorting preserves the mean (and the sum). */
  lemma MeanOfSortedCopy(s: seq<real>)
    requires s != []
    ensures Mean(SortedCopy(s)) == Mean(s)
  {
    SumPermutation(SortedCopy(s), s);
  }

  /** In exact arithmetic E[x^2] - mean^2 is the mean squared deviation, so
      it is never negative and its square root is always defined. */
  lemma VarianceIsMeanSquaredDeviation(s: seq<real>)
    requires s != []
    ensures Variance(s) == SquaredDeviations(s, Mean(s)) / |s| as real
    ensures Variance(s) >= 0.0
  {
    VarianceAsDeviations(s);
    SquaredDeviationsNonNegative(s, Mean(s));
    QuotientNonNegative(SquaredDeviations(s, Mean(s)), |s| as real);
  }

  lemma VarianceAsDeviations(s: seq<real>)
    requires s != []
    ensures Variance(s) == SquaredDeviations(s, Mean(s)) / |s| as real
  {
    var n, m := |s| as real, Mean(s);
    VarianceFromMoments(s, SumSquares(s), m);
    MeanTimesCount(s);
    DeviationsIdentity(s, n, m);
    DivideIdentity(SumSquares(s), SquaredDeviations(s, m), n, m);
  }

  /** With m n = sum(s): sum (x - m)^2 == sum x^2 - n m^2. */
  lemma DeviationsIdentity(s: seq<real>, n: real, m: real)
    requires n == |s| as real && m * n == Sum(s)
    ensures SumSquares(s) - n * (m * m) == SquaredDeviations(s, m)
  {
    SquaredDeviationsExpand(s, m);
    CenteredMoment(n, m, Sum(s), SumSquares(s), SquaredDeviations(s, m));
  }

  lemma MeanTimesCount(s: seq<real>)
    requires s != []
    ensures Mean(s) * |s| as real == Sum(s)
  {
    QuotientTimesDivisor(Sum(s), |s| as real);
  }

  lemma QuotientTimesDivisor(t: real, n: real)
    requires n > 0.0
    ensures t / n * n == t
  {
  }

  lemma QuotientNonNegative(d: real, n: real)
    requires d >= 0.0 && n > 0.0
    ensures d / n >= 0.0
  {
  }

  /** The algebra behind `VarianceIsMeanSquaredDeviation`, on plain numbers:
      with t = m n, q - 2 m t + n m^2 == q - n m^2. */
  lemma CenteredMoment(n: real, m: real, t: real, q: real, d: real)
    requires m * n == t
    requires d == q - 2.0 * (m * t) + n * (m * m)
    ensures q - n * (m * m) == d
  {
    assert m * t == n * (m * m);
  }

  /** Dividing q - n m^2 == d through by n. */
  lemma DivideIdentity(q: real, d: real, n: real, m: real)
    requires n > 0.0 && q - n * (m * m) == d
    ensures q / n - m * m == d / n
  {
    assert d / n == q / n - n * (m * m) / n;
  }

  /** A buffer of copies of `c` has mean `c`, median `c` and variance 0. */
  lemma ConstantStats(s: seq<real>, c: real)
    requires s != []
    requires forall i :: 0 <= i < |s| ==> s[i] == c
    ensures Mean(s) == c
    ensures Median(SortedCopy(s)) == c
    ensures Variance(s) == 0.0
  {
    ConstantMean(s, c);
    ConstantVariance(s, c);
    ConstantMedian(s, c);
  }

  lemma ConstantMean(s: seq<real>, c: real)
    requires s != []
    requires forall i :: 0 <= i < |s| ==> s[i] == c
    ensures Mean(s) == c
  {
    ConstantMoments(s, c);
  }

  lemma ConstantVariance(s: seq<real>, c: real)
    requires s != []
    requires forall i :: 0 <= i < |s| ==> s[i] == c
    ensures Variance(s) == 0.0
  {
    ConstantMoments(s, c);
    VarianceFromMoments(s, SumSquares(s), c);
    assert SumSquares(s) / |s| as real - c * c == 0.0;
  }

  lemma ConstantMedian(s: seq<real>, c: real)
    requires s != []
    requires forall i :: 0 <= i < |s| ==> s[i] == c
    ensures Median(SortedCopy(s)) == c
  {
    ConstantIsSorted(s, c);
    ConstantMiddle(s, c);
  }

  /** A constant buffer is its own sorted copy. */
  lemma ConstantIsSorted(s: seq<real>, c: real)
    requires forall i :: 0 <= i < |s| ==> s[i] == c
    ensures SortedCopy(s) == s
  {
    assert Sorted(s);
    SortedUnique(s, SortedCopy(s));
  }

  lemma ConstantMiddle(s: seq<real>, c: real)
    requires s != []
    requires forall i :: 0 <= i < |s| ==> s[i] == c
    ensures Median(s) == c
  {
    var n := |s|;
    var h := n / 2;
    assert 0 <= h < n;
    assert s[h] == c;
    if n % 2 == 0 {
      assert 0 <= h - 1;
      assert s[h - 1] == c;
      assert Median(s) == (c + c) / 2.0;
    }
  }

  /** First and second moments of a constant buffer. */
  lemma ConstantMoments(s: seq<real>, c: real)
    requires s != []
    requires forall i :: 0 <= i < |s| ==> s[i] == c
    ensures Sum(s) / |s| as real == c
    ensures SumSquares(s) / |s| as real == c * c
  {
    SumConstant(s, c);
    var n := |s| as real;
    DivideProduct(n, c, Sum(s));
    DivideProduct(n, c * c, SumSquares(s));
  }
}
