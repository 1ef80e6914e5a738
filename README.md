# DataProcessor core in Dafny

This project models the `DataProcessor` class of the C++ data-processing
library (`DataProcessor.cpp`). The class is exposed to Python and holds no
state. Each of its operations is a loop over a buffer of doubles or over a
caller-supplied callback:

- `calculateStats`: mean, median and standard deviation.
- `transform` and `filter`.
- `sort_data`.
- `calculate_percentiles`: 21 fixed ranks, 0, 5, ..., 100.
- `calculate_rolling_mean`: a causal windowed mean.
- `integrate_rectangle` (midpoint rule), `integrate_trapezoid` and `integrate_simpson`.
- `sum_series` and `product_series`.

Each operation is a Dafny `method` that follows the C++ loop step by step.
Where the C++ writes `result[i] = ...` or sorts a copied vector in place,
the model uses an `array`; where it accumulates or calls `push_back`, the
model uses a running value or a `seq`. Every method is proved against a
specification function, and lemmas prove what the library promises about
those functions. A buffer of doubles is a `seq<real>`, so arithmetic is
exact. A callback is a total Dafny function, `real -> real` for the
integrators and `int -> real` for the series. Every integrator and series
method also returns the sequence of arguments it passed to the callback, in
call order, so the number of callback calls is the length of that sequence.

Modules:

- `RealSeq` (`real_seq.dfy`): the specification functions that several
  operations share: left-to-right `Sum` and `SumSquares`, `Sorted`, and
  `SortedCopy`, the sorted permutation of a buffer. Also their lemmas:
  the sorted permutation is unique, and the sum is invariant under
  permutation.
- `Sorting` (`sorting.dfy`): an in-place sort standing in for `std::sort`,
  and `sort_data`.
- `Statistics` (`statistics.dfy`): `calculateStats`.
- `Elementwise` (`elementwise.dfy`): `transform` and `filter`.
- `Percentiles` (`percentiles.dfy`): `calculate_percentiles`.
- `RollingMean` (`rolling_mean.dfy`): `calculate_rolling_mean`.
- `Quadrature` (`quadrature.dfy`): the three integration rules.
- `Series` (`series.dfy`): `sum_series` and `product_series`.

Behaviours of the code a caller may not expect; the model follows the
code:

- An empty buffer gives `[0, 0, 0]` from `calculateStats` and an empty
  result from `calculate_percentiles`; neither fails.
- A percentile is read at a truncated index. It is not interpolated, unlike
  the `np.percentile` reference in the benchmark script
  (analyze_data.py:32).
- The rolling window at position i starts at `i - window`, clamped at 0. A
  full window therefore holds `window + 1` elements. `window == 0` returns
  the input, while `window == 1` averages pairs.
- `integrate_simpson` silently raises an odd `n` to `n + 1`.
- `sum_series` and `product_series` with `n <= 0` return 0 and 1 without
  calling `term`.

## Model

| member | source | states |
|---|---|---|
| Statistics.CalculateStats | DataProcessor.cpp:16-40 | empty buffer gives [0, 0, 0]; otherwise three values: the mean, the median of the sorted copy, and E[x^2] - mean^2 (the radicand of the standard deviation) |
| Statistics.Accumulate | DataProcessor.cpp:22 | the accumulation loop yields the left-to-right sum of the buffer |
| Statistics.InnerProductSelf | DataProcessor.cpp:36 | the inner product of the buffer with itself is its left-to-right sum of squares |
| Statistics.SortedMedian | DataProcessor.cpp:26-33 | sorting a copy in place and reading its middle gives the median of the sorted copy: the central element for odd N, the average of the two central ones for even N |
| Statistics.MedianBetweenMinMax | DataProcessor.cpp:26-33 | the median lies between the buffer's minimum and maximum |
| Statistics.MeanOfSortedCopy | DataProcessor.cpp:22-27 | sorting does not change the mean |
| Statistics.VarianceIsMeanSquaredDeviation | DataProcessor.cpp:36-37 | E[x^2] - mean^2 equals the mean squared deviation, so it is never negative and its square root is defined |
| Statistics.ConstantStats | DataProcessor.cpp:16-40 | a constant buffer has mean and median equal to the constant and variance 0 |
| Sorting.SortInPlace | DataProcessor.cpp:64-65 | sorting in place leaves the array sorted, a permutation of its old contents, and equal to the sorted copy of the old contents |
| Sorting.SortData | DataProcessor.cpp:63-67 | the result is sorted, a permutation of the input, and the input's sorted copy |
| RealSeq.SortedCopy | DataProcessor.cpp:64-65 | the sorted copy is sorted, has the input's multiset and has the input's length |
| RealSeq.SortedUnique | DataProcessor.cpp:64-65 | two sorted sequences with the same multiset are equal, so any correct sort gives the same result |
| RealSeq.SortedEnds | DataProcessor.cpp:75-76 | a sorted permutation of a non-empty buffer starts with its minimum and ends with its maximum |
| RealSeq.SumPermutation | DataProcessor.cpp:22-27 | buffers with the same multiset have the same sum |
| Elementwise.Transform | DataProcessor.cpp:43-49 | same length; element i is data[i] * factor |
| Elementwise.ScaledByOne | DataProcessor.cpp:43-49 | factor 1 gives the input back |
| Elementwise.ScaledTwice | DataProcessor.cpp:46 | scaling by f then g equals scaling by f * g; scaling by 1/f undoes a non-zero f |
| Elementwise.SumScaled | DataProcessor.cpp:46 | the scaled buffer's sum is factor times the sum |
| Elementwise.Filter | DataProcessor.cpp:52-60 | the result is the input's elements strictly above the threshold, in order; a value is in it exactly when it is in the input and above the threshold |
| Elementwise.AboveMembers | DataProcessor.cpp:55-56 | x is kept if and only if x occurs in the input and x > threshold |
| Elementwise.AboveCounts | DataProcessor.cpp:55-56 | each value above the threshold keeps its multiplicity; every other value is dropped |
| Elementwise.AboveIsSubsequence | DataProcessor.cpp:54-57 | the kept elements are a subsequence of the input (relative order preserved) |
| Elementwise.AboveLength | DataProcessor.cpp:52-60 | the result is no longer than the input |
| Elementwise.AboveAll | DataProcessor.cpp:55-56 | if every element is above the threshold, the result is the whole input |
| Elementwise.AboveNone | DataProcessor.cpp:52-60 | if no element is above the threshold, the result is empty (not an error) |
| Percentiles.RankIndex | DataProcessor.cpp:80 | the index for any rank p in [0, 100] is at most N - 1, so it is always in bounds |
| Percentiles.RankIndexEnds | DataProcessor.cpp:80 | rank 0 reads index 0 and rank 100 reads index N - 1 |
| Percentiles.RankIndexMonotone | DataProcessor.cpp:80 | a higher rank never reads a lower index |
| Percentiles.CalculatePercentiles | DataProcessor.cpp:70-85 | empty for an empty buffer; otherwise 21 values, the k-th being the sorted copy read at the truncated index of rank 5k |
| Percentiles.PickRanks | DataProcessor.cpp:78-82 | the loop over p = 0, 5, ..., 100 pushes 21 values, the k-th read at the index of rank 5k |
| Percentiles.PercentileSetEnds | DataProcessor.cpp:79-81 | the first percentile is the minimum and the last the maximum |
| Percentiles.PercentileSetSorted | DataProcessor.cpp:79-81 | the percentiles are non-decreasing |
| RollingMean.WindowStart | DataProcessor.cpp:95 | the window start never exceeds the current position |
| RollingMean.WindowSize | DataProcessor.cpp:95-100 | the divisor i - start + 1 equals min(i, window) + 1: never zero, and window + 1 for a full window |
| RollingMean.CalculateRollingMean | DataProcessor.cpp:88-104 | same length as the input (empty for empty); element i is the mean of data[start..i] |
| RollingMean.ZeroWindowIsIdentity | DataProcessor.cpp:95-100 | with window 0, each element of the result equals the input element |
| RollingMean.UnitWindowAveragesPair | DataProcessor.cpp:95-100 | with window 1, position i >= 1 averages data[i-1] and data[i] |
| RollingMean.ConstantWindowMean | DataProcessor.cpp:96-100 | every window of a constant buffer averages to the constant |
| RollingMean.WindowMeanBetween | DataProcessor.cpp:96-100 | every window mean lies within any bounds on the input's elements |
| Quadrature.Midpoints | DataProcessor.cpp:111-112 | the rectangle rule has exactly n sample points |
| Quadrature.InteriorPoints | DataProcessor.cpp:124-125 | there are exactly m - 1 interior grid points |
| Quadrature.GridPoints | DataProcessor.cpp:122-125 | the trapezoid and Simpson rules sample exactly m + 1 points |
| Quadrature.IntegrateRectangle | DataProcessor.cpp:107-117 | f is called exactly at the n midpoints a + (i + 0.5) w, in order; the result is w times the sum of those values |
| Quadrature.IntegrateTrapezoid | DataProcessor.cpp:120-130 | f is called at a, b, then a + i w for i in [1, n): n + 1 calls; the result is w times (half the ends plus the interior sum) |
| Quadrature.IntegrateSimpson | DataProcessor.cpp:133-145 | with m the even-adjusted n, f is called at a, b, then a + i w for i in [1, m): m + 1 calls; the result is w/3 times (the ends plus 4 times the odd and 2 times the even interior values) |
| Quadrature.SimpsonIntervalsEven | DataProcessor.cpp:134 | the adjusted count is even, is n or n + 1, and equals n exactly when n is even |
| Quadrature.MidpointsInside | DataProcessor.cpp:111-112 | for a < b the midpoints lie strictly inside (a, b) in strictly increasing order, so no point is sampled twice |
| Quadrature.GridPointsDistinct | DataProcessor.cpp:122-125 | for a < b all grid points are pairwise distinct, so each is sampled exactly once |
| Quadrature.SumOfIsSum | DataProcessor.cpp:109-113 | the rectangle and trapezoid accumulator sum is the shared left-to-right sum of the values of f at the sample points |
| Quadrature.SumOfConstant | DataProcessor.cpp:113 | a constant f sums to count times the constant |
| Quadrature.SimpsonSumOfConstant | DataProcessor.cpp:139-142 | for a constant f the interior weights 4, 2, 4, ... add up to 3k (+1 for odd k) times the constant |
| Quadrature.RectangleExactOnConstants | DataProcessor.cpp:107-117 | the midpoint rule integrates a constant function exactly |
| Quadrature.TrapezoidExactOnConstants | DataProcessor.cpp:120-130 | the trapezoid rule integrates a constant function exactly (the end weights total 1) |
| Quadrature.SimpsonExactOnConstants | DataProcessor.cpp:133-145 | Simpson's rule with its adjusted count integrates a constant function exactly (the weights total 3m) |
| Series.SumSeries | DataProcessor.cpp:148-154 | term is called on 1, ..., n in order; the result is the left-to-right sum; n <= 0 gives 0 with no calls |
| Series.ProductSeries | DataProcessor.cpp:157-163 | term is called on 1, ..., n in order; the result is the left-to-right product; n <= 0 gives 1 with no calls |
| Series.SeriesSumIsSum | DataProcessor.cpp:148-154 | the series sum is the sum of the sequence term(1), ..., term(n) |
| Series.SeriesSumLinear | DataProcessor.cpp:151 | the sum is linear in the term function |
| Series.SeriesSumMonotone | DataProcessor.cpp:151 | non-negative terms give a non-negative sum that never decreases with n |
| Series.SeriesSumConstant | DataProcessor.cpp:151 | a constant term c sums to n c |
| Series.SeriesProductZero | DataProcessor.cpp:160 | a zero term in 1..n makes the product zero |
| Series.SeriesProductPositive | DataProcessor.cpp:160 | positive terms give a positive product |
| Series.SeriesProductMultiplicative | DataProcessor.cpp:160 | the product of pointwise products is the product of the products |

## Left out

- Statistics.CalculateStats: the third value is the variance E[x^2] - mean^2, not its square root. Dafny has no real square root; `Statistics.VarianceIsMeanSquaredDeviation` proves the radicand is never negative.
- IEEE-754 doubles are modelled as exact reals. Rounding, cancellation in E[x^2] - mean^2, NaN and infinities are not modelled, and neither is the ordering of NaN under `std::sort`, which the source leaves undefined.
- Percentiles.RankIndex: the float-to-`size_t` truncation of `p / 100.0 * (N - 1)` is modelled as the exact integer division p (N - 1) / 100. The two do differ at ordinary sizes: for N = 91 and p = 70 the double `70 / 100.0 * 90` is 62.99999999999999, so the source reads index 62 where `RankIndex(70, 91)` is 63; N = 171, 181 and 331 have such ranks too. `Percentiles.CalculatePercentiles` is therefore exact only where the double product is exact; the in-bounds, end and monotonicity facts hold for both readings.
- Quadrature.IntegrateRectangle, Quadrature.IntegrateTrapezoid, Quadrature.IntegrateSimpson: these require n >= 1. The source divides by zero when n == 0, and n < 0 is not modelled.
- Quadrature.IntegrateSimpson: the `int` overflow of `n++` at `INT_MAX` is not modelled, because counts are unbounded integers.
- C `int` overflow of the loop counters in the series functions is not modelled either, for the same reason.
- Sorting.SortInPlace is an insertion sort standing in for `std::sort`. Its result is pinned to `RealSeq.SortedCopy`, which `RealSeq.SortedUnique` shows any correct sort returns. The comparison count and the algorithm of `std::sort` are not modelled.
- The two end evaluations `f(a) + f(b)` in the trapezoid and Simpson rules have no sequencing in C++. The model records them in the order a, b.
- Exceptions thrown by a callback, which would abandon the loop, are not modelled: callbacks are total functions.
- The Python binding block (`PYBIND11_MODULE`, with its default `n = 1000`), the benchmark script `analyze_data.py` and the build script `setup.py` are not part of this model.
