/** The series engine: `sum_series` adds and `product_series` multiplies
    `term(1), ..., term(n)` left to right. A count `n <= 0` runs no
    iteration: the sum is 0 and the product 1. Each method also returns
    the arguments it passed to `term`, in call order. */
module Series {
  import opened RealSeq

  /** term(1) + ... + term(n), accumulated left to right; 0 for n <= 0. */
  function SeriesSum(term: int -> real, n: int): real
    decreases n
  {
    if n <= 0 then 0.0 else SeriesSum(term, n - 1) + term(n)
  }

  /** term(1) * ... * term(n), accumulated left to right; 1 for n <= 0. */
  function SeriesProduct(term: int -> real, n: int): real
    decreases n
  {
    if n <= 0 then 1.0 else SeriesProduct(term, n - 1) * term(n)
  }

  /** The arguments 1, 2, ..., n (none for n <= 0). */
  function Indices(n: int): (s: seq<int>)
    ensures |s| == if n <= 0 then 0 else n
  {
    if n <= 0 then [] else seq(n, k requires 0 <= k < n => k + 1)
  }

  /** The terms term(1), ..., term(n) as a sequence. */
  function Terms(term: int -> real, n: int): (s: seq<real>)
    ensures |s| == if n <= 0 then 0 else n
  {
    if n <= 0 then [] else seq(n, k requires 0 <= k < n => term(k + 1))
  }

  /** `sum_series`: calls `term` on 1, ..., n in order and returns the
      running sum. */
  method SumSeries(term: int -> real, n: int) returns (r: real, calls: seq<int>)
    ensures calls == Indices(n)
    ensures r == SeriesSum(term, n)
    ensures n <= 0 ==> r == 0.0 && calls == []
  {
    r := 0.0;
    calls := [];
    var i := 1;
    while i <= n
      invariant 1 <= i <= if n >= 0 then n + 1 else 1
      invariant r == SeriesSum(term, i - 1)
      invariant calls == Indices(i - 1)
    {
      r := r + term(i);
      IndicesSnoc(i);
      calls := calls + [i];
      i := i + 1;
    }
  }

  /** `product_series`: calls `term` on 1, ..., n in order and returns the
      running product. */
  method ProductSeries(term: int -> real, n: int) returns (r: real, calls: seq<int>)
    ensures calls == Indices(n)
    ensures r == SeriesProduct(term, n)
    ensures n <= 0 ==> r == 1.0 && calls == []
  {
    r := 1.0;
    calls := [];
    var i := 1;
    while i <= n
      invariant 1 <= i <= if n >= 0 then n + 1 else 1
      invariant r == SeriesProduct(term, i - 1)
      invariant calls == Indices(i - 1)
    {
      r := r * term(i);
      IndicesSnoc(i);
      calls := calls + [i];
      i := i + 1;
    }
  }

  /** One more iteration calls `term` on the next index. */
  lemma IndicesSnoc(i: int)
    requires i >= 1
    ensures Indices(i) == Indices(i - 1) + [i]
  {
    assert Indices(i)[i - 1] == i;
    assert Indices(i)[..i - 1] == Indices(i - 1);
  }

  /** The series sum is the sum of the sequence of terms. */
  lemma {:induction false} SeriesSumIsSum(term: int -> real, n: int)
    ensures SeriesSum(term, n) == Sum(Terms(term, n))
    decreases n
  {
    if n > 0 {
      SeriesSumIsSum(term, n - 1);
      var s := Terms(term, n);
      if n > 1 {
        assert s[..n - 1] == Terms(term, n - 1);
      } else {
        assert s[..n - 1] == [];
      }
    }
  }

  /** The sum is linear in the terms: for g = c t + u, the sum of g is c
      times the sum of t plus the sum of u. */
  lemma {:induction false} SeriesSumLinear(g: int -> real, t: int -> real, u: int -> real, c: real, n: int)
    requires forall k :: g(k) == c * t(k) + u(k)
    ensures SeriesSum(g, n) == c * SeriesSum(t, n) + SeriesSum(u, n)
    decreases n
  {
    if n > 0 {
      SeriesSumLinear(g, t, u, c, n - 1);
      var st, su := SeriesSum(t, n - 1), SeriesSum(u, n - 1);
      assert g(n) == c * t(n) + u(n);
      assert c * (st + t(n)) == c * st + c * t(n);
    }
  }

  /** Non-negative terms give a non-negative sum that never decreases as
      `n` grows. */
  lemma {:induction false} SeriesSumMonotone(term: int -> real, n: int)
    requires forall k :: 1 <= k <= n ==> term(k) >= 0.0
    ensures SeriesSum(term, n) >= 0.0
    ensures n >= 1 ==> SeriesSum(term, n) >= SeriesSum(term, n - 1)
    decreases n
  {
    if n > 0 {
      SeriesSumMonotone(term, n - 1);
    }
  }

  /** A constant term c sums to n * c. */
  lemma {:induction false} SeriesSumConstant(term: int -> real, c: real, n: nat)
    requires forall k :: 1 <= k <= n ==> term(k) == c
    ensures SeriesSum(term, n) == n as real * c
  {
    if n > 0 {
      SeriesSumConstant(term, c, n - 1);
      assert (n - 1) as real * c + c == n as real * c;
    }
  }

  /** A zero term anywhere in 1..n makes the product zero. */
  lemma {:induction false} SeriesProductZero(term: int -> real, n: int, j: int)
    requires 1 <= j <= n && term(j) == 0.0
    ensures SeriesProduct(term, n) == 0.0
    decreases n
  {
    if j < n {
      SeriesProductZero(term, n - 1, j);
    }
  }

  /** Positive terms give a positive product. */
  lemma {:induction false} SeriesProductPositive(term: int -> real, n: int)
    requires forall k :: 1 <= k <= n ==> term(k) > 0.0
    ensures SeriesProduct(term, n) > 0.0
    decreases n
  {
    if n > 0 {
      SeriesProductPositive(term, n - 1);
      PositiveProduct(SeriesProduct(term, n - 1), term(n));
    }
  }

  lemma PositiveProduct(x: real, y: real)
    requires x > 0.0 && y > 0.0
    ensures x * y > 0.0
  {
  }

  /** The product is multiplicative in the terms: for g = t u, the product
      of g is the product of t times the product of u. */
  lemma {:induction false} SeriesProductMultiplicative(g: int -> real, t: int -> real, u: int -> real, n: int)
    requires forall k :: g(k) == t(k) * u(k)
    ensures SeriesProduct(g, n) == SeriesProduct(t, n) * SeriesProduct(u, n)
    decreases n
  {
    if n > 0 {
      SeriesProductMultiplicative(g, t, u, n - 1);
      var p, q := SeriesProduct(t, n - 1), SeriesProduct(u, n - 1);
      assert g(n) == t(n) * u(n);
      assert p * q * (t(n) * u(n)) == (p * t(n)) * (q * u(n));
    }
  }
}
