/** The quadrature engine: `integrate_rectangle` (midpoint rule),
    `integrate_trapezoid` and `integrate_simpson`. Each method returns the
    value and the sequence of points at which it called `f`, in call order,
    so the number of callback invocations is the length of that sequence.
    Each rule's value is a sum of `f` over its points, weighted per rule,
    times the subinterval width (over 3 for Simpson). */
module Quadrature {
  import RealSeq

  /** Width of one of `n` equal subintervals of [a, b]. */
  function Width(a: real, b: real, n: nat): real
    requires n >= 1
  {
    (b - a) / n as real
  }

  /** f(xs[0]) + f(xs[1]) + ..., accumulated left to right. */
  function SumOf(f: real -> real, xs: seq<real>): real
  {
    if xs == [] then 0.0 else SumOf(f, xs[..|xs| - 1]) + f(xs[|xs| - 1])
  }

  /** The values of `f` at the points xs, in order. */
  function Values(f: real -> real, xs: seq<real>): (ys: seq<real>)
    ensures |ys| == |xs|
  {
    seq(|xs|, k requires 0 <= k < |xs| => f(xs[k]))
  }

  /** The Simpson sum over the interior points xs, accumulated left to
      right: the k-th of them (counted from 1) weighs 2 for even k and 4 for
      odd k. */
  function SimpsonSumOf(f: real -> real, xs: seq<real>): real
  {
    if xs == [] then 0.0
    else
      var k := |xs|;
      SimpsonSumOf(f, xs[..k - 1]) + (if k % 2 == 0 then f(xs[k - 1]) * 2.0 else f(xs[k - 1]) * 4.0)
  }

  /** Midpoint rule points: the midpoint of each of the `n` subintervals. */
  function Midpoints(a: real, b: real, n: nat): (xs: seq<real>)
    requires n >= 1
    ensures |xs| == n
  {
    seq(n, i requires 0 <= i < n => a + (i as real + 0.5) * Width(a, b, n))
  }

  /** The interior grid points a + i * w for i in [1, m), in order. */
  function InteriorPoints(a: real, b: real, m: nat): (xs: seq<real>)
    requires m >= 1
    ensures |xs| == m - 1
  {
    seq(m - 1, k requires 0 <= k < m - 1 => a + (k + 1) as real * Width(a, b, m))
  }

  /** Trapezoid and Simpson points for `m` subintervals, in call order: the
      two ends, then the interior grid points. */
  function GridPoints(a: real, b: real, m: nat): (xs: seq<real>)
    requires m >= 1
    ensures |xs| == m + 1
  {
    [a, b] + InteriorPoints(a, b, m)
  }

  /** The midpoint rule value for `n` subintervals. */
  function MidpointRule(f: real -> real, a: real, b: real, n: nat): real
    requires n >= 1
  {
    SumOf(f, Midpoints(a, b, n)) * Width(a, b, n)
  }

  /** The trapezoid rule value for `n` subintervals: the ends weigh 1/2,
      the interior points 1. */
  function TrapezoidRule(f: real -> real, a: real, b: real, n: nat): real
    requires n >= 1
  {
    (0.5 * (f(a) + f(b)) + SumOf(f, InteriorPoints(a, b, n))) * Width(a, b, n)
  }

  /** Simpson's rule value for `m` subintervals: the ends weigh 1, the
      interior points 4 and 2 alternately, and the total is over 3. */
  function SimpsonRule(f: real -> real, a: real, b: real, m: nat): real
    requires m >= 1
  {
    (f(a) + f(b) + SimpsonSumOf(f, InteriorPoints(a, b, m))) * Width(a, b, m) / 3.0
  }

  /** Simpson's rule needs an even number of subintervals: an odd count is
      raised by one. */
  function SimpsonIntervals(n: nat): nat
  {
    if n % 2 != 0 then n + 1 else n
  }

  /** `integrate_rectangle`: calls `f` once at each of the `n` midpoints,
      in order, and returns width times the sum. */
  method IntegrateRectangle(f: real -> real, a: real, b: real, n: nat) returns (r: real, xs: seq<real>)
    requires n >= 1
    ensures xs == Midpoints(a, b, n)
    ensures |xs| == n
    ensures r == MidpointRule(f, a, b, n)
  {
    var width := (b - a) / n as real;
    var sum := 0.0;
    xs := [];
    for i := 0 to n
      invariant xs == Midpoints(a, b, n)[..i]
      invariant sum == SumOf(f, xs)
    {
      var x := a + (i as real + 0.5) * width;
      MidpointsPrefix(a, b, n, i, width, x);
      SumOfSnoc(f, xs, x);
      sum := sum + f(x);
      xs := xs + [x];
    }
    WholePrefix(Midpoints(a, b, n));
    r := sum * width;
  }

  /** `integrate_trapezoid`: calls `f` at a and b, then once at each
      interior grid point, in order: n + 1 calls. The ends weigh 1/2. */
  method IntegrateTrapezoid(f: real -> real, a: real, b: real, n: nat) returns (r: real, xs: seq<real>)
    requires n >= 1
    ensures xs == GridPoints(a, b, n)
    ensures |xs| == n + 1
    ensures r == TrapezoidRule(f, a, b, n)
  {
    var width := (b - a) / n as real;
    var sum := 0.5 * (f(a) + f(b));
    xs := [a, b];
    for i := 1 to n
      invariant xs == [a, b] + InteriorPoints(a, b, n)[..i - 1]
      invariant sum == 0.5 * (f(a) + f(b)) + SumOf(f, InteriorPoints(a, b, n)[..i - 1])
    {
      var x := a + i as real * width;
      InteriorStep(a, b, n, i, width, x, xs);
      SumOfSnoc(f, InteriorPoints(a, b, n)[..i - 1], x);
      sum := sum + f(x);
      xs := xs + [x];
    }
    WholePrefix(InteriorPoints(a, b, n));
    r := sum * width;
  }

  /** `integrate_simpson`: rounds an odd `n` up to the even m, then calls
      `f` at a and b and once at each interior grid point: m + 1 calls.
      The ends weigh 1, interior points 4 and 2 alternately. */
  method IntegrateSimpson(f: real -> real, a: real, b: real, n: nat) returns (r: real, xs: seq<real>)
    requires n >= 1
    ensures xs == GridPoints(a, b, SimpsonIntervals(n))
    ensures |xs| == SimpsonIntervals(n) + 1
    ensures r == SimpsonRule(f, a, b, SimpsonIntervals(n))
  {
    var m := n;
    if m % 2 != 0 {
      m := m + 1;
    }
    assert m == SimpsonIntervals(n);
    var width := (b - a) / m as real;
    var sum := f(a) + f(b);
    xs := [a, b];
    for i := 1 to m
      invariant xs == [a, b] + InteriorPoints(a, b, m)[..i - 1]
      invariant sum == f(a) + f(b) + SimpsonSumOf(f, InteriorPoints(a, b, m)[..i - 1])
    {
      var x := a + i as real * width;
      InteriorStep(a, b, m, i, width, x, xs);
      SimpsonSumSnoc(f, InteriorPoints(a, b, m)[..i - 1], x);
      if i % 2 == 0 {
        sum := sum + f(x) * 2.0;
      } else {
        sum := sum + f(x) * 4.0;
      }
      xs := xs + [x];
    }
    r := sum * width / 3.0;
    SimpsonRuleValue(f, a, b, m, sum, width, r);
  }

  /** What the Simpson loop leaves behind is the Simpson rule value. */
  lemma SimpsonRuleValue(f: real -> real, a: real, b: real, m: nat, sum: real, width: real, r: real)
    requires m >= 1
    requires sum == f(a) + f(b) + SimpsonSumOf(f, InteriorPoints(a, b, m)[..m - 1])
    requires width == (b - a) / m as real && r == sum * width / 3.0
    ensures r == SimpsonRule(f, a, b, m)
  {
    WholePrefix(InteriorPoints(a, b, m));
  }

  /** When a loop ends, its prefix is the whole sequence. */
  lemma WholePrefix(xs: seq<real>)
    ensures xs[..|xs|] == xs
  {
  }

  /** The first i + 1 midpoints extend the first i by the midpoint of
      subinterval i. */
  lemma MidpointsPrefix(a: real, b: real, n: nat, i: nat, w: real, x: real)
    requires i < n
    requires w == (b - a) / n as real && x == a + (i as real + 0.5) * w
    ensures Midpoints(a, b, n)[..i + 1] == Midpoints(a, b, n)[..i] + [x]
  {
    var xs := Midpoints(a, b, n);
    assert Width(a, b, n) == (b - a) / n as real;
    assert xs[i] == a + (i as real + 0.5) * w;
    assert xs[..i + 1] == xs[..i] + [xs[i]];
  }

  /** The interior points up to i extend those up to i - 1 by a + i * w,
      and the trace of calls grows by the same point. */
  lemma InteriorStep(a: real, b: real, m: nat, i: nat, w: real, x: real, xs: seq<real>)
    requires 1 <= i < m
    requires w == (b - a) / m as real && x == a + i as real * w
    requires xs == [a, b] + InteriorPoints(a, b, m)[..i - 1]
    ensures InteriorPoints(a, b, m)[..i] == InteriorPoints(a, b, m)[..i - 1] + [x]
    ensures xs + [x] == [a, b] + InteriorPoints(a, b, m)[..i]
  {
    var ps := InteriorPoints(a, b, m);
    assert Width(a, b, m) == (b - a) / m as real;
    assert ps[i - 1] == a + i as real * w;
    assert ps[..i] == ps[..i - 1] + [ps[i - 1]];
  }

  /** One more point adds its value to the sum. */
  lemma SumOfSnoc(f: real -> real, xs: seq<real>, x: real)
    ensures SumOf(f, xs + [x]) == SumOf(f, xs) + f(x)
  {
    assert (xs + [x])[..|xs|] == xs;
  }

  /** The sum of `f` over the points is the shared left-to-right sum of its
      values there. */
  lemma {:induction false} SumOfIsSum(f: real -> real, xs: seq<real>)
    ensures SumOf(f, xs) == RealSeq.Sum(Values(f, xs))
  {
    if xs != [] {
      var xs' := xs[..|xs| - 1];
      SumOfIsSum(f, xs');
      assert Values(f, xs)[..|xs| - 1] == Values(f, xs');
    }
  }

  /** One more interior point adds its value with its Simpson weight. */
  lemma SimpsonSumSnoc(f: real -> real, xs: seq<real>, x: real)
    ensures SimpsonSumOf(f, xs + [x])
            == SimpsonSumOf(f, xs) + (if (|xs| + 1) % 2 == 0 then f(x) * 2.0 else f(x) * 4.0)
  {
    assert (xs + [x])[..|xs|] == xs;
  }

  /** Simpson's interval count is even and is `n` or `n + 1`; it equals `n`
      exactly when `n` is even. */
  lemma SimpsonIntervalsEven(n: nat)
    ensures SimpsonIntervals(n) % 2 == 0
    ensures n <= SimpsonIntervals(n) <= n + 1
    ensures SimpsonIntervals(n) == n <==> n % 2 == 0
  {
  }

  /** For a < b the midpoints lie strictly inside (a, b) in strictly
      increasing order, so no point is evaluated twice. */
  lemma MidpointsInside(a: real, b: real, n: nat)
    requires a < b && n >= 1
    ensures forall i :: 0 <= i < n ==> a < Midpoints(a, b, n)[i] < b
    ensures forall i, j :: 0 <= i < j < n ==> Midpoints(a, b, n)[i] < Midpoints(a, b, n)[j]
  {
    forall i | 0 <= i < n
      ensures a < Midpoints(a, b, n)[i] < b
    {
      MidpointInside(a, b, n, i);
    }
    forall i, j | 0 <= i < j < n
      ensures Midpoints(a, b, n)[i] < Midpoints(a, b, n)[j]
    {
      MidpointsIncreasing(a, b, n, i, j);
    }
  }

  lemma MidpointInside(a: real, b: real, n: nat, i: nat)
    requires a < b && i < n
    ensures a < Midpoints(a, b, n)[i] < b
  {
    assert Midpoints(a, b, n)[i] == a + (i as real + 0.5) * Width(a, b, n);
    StepInside(a, b, n, i as real + 0.5);
  }

  lemma MidpointsIncreasing(a: real, b: real, n: nat, i: nat, j: nat)
    requires a < b && i < j < n
    ensures Midpoints(a, b, n)[i] < Midpoints(a, b, n)[j]
  {
    WidthPositive(a, b, n);
    assert Midpoints(a, b, n)[i] == a + (i as real + 0.5) * Width(a, b, n);
    assert Midpoints(a, b, n)[j] == a + (j as real + 0.5) * Width(a, b, n);
    StepIncreasing(Width(a, b, n), i as real + 0.5, j as real + 0.5);
  }

  /** For a < b the grid points are pairwise distinct: the ends differ and
      the interior points lie strictly between them in increasing order. */
  lemma GridPointsDistinct(a: real, b: real, m: nat)
    requires a < b && m >= 1
    ensures forall i, j :: 0 <= i < j <= m ==> GridPoints(a, b, m)[i] != GridPoints(a, b, m)[j]
  {
    var xs := GridPoints(a, b, m);
    forall k | 2 <= k <= m
      ensures a < xs[k] < b
    {
      InteriorPointInside(a, b, m, k - 2);
    }
    forall i, j | 2 <= i < j <= m
      ensures xs[i] < xs[j]
    {
      InteriorPointsIncreasing(a, b, m, i - 2, j - 2);
    }
  }

  lemma InteriorPointInside(a: real, b: real, m: nat, k: nat)
    requires a < b && k < m - 1
    ensures a < InteriorPoints(a, b, m)[k] < b
  {
    assert InteriorPoints(a, b, m)[k] == a + (k + 1) as real * Width(a, b, m);
    StepInside(a, b, m, (k + 1) as real);
  }

  lemma InteriorPointsIncreasing(a: real, b: real, m: nat, i: nat, j: nat)
    requires a < b && i < j < m - 1
    ensures InteriorPoints(a, b, m)[i] < InteriorPoints(a, b, m)[j]
  {
    WidthPositive(a, b, m);
    assert InteriorPoints(a, b, m)[i] == a + (i + 1) as real * Width(a, b, m);
    assert InteriorPoints(a, b, m)[j] == a + (j + 1) as real * Width(a, b, m);
    StepIncreasing(Width(a, b, m), (i + 1) as real, (j + 1) as real);
  }

  lemma WidthPositive(a: real, b: real, n: nat)
    requires a < b && n >= 1
    ensures Width(a, b, n) > 0.0
    ensures Width(a, b, n) * n as real == b - a
  {
  }

  /** a + t * w lies strictly inside (a, b) for 0 < t < n. */
  lemma StepInside(a: real, b: real, n: nat, t: real)
    requires a < b && n >= 1 && 0.0 < t < n as real
    ensures a < a + t * Width(a, b, n) < b
  {
    var w := Width(a, b, n);
    WidthPositive(a, b, n);
    assert t * w > 0.0;
    assert (n as real - t) * w > 0.0;
  }

  lemma StepIncreasing(w: real, s: real, t: real)
    requires w > 0.0 && s < t
    ensures s * w < t * w
  {
    assert (t - s) * w > 0.0;
  }

  /** With `f` constant, the sum over k points is k times that constant. */
  lemma {:induction false} SumOfConstant(f: real -> real, c: real, xs: seq<real>)
    requires forall x :: f(x) == c
    ensures SumOf(f, xs) == |xs| as real * c
  {
    if xs != [] {
      SumOfConstant(f, c, xs[..|xs| - 1]);
      assert (|xs| - 1) as real * c + c == |xs| as real * c;
    }
  }

  /** With `f` constant, the Simpson weights 4, 2, 4, ... over k interior
      points add up to 3k, plus 1 when k is odd, times that constant. */
  lemma {:induction false} SimpsonSumOfConstant(f: real -> real, c: real, xs: seq<real>)
    requires forall x :: f(x) == c
    ensures SimpsonSumOf(f, xs) == (3.0 * |xs| as real + (if |xs| % 2 == 1 then 1.0 else 0.0)) * c
  {
    if xs != [] {
      var k := |xs|;
      SimpsonSumOfConstant(f, c, xs[..k - 1]);
      SimpsonConstantStep(k, c);
    }
  }

  /** One step of `SimpsonSumOfConstant`, on plain numbers. */
  lemma SimpsonConstantStep(k: nat, c: real)
    requires k >= 1
    ensures (3.0 * (k - 1) as real + (if (k - 1) % 2 == 1 then 1.0 else 0.0)) * c
            + (if k % 2 == 0 then c * 2.0 else c * 4.0)
            == (3.0 * k as real + (if k % 2 == 1 then 1.0 else 0.0)) * c
  {
    if k % 2 == 0 {
      assert (3.0 * (k - 1) as real + 1.0) * c + c * 2.0 == (3.0 * k as real) * c;
    } else {
      assert (3.0 * (k - 1) as real) * c + c * 4.0 == (3.0 * k as real + 1.0) * c;
    }
  }

  /** The midpoint rule integrates a constant function exactly. */
  lemma RectangleExactOnConstants(f: real -> real, c: real, a: real, b: real, n: nat)
    requires n >= 1
    requires forall x :: f(x) == c
    ensures MidpointRule(f, a, b, n) == c * (b - a)
  {
    SumOfConstant(f, c, Midpoints(a, b, n));
    CountTimesWidth(SumOf(f, Midpoints(a, b, n)), c, a, b, n as real);
  }

  /** The trapezoid rule integrates a constant function exactly. */
  lemma TrapezoidExactOnConstants(f: real -> real, c: real, a: real, b: real, n: nat)
    requires n >= 1
    requires forall x :: f(x) == c
    ensures TrapezoidRule(f, a, b, n) == c * (b - a)
  {
    SumOfConstant(f, c, InteriorPoints(a, b, n));
    var t := 0.5 * (f(a) + f(b)) + SumOf(f, InteriorPoints(a, b, n));
    assert t == c + (n - 1) as real * c;
    assert t == n as real * c;
    CountTimesWidth(t, c, a, b, n as real);
  }

  /** Simpson's rule, with its adjusted interval count, integrates a
      constant function exactly. */
  lemma SimpsonExactOnConstants(f: real -> real, c: real, a: real, b: real, n: nat)
    requires n >= 1
    requires forall x :: f(x) == c
    ensures SimpsonRule(f, a, b, SimpsonIntervals(n)) == c * (b - a)
  {
    var m := SimpsonIntervals(n);
    SimpsonSumOfConstant(f, c, InteriorPoints(a, b, m));
    var t := f(a) + f(b) + SimpsonSumOf(f, InteriorPoints(a, b, m));
    assert (m - 1) % 2 == 1;
    assert t == 2.0 * c + (3.0 * (m - 1) as real + 1.0) * c;
    assert t == 3.0 * (m as real * c);
    SimpsonCountTimesWidth(t, c, a, b, m as real);
  }

  /** t = n c gives t times the width (b - a) / n equal to c (b - a). */
  lemma CountTimesWidth(t: real, c: real, a: real, b: real, n: real)
    requires n > 0.0 && t == n * c
    ensures t * ((b - a) / n) == c * (b - a)
  {
    assert n * ((b - a) / n) == b - a;
  }

  /** t = 3 n c gives t times the width (b - a) / n, over 3, equal to
      c (b - a). */
  lemma SimpsonCountTimesWidth(t: real, c: real, a: real, b: real, n: real)
    requires n > 0.0 && t == 3.0 * (n * c)
    ensures t * ((b - a) / n) / 3.0 == c * (b - a)
  {
    CountTimesWidth(n * c, c, a, b, n);
  }
}
