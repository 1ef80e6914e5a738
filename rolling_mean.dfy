/** The windowed mean engine, `calculate_rolling_mean`: position i averages
    the elements from `i - window` (clamped at 0) up to and including i, so
    a full window holds `window + 1` elements and `window == 0` is allowed. */
module RollingMean {
  import opened RealSeq

  /** First index of the window ending at `i`. */
  function WindowStart(i: nat, window: nat): (start: nat)
    ensures start <= i
  {
    if i >= window then i - window else 0
  }

  /** Mean of the window ending at position `i`. */
  function WindowMean(data: seq<real>, i: nat, window: nat): real
    requires i < |data|
  {
    var start := WindowStart(i, window);
    Sum(data[start..i + 1]) / (i - start + 1) as real
  }

  /** The divisor is the window's element count, min(i, window) + 1, so it
      is never zero; a full window holds window + 1 elements. */
  lemma WindowSize(i: nat, window: nat)
    ensures i - WindowStart(i, window) + 1 == (if i < window then i else window) + 1
    ensures i - WindowStart(i, window) + 1 >= 1
    ensures i >= window ==> i - WindowStart(i, window) + 1 == window + 1
  {
  }

  /** `calculate_rolling_mean`: an empty result for an empty buffer, else a
      buffer of the same length whose element i is the window mean at i. */
  method CalculateRollingMean(data: seq<real>, window: nat) returns (r: seq<real>)
    ensures |r| == |data|
    ensures forall i :: 0 <= i < |data| ==> r[i] == WindowMean(data, i, window)
  {
    if |data| == 0 {
      return [];
    }
    var result := new real[|data|];
    for i := 0 to |data|
      invariant forall k :: 0 <= k < i ==> result[k] == WindowMean(data, k, window)
    {
      var start := if i >= window then i - window else 0;
      var sum := 0.0;
      var j := start;
      while j <= i
        invariant start <= j <= i + 1
        invariant sum == Sum(data[start..j])
      {
        assert data[start..j + 1][..j - start] == data[start..j];
        sum := sum + data[j];
        j := j + 1;
      }
      result[i] := sum / (i - start + 1) as real;
    }
    r := result[..];
  }

  /** With `window == 0` every window is the single current element, so
      the result equals the input. */
  lemma ZeroWindowIsIdentity(data: seq<real>, i: nat)
    requires i < |data|
    ensures WindowMean(data, i, 0) == data[i]
  {
    assert WindowStart(i, 0) == i;
    var w := data[i..i + 1];
    assert w[..0] == [];
    assert Sum(w) == data[i];
  }

  /** With `window == 1` a position past the first averages two elements:
      the input is not returned unchanged. */
  lemma UnitWindowAveragesPair(data: seq<real>, i: nat)
    requires 1 <= i < |data|
    ensures WindowMean(data, i, 1) == (data[i - 1] + data[i]) / 2.0
  {
    assert WindowStart(i, 1) == i - 1;
    var w := data[i - 1..i + 1];
    assert w[..1][..0] == [];
    assert Sum(w[..1]) == data[i - 1];
    assert Sum(w) == data[i - 1] + data[i];
  }

  /** Every window of a constant buffer averages to that constant. */
  lemma ConstantWindowMean(data: seq<real>, c: real, i: nat, window: nat)
    requires i < |data|
    requires forall k :: 0 <= k < |data| ==> data[k] == c
    ensures WindowMean(data, i, window) == c
  {
    var start := WindowStart(i, window);
    var w := data[start..i + 1];
    SumConstant(w, c);
    DivideProduct((i - start + 1) as real, c, Sum(w));
  }

  /** A window mean lies between any bounds on the window's elements, so
      the result never leaves the range of the input. */
  lemma WindowMeanBetween(data: seq<real>, i: nat, window: nat, lo: real, hi: real)
    requires i < |data|
    requires forall k :: 0 <= k < |data| ==> lo <= data[k] <= hi
    ensures lo <= WindowMean(data, i, window) <= hi
  {
    var start := WindowStart(i, window);
    var w := data[start..i + 1];
    assert forall k :: 0 <= k < |w| ==> w[k] == data[start + k];
    SumBounded(w, lo, hi);
    QuotientBetween(Sum(w), (i - start + 1) as real, lo, hi);
  }
}
