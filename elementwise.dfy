/** The elementwise engine: `transform` scales every element, `filter`
    keeps the elements strictly above a threshold. */
module Elementwise {
  import opened RealSeq

  /** Every element multiplied by `factor`. */
  function Scaled(s: seq<real>, factor: real): (r: seq<real>)
    ensures |r| == |s|
  {
    seq(|s|, i requires 0 <= i < |s| => s[i] * factor)
  }

  /** The elements of `s` strictly greater than `threshold`, in their
      original order (defined on the last element, as a left-to-right scan
      appends). */
  function Above(s: seq<real>, threshold: real): seq<real>
  {
    if s == [] then []
    else
      var last := s[|s| - 1];
      Above(s[..|s| - 1], threshold) + (if last > threshold then [last] else [])
  }

  /** `t` is `s` with some elements removed, the rest kept in order. */
  predicate IsSubsequence(t: seq<real>, s: seq<real>)
  {
    if t == [] then true
    else if s == [] then false
    else
      (t[|t| - 1] == s[|s| - 1] && IsSubsequence(t[..|t| - 1], s[..|s| - 1]))
      || IsSubsequence(t, s[..|s| - 1])
  }

  /** `transform`: a new buffer of the same length, element i scaled by
      `factor`. */
  method Transform(data: seq<real>, factor: real) returns (r: seq<real>)
    ensures |r| == |data|
    ensures forall i :: 0 <= i < |data| ==> r[i] == data[i] * factor
    ensures r == Scaled(data, factor)
  {
    var result := new real[|data|];
    for i := 0 to |data|
      invariant forall k :: 0 <= k < i ==> result[k] == data[k] * factor
    {
      result[i] := data[i] * factor;
    }
    r := result[..];
    assert forall k :: 0 <= k < |data| ==> r[k] == Scaled(data, factor)[k];
  }

  /** Scaling by 1 gives the input back. */
  lemma ScaledByOne(s: seq<real>)
    ensures Scaled(s, 1.0) == s
  {
  }

  /** Scaling twice scales by the product; scaling by a non-zero factor and
      then by its inverse gives the input back. */
  lemma ScaledTwice(s: seq<real>, f: real, g: real)
    ensures Scaled(Scaled(s, f), g) == Scaled(s, f * g)
    ensures f != 0.0 ==> Scaled(Scaled(s, f), 1.0 / f) == s
  {
    forall i | 0 <= i < |s|
      ensures Scaled(Scaled(s, f), g)[i] == Scaled(s, f * g)[i]
    {
      assert s[i] * f * g == s[i] * (f * g);
    }
    if f != 0.0 {
      forall i | 0 <= i < |s|
        ensures Scaled(Scaled(s, f), 1.0 / f)[i] == s[i]
      {
        assert f * (1.0 / f) == 1.0;
        assert s[i] * f * (1.0 / f) == s[i] * (f * (1.0 / f));
      }
    }
  }

  /** Scaling scales the sum, hence the mean, by the same factor. */
  lemma {:induction false} SumScaled(s: seq<real>, f: real)
    ensures Sum(Scaled(s, f)) == f * Sum(s)
  {
    if s != [] {
      var s' := s[..|s| - 1];
      assert forall k :: 0 <= k < |s'| ==> Scaled(s, f)[..|s| - 1][k] == Scaled(s', f)[k];
      assert Scaled(s, f)[..|s| - 1] == Scaled(s', f);
      SumScaled(s', f);
      assert f * (Sum(s') + s[|s| - 1]) == f * Sum(s') + f * s[|s| - 1];
    }
  }

  /** `filter`: the elements strictly above `threshold`, in order. An input
      with no such element gives an empty buffer. */
  method Filter(data: seq<real>, threshold: real) returns (r: seq<real>)
    ensures r == Above(data, threshold)
    ensures forall x :: x in r <==> x in data && x > threshold
  {
    r := [];
    for i := 0 to |data|
      invariant r == Above(data[..i], threshold)
    {
      assert data[..i + 1][..i] == data[..i];
      if data[i] > threshold {
        r := r + [data[i]];
      }
    }
    assert data[..|data|] == data;
    AboveMembers(data, threshold);
  }

  /** A value is kept exactly when it occurs in the input above the
      threshold. */
  lemma {:induction false} AboveMembers(s: seq<real>, threshold: real)
    ensures forall x :: x in Above(s, threshold) <==> x in s && x > threshold
  {
    if s != [] {
      var s' := s[..|s| - 1];
      AboveMembers(s', threshold);
      assert s == s' + [s[|s| - 1]];
    }
  }

  /** Each value keeps its multiplicity when above the threshold and
      disappears otherwise. */
  lemma {:induction false} AboveCounts(s: seq<real>, threshold: real)
    ensures forall x :: multiset(Above(s, threshold))[x] ==
                        (if x > threshold then multiset(s)[x] else 0)
  {
    if s != [] {
      var s' := s[..|s| - 1];
      AboveCounts(s', threshold);
      assert s == s' + [s[|s| - 1]];
    }
  }

  /** The kept elements appear in the input in the same relative order. */
  lemma {:induction false} AboveIsSubsequence(s: seq<real>, threshold: real)
    ensures IsSubsequence(Above(s, threshold), s)
  {
    if s != [] {
      var s' := s[..|s| - 1];
      var last := s[|s| - 1];
      AboveIsSubsequence(s', threshold);
      var t := Above(s, threshold);
      if last > threshold {
        assert t[..|t| - 1] == Above(s', threshold);
      } else {
        assert t == Above(s', threshold);
      }
    }
  }

  /** The kept elements are at most as many as the input's. */
  lemma {:induction false} AboveLength(s: seq<real>, threshold: real)
    ensures |Above(s, threshold)| <= |s|
  {
    if s != [] {
      AboveLength(s[..|s| - 1], threshold);
    }
  }

  /** When every element is above the threshold, the whole input is kept. */
  lemma {:induction false} AboveAll(s: seq<real>, threshold: real)
    requires forall i :: 0 <= i < |s| ==> s[i] > threshold
    ensures Above(s, threshold) == s
  {
    if s != [] {
      var s' := s[..|s| - 1];
      assert forall i :: 0 <= i < |s'| ==> s'[i] > threshold;
      AboveAll(s', threshold);
      assert s == s' + [s[|s| - 1]];
    }
  }

  /** When no element is above the threshold, nothing is kept. */
  lemma {:induction false} AboveNone(s: seq<real>, threshold: real)
    requires forall i :: 0 <= i < |s| ==> s[i] <= threshold
    ensures Above(s, threshold) == []
  {
    if s != [] {
      var s' := s[..|s| - 1];
      assert forall i :: 0 <= i < |s'| ==> s'[i] <= threshold;
      AboveNone(s', threshold);
    }
  }
}
