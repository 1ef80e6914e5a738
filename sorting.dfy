/** The sort engine: `sort_data` copies its input and sorts the copy in
    place. The in-place sort stands for `std::sort`; any correct in-place
    sort leaves the same sequence, because a sorted permutation is unique
    (`RealSeq.SortedUnique`). */
module Sorting {
  import opened RealSeq

  /** Sorts `a` in place (insertion sort by adjacent swaps). */
  method SortInPlace(a: array<real>)
    modifies a
    ensures Sorted(a[..])
    ensures multiset(a[..]) == multiset(old(a[..]))
    ensures a[..] == SortedCopy(old(a[..]))
  {
    var i := 0;
    while i < a.Length
      invariant 0 <= i <= a.Length
      invariant forall k, l :: 0 <= k < l < i ==> a[k] <= a[l]
      invariant multiset(a[..]) == multiset(old(a[..]))
    {
      SinkLast(a, i);
      i := i + 1;
    }
    SortedUnique(a[..], SortedCopy(old(a[..])));
  }

  /** With `a[..i]` sorted, moves `a[i]` left past every larger element, so
      that `a[..i + 1]` is sorted; the array keeps its multiset. */
  method SinkLast(a: array<real>, i: nat)
    requires i < a.Length
    requires forall k, l :: 0 <= k < l < i ==> a[k] <= a[l]
    modifies a
    ensures forall k, l :: 0 <= k < l <= i ==> a[k] <= a[l]
    ensures multiset(a[..]) == multiset(old(a[..]))
  {
    var j := i;
    while j > 0 && a[j - 1] > a[j]
      invariant 0 <= j <= i
      invariant forall k, l :: 0 <= k < l <= i && k != j && l != j ==> a[k] <= a[l]
      invariant forall l :: j < l <= i ==> a[j] < a[l]
      invariant multiset(a[..]) == multiset(old(a[..]))
    {
      Swap(a, j - 1, j);
      j := j - 1;
    }
  }

  /** Exchanges `a[i]` and `a[j]`; the array keeps its multiset. */
  method Swap(a: array<real>, i: nat, j: nat)
    requires i < j < a.Length
    modifies a
    ensures a[..] == old(a[..])[i := old(a[j])][j := old(a[i])]
    ensures multiset(a[..]) == multiset(old(a[..]))
  {
    a[i], a[j] := a[j], a[i];
  }

  /** `sort_data`: a new buffer holding the input's values in non-decreasing
      order; the input is a value and stays as it was. */
  method SortData(data: seq<real>) returns (r: seq<real>)
    ensures Sorted(r)
    ensures multiset(r) == multiset(data)
    ensures r == SortedCopy(data)
  {
    var a := new real[|data|](i requires 0 <= i < |data| => data[i]);
    assert a[..] == data;
    SortInPlace(a);
    r := a[..];
  }
}
