/** Specification functions shared by the engines of the data processor:
    left-to-right sums, ordering predicates and the sorted copy of a buffer.
    A buffer of doubles is modelled as a `seq<real>` (exact arithmetic). */
module RealSeq {

  /** Left-to-right sum, the order in which an accumulator loop adds. */
  function Sum(s: seq<real>): real
  {
    if s == [] then 0.0 else Sum(s[..|s| - 1]) + s[|s| - 1]
  }

  /** Left-to-right sum of squares: the inner product of a buffer with itself. */
  function SumSquares(s: seq<real>): real
  {
    if s == [] then 0.0 else SumSquares(s[..|s| - 1]) + s[|s| - 1] * s[|s| - 1]
  }

  /** Sum of squared deviations from `m`. */
  function SquaredDeviations(s: seq<real>, m: real): real
  {
    if s == [] then 0.0
    else SquaredDeviations(s[..|s| - 1], m) + (s[|s| - 1] - m) * (s[|s| - 1] - m)
  }

  predicate Sorted(s: seq<real>)
  {
    forall i, j :: 0 <= i < j < |s| ==> s[i] <= s[j]
  }

  predicate IsMin(m: real, s: seq<real>)
  {
    m in s && forall x :: x in s ==> m <= x
  }

  predicate IsMax(m: real, s: seq<real>)
  {
    m in s && forall x :: x in s ==> x <= m
  }

  /** Inserts `x` before the first element not smaller than it. */
  function Insert(x: real, s: seq<real>): (r: seq<real>)
    ensures multiset(r) == multiset(s) + multiset{x}
  {
    if s == [] || x <= s[0] then [x] + s
    else
      assert s == [s[0]] + s[1..];
      [s[0]] + Insert(x, s[1..])
  }

  /** Inserting into a sorted sequence keeps it sorted. */
  lemma {:induction false} InsertSorted(x: real, s: seq<real>)
    requires Sorted(s)
    ensures Sorted(Insert(x, s))
  {
    if s == [] || x <= s[0] {
      forall y | y in s
        ensures x <= y
      {
        SortedHeadIsLeast(s, y);
      }
      ConsSorted(x, s);
    } else {
      var rest := Insert(x, s[1..]);
      SortedTail(s);
      InsertSorted(x, s[1..]);
      forall y | y in rest
        ensures s[0] <= y
      {
        assert y in multiset(rest);
        if y != x {
          assert y in multiset(s[1..]);
          assert y in s;
          SortedHeadIsLeast(s, y);
        }
      }
      ConsSorted(s[0], rest);
    }
  }

  /** A head at most every element of a sorted tail gives a sorted sequence. */
  lemma ConsSorted(h: real, t: seq<real>)
    requires Sorted(t)
    requires forall y :: y in t ==> h <= y
    ensures Sorted([h] + t)
  {
    var r := [h] + t;
    forall i, j | 0 <= i < j < |r|
      ensures r[i] <= r[j]
    {
      assert r[j] == t[j - 1];
      if i > 0 {
        assert r[i] == t[i - 1];
      } else {
        assert t[j - 1] in t;
      }
    }
  }

  /** The sorted copy of a buffer: the value an in-place comparison sort
      leaves in a copy of `s`. */
  function SortedCopy(s: seq<real>): (r: seq<real>)
    ensures Sorted(r)
    ensures multiset(r) == multiset(s)
    ensures |r| == |s|
  {
    if s == [] then []
    else
      assert s == [s[0]] + s[1..];
      var r := Insert(s[0], SortedCopy(s[1..]));
      InsertSorted(s[0], SortedCopy(s[1..]));
      assert |r| == |multiset(r)|;
      r
  }

  /** A sorted permutation is unique: whatever sort produced it, a sorted
      sequence with the multiset of `s` is `SortedCopy(s)`. */
  lemma {:induction false} SortedUnique(a: seq<real>, b: seq<real>)
    requires Sorted(a) && Sorted(b)
    requires multiset(a) == multiset(b)
    ensures a == b
  {
    assert |a| == |multiset(a)| == |multiset(b)| == |b|;
    if a != [] {
      assert b[0] in multiset(a) && a[0] in multiset(b);
      SortedHeadIsLeast(a, b[0]);
      SortedHeadIsLeast(b, a[0]);
      var x := a[0];
      assert b[0] == x;
      var a', b' := a[1..], b[1..];
      assert a == [x] + a' && b == [x] + b';
      MultisetRemove(a, 0);
      MultisetRemove(b, 0);
      assert a[..0] + a[1..] == a' && b[..0] + b[1..] == b';
      SortedTail(a);
      SortedTail(b);
      SortedUnique(a', b');
    }
  }

  lemma SortedTail(a: seq<real>)
    requires Sorted(a) && a != []
    ensures Sorted(a[1..])
  {
    forall i, j | 0 <= i < j < |a| - 1
      ensures a[1..][i] <= a[1..][j]
    {
      assert a[1..][i] == a[i + 1] && a[1..][j] == a[j + 1];
    }
  }

  /** The head of a sorted sequence is at most each of its elements. */
  lemma SortedHeadIsLeast(a: seq<real>, x: real)
    requires Sorted(a) && x in a
    ensures a[0] <= x
  {
    var j :| 0 <= j < |a| && a[j] == x;
  }

  /** In a sorted permutation of a non-empty buffer, the first element is
      the buffer's minimum and the last its maximum. */
  lemma SortedEnds(r: seq<real>, s: seq<real>)
    requires Sorted(r) && multiset(r) == multiset(s)
    requires s != []
    ensures |r| == |s|
    ensures IsMin(r[0], s)
    ensures IsMax(r[|s| - 1], s)
  {
    assert |r| == |multiset(r)| == |multiset(s)| == |s|;
    forall x | x in s
      ensures r[0] <= x <= r[|s| - 1]
    {
      assert x in multiset(r);
      var j :| 0 <= j < |r| && r[j] == x;
    }
    assert r[0] in multiset(s) && r[|s| - 1] in multiset(s);
  }

  lemma {:induction false} SumConcat(p: seq<real>, q: seq<real>)
    ensures Sum(p + q) == Sum(p) + Sum(q)
  {
    if q == [] {
      assert p + q == p;
    } else {
      var q' := q[..|q| - 1];
      assert (p + q)[..|p + q| - 1] == p + q';
      SumConcat(p, q');
    }
  }

  /** Removing the element at `j` takes exactly that element off the sum. */
  lemma SumRemove(s: seq<real>, j: nat)
    requires j < |s|
    ensures Sum(s) == Sum(s[..j] + s[j + 1..]) + s[j]
  {
    var p, x, q := s[..j], s[j], s[j + 1..];
    assert s == p + ([x] + q);
    SumConcat(p, [x] + q);
    SumConcat([x], q);
    SumConcat(p, q);
    SumSingleton(x);
  }

  lemma SumSingleton(x: real)
    ensures Sum([x]) == x
  {
    assert [x][..0] == [];
  }

  /** The sum depends only on the multiset of values: reordering a buffer
      (sorting it, for one) leaves its sum and mean unchanged. */
  lemma {:induction false} SumPermutation(a: seq<real>, b: seq<real>)
    requires multiset(a) == multiset(b)
    ensures Sum(a) == Sum(b)
  {
    assert |a| == |multiset(a)| == |multiset(b)| == |b|;
    if a != [] {
      var a' := a[..|a| - 1];
      var x := a[|a| - 1];
      MultisetRemove(a, |a| - 1);
      assert a[..|a| - 1] + a[|a|..] == a';
      assert x in b by {
        assert x in multiset(b);
      }
      var j :| 0 <= j < |b| && b[j] == x;
      MultisetRemove(b, j);
      var b' := b[..j] + b[j + 1..];
      SumRemove(b, j);
      SumPermutation(a', b');
    }
  }

  /** Removing the element at `j` removes one occurrence from the multiset. */
  lemma MultisetRemove(s: seq<real>, j: nat)
    requires j < |s|
    ensures multiset(s[..j] + s[j + 1..]) == multiset(s) - multiset{s[j]}
  {
    assert s == s[..j] + [s[j]] + s[j + 1..];
  }

  /** A buffer of `n` copies of `c` sums to `n * c`. */
  lemma {:induction false} SumConstant(s: seq<real>, c: real)
    requires forall i :: 0 <= i < |s| ==> s[i] == c
    ensures Sum(s) == |s| as real * c
    ensures SumSquares(s) == |s| as real * (c * c)
  {
    if s != [] {
      SumConstant(s[..|s| - 1], c);
    }
  }

  /** Expands the squared deviations: sum (x - m)^2 == sum x^2 - 2 m sum x + n m^2. */
  lemma {:induction false} SquaredDeviationsExpand(s: seq<real>, m: real)
    ensures SquaredDeviations(s, m) == SumSquares(s) - 2.0 * (m * Sum(s)) + |s| as real * (m * m)
  {
    if s != [] {
      var s' := s[..|s| - 1];
      SquaredDeviationsExpand(s', m);
      ExpandStep(SquaredDeviations(s', m), SumSquares(s'), Sum(s'), |s'| as real, s[|s| - 1], m,
                 SquaredDeviations(s, m), SumSquares(s), Sum(s), |s| as real);
    }
  }

  /** One step of the expansion, on plain numbers: appending x to a buffer
      with moments (d, q, t, n) gives moments (d', q', t', n'). */
  lemma ExpandStep(d: real, q: real, t: real, n: real, x: real, m: real,
                   d': real, q': real, t': real, n': real)
    requires d == q - 2.0 * (m * t) + n * (m * m)
    requires d' == d + (x - m) * (x - m) && q' == q + x * x && t' == t + x && n' == n + 1.0
    ensures d' == q' - 2.0 * (m * t') + n' * (m * m)
  {
    assert (x - m) * (x - m) == x * x - 2.0 * (m * x) + m * m;
    assert m * (t + x) == m * t + m * x;
    assert (n + 1.0) * (m * m) == n * (m * m) + m * m;
  }

  lemma {:induction false} SquaredDeviationsNonNegative(s: seq<real>, m: real)
    ensures SquaredDeviations(s, m) >= 0.0
  {
    if s != [] {
      var x := s[|s| - 1];
      SquaredDeviationsNonNegative(s[..|s| - 1], m);
      assert (x - m) * (x - m) >= 0.0;
    }
  }

  /** Elements between `lo` and `hi` sum to between |s| lo and |s| hi. */
  lemma {:induction false} SumBounded(s: seq<real>, lo: real, hi: real)
    requires forall k :: 0 <= k < |s| ==> lo <= s[k] <= hi
    ensures |s| as real * lo <= Sum(s) <= |s| as real * hi
  {
    if s != [] {
      SumBounded(s[..|s| - 1], lo, hi);
      assert (|s| - 1) as real * lo + lo == |s| as real * lo;
      assert (|s| - 1) as real * hi + hi == |s| as real * hi;
    }
  }

  /** n lo <= t <= n hi gives lo <= t / n <= hi. */
  lemma QuotientBetween(t: real, n: real, lo: real, hi: real)
    requires n > 0.0 && n * lo <= t <= n * hi
    ensures lo <= t / n <= hi
  {
    assert t / n * n == t;
  }

  /** Dividing `n` copies of `c` by `n` gives `c` back. */
  lemma DivideProduct(n: real, c: real, t: real)
    requires n > 0.0 && t == n * c
    ensures t / n == c
  {
  }
}
