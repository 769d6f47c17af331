/**
 Sums and floor means of integer sequences. `Sum` is the reference
 definition; `Reduce` is the left-to-right accumulation of
 `reduce((acc, x) => acc + x, 0)`, and `FloorMean` is `Math.floor(sum / n)`
 guarded against an empty divisor.
 */
module Sums {
  import opened Order

  /** The sum of all elements. */
  function Sum(s: seq<int>): int
  {
    if |s| == 0 then 0 else s[0] + Sum(s[1..])
  }

  lemma {:induction false} SumAppend(a: seq<int>, b: seq<int>)
    ensures Sum(a + b) == Sum(a) + Sum(b)
    decreases |a|
  {
    if |a| == 0 {
      assert a + b == b;
    } else {
      assert (a + b)[0] == a[0];
      assert (a + b)[1..] == a[1..] + b;
      SumAppend(a[1..], b);
    }
  }

  /** The sum does not depend on the order of the elements. */
  lemma {:induction false} SumPermutation(a: seq<int>, b: seq<int>)
    requires multiset(a) == multiset(b)
    ensures Sum(a) == Sum(b)
    decreases |a|
  {
    assert |a| == |multiset(a)| == |multiset(b)| == |b|;
    if |a| > 0 {
      assert a[0] in multiset(b);
      var j :| 0 <= j < |b| && b[j] == a[0];
      var rest := b[..j] + b[j + 1..];
      SumRemove(b, j);
      assert a == [a[0]] + a[1..];
      assert multiset(a[1..]) == multiset(a) - multiset{a[0]};
      SumPermutation(a[1..], rest);
    }
  }

  /** Taking out the element at position `j` lowers the sum by that element. */
  lemma SumRemove(b: seq<int>, j: int)
    requires 0 <= j < |b|
    ensures Sum(b) == b[j] + Sum(b[..j] + b[j + 1..])
    ensures multiset(b[..j] + b[j + 1..]) == multiset(b) - multiset{b[j]}
  {
    var left, mid, right := b[..j], b[j..], b[j + 1..];
    assert b == left + mid;
    SumAppend(left, mid);
    assert mid[0] == b[j] && mid[1..] == right;
    SumAppend(left, right);
    MultisetRemove(b, j);
  }

  lemma MultisetRemove(b: seq<int>, j: int)
    requires 0 <= j < |b|
    ensures multiset(b[..j] + b[j + 1..]) == multiset(b) - multiset{b[j]}
  {
    assert b == b[..j] + [b[j]] + b[j + 1..];
  }

  /**
   The accumulation `reduce((acc, x) => acc + x, 0)`: starting from zero,
   add each element in input order.
   */
  method Reduce(s: seq<int>) returns (acc: int)
    ensures acc == Sum(s)
  {
    acc := 0;
    var i := 0;
    while i < |s|
      invariant 0 <= i <= |s|
      invariant acc == Sum(s[..i])
    {
      assert s[..i + 1] == s[..i] + [s[i]];
      SumAppend(s[..i], [s[i]]);
      acc := acc + s[i];
      i := i + 1;
    }
    assert s[..i] == s;
  }

  /**
   `Math.floor(Sum(s) / |s|)` when `s` is non-empty and 0 otherwise. With a
   positive divisor Dafny's `/` rounds toward negative infinity, as
   `Math.floor` of the exact quotient does.
   */
  function FloorMean(s: seq<int>): int
  {
    if |s| > 0 then Sum(s) / |s| else 0
  }

  /** Every element within `[lo, hi]` puts the sum within `[lo * |s|, hi * |s|]`. */
  lemma {:induction false} SumBounds(s: seq<int>, lo: int, hi: int)
    requires forall i :: 0 <= i < |s| ==> lo <= s[i] <= hi
    ensures lo * |s| <= Sum(s) <= hi * |s|
    decreases |s|
  {
    if |s| > 0 {
      SumBounds(s[1..], lo, hi);
      assert lo * |s| == lo + lo * (|s| - 1);
      assert hi * |s| == hi + hi * (|s| - 1);
    }
  }

  /** A sequence of known length and sum has the floor mean of those two numbers. */
  lemma FloorMeanOf(s: seq<int>, total: int, n: int)
    requires |s| == n > 0 && Sum(s) == total
    ensures FloorMean(s) == total / n
  {
  }

  /** `m` is the floor of `total / n`: the largest integer whose multiple by `n` does not exceed `total`. */
  ghost predicate IsFloorQuotient(m: int, total: int, n: int)
  {
    n > 0 && m * n <= total < (m + 1) * n
  }

  /**
   The floor mean of a non-empty sequence is the floor of its sum over its
   length, and it lies between the least and the greatest element.
   */
  lemma FloorMeanBounds(s: seq<int>)
    requires |s| > 0
    ensures IsFloorQuotient(FloorMean(s), Sum(s), |s|)
    ensures SeqMin(s) <= FloorMean(s) <= SeqMax(s)
  {
    var total, n := Sum(s), |s|;
    FloorDiv(total, n);
    assert FloorMean(s) == total / n;
    SumBounds(s, SeqMin(s), SeqMax(s));
    FloorBetween(total, n, FloorMean(s), SeqMin(s), SeqMax(s));
  }

  /** Division by a positive divisor rounds down: `total / n` is the floor of the exact quotient. */
  lemma FloorDiv(total: int, n: int)
    requires n > 0
    ensures IsFloorQuotient(total / n, total, n)
  {
    var q, r := total / n, total % n;
    assert total == q * n + r && 0 <= r < n;
    assert (q + 1) * n == q * n + n;
  }

  /** A floor quotient of a value within `[lo * n, hi * n]` is within `[lo, hi]`. */
  lemma FloorBetween(total: int, n: int, m: int, lo: int, hi: int)
    requires IsFloorQuotient(m, total, n)
    requires lo * n <= total <= hi * n
    ensures lo <= m <= hi
  {
    if m + 1 <= lo {
      MulMonotone(m + 1, lo, n);
    }
    if hi + 1 <= m {
      MulMonotone(hi + 1, m, n);
    }
  }

  lemma MulMonotone(x: int, y: int, n: nat)
    requires x <= y
    ensures x * n <= y * n
  {
    assert y * n == x * n + (y - x) * n;
  }

  /** Reordering the elements leaves the floor mean unchanged. */
  lemma FloorMeanPermutation(a: seq<int>, b: seq<int>)
    requires multiset(a) == multiset(b)
    ensures FloorMean(a) == FloorMean(b)
  {
    assert |a| == |multiset(a)| == |multiset(b)| == |b|;
    SumPermutation(a, b);
  }
}
