/**
 The median of the non-zero fees: an ascending sort followed by a
 positional pick of the middle element (odd count) or the floor of the mean
 of the two middle elements (even count), and 0 for an empty sequence.
 */
module Medians {
  import opened Order

  /** The positional pick on an already sorted sequence. */
  function Middle(sorted: seq<int>): int
  {
    if |sorted| > 0 then
      var mid := |sorted| / 2;
      if |sorted| % 2 != 0 then sorted[mid]
      else (sorted[mid - 1] + sorted[mid]) / 2
    else 0
  }

  /** The reported median: sort ascending, then pick the middle. */
  function Median(fees: seq<int>): int
  {
    Middle(SortAsc(fees))
  }

  /**
   In an ascending sequence the middle pick splits the values: everything
   from position `|t| / 2` on is at least the pick, and everything before
   position `|t| - |t| / 2` is at most it.
   */
  lemma MiddleSplitsSorted(t: seq<int>)
    requires Sorted(t) && |t| > 0
    ensures forall i :: |t| / 2 <= i < |t| ==> Middle(t) <= t[i]
    ensures forall i :: 0 <= i < |t| - |t| / 2 ==> t[i] <= Middle(t)
  {
    var n, mid := |t|, |t| / 2;
    if n % 2 != 0 {
      assert Middle(t) == t[mid];
      assert n - mid == mid + 1;
    } else {
      var a, b := t[mid - 1], t[mid];
      assert Middle(t) == (a + b) / 2;
      assert a <= b;
      assert n - mid == mid;
      assert forall i :: mid <= i < n ==> b <= t[i];
      assert forall i :: 0 <= i < mid ==> t[i] <= a;
    }
  }

  /** The median of a non-empty sequence lies between its least and greatest element. */
  lemma MedianBounds(fees: seq<int>)
    requires |fees| > 0
    ensures SeqMin(fees) <= Median(fees) <= SeqMax(fees)
  {
    var sorted := SortAsc(fees);
    SortedEnds(fees, sorted);
    MiddleSplitsSorted(sorted);
    assert Middle(sorted) <= sorted[|sorted| - 1];
    assert sorted[0] <= Middle(sorted);
  }

  /**
   The median splits the sequence: at most half of the elements (rounded
   down) lie strictly below it and at most half strictly above it.
   */
  lemma MedianSplits(fees: seq<int>)
    ensures CountBelow(fees, Median(fees)) <= |fees| / 2
    ensures CountAbove(fees, Median(fees)) <= |fees| / 2
  {
    var sorted := SortAsc(fees);
    var m := Middle(sorted);
    SortKeepsCounts(fees, m);
    if |sorted| > 0 {
      MiddleSplitsSorted(sorted);
      CountBelowPrefix(sorted, m, |sorted| / 2);
      CountAboveSuffix(sorted, m, |sorted| - |sorted| / 2);
    }
  }

  /** The median depends only on which values occur and how often, not on their order. */
  lemma MedianOrderInsensitive(a: seq<int>, b: seq<int>)
    requires multiset(a) == multiset(b)
    ensures Median(a) == Median(b)
  {
    SortedUnique(SortAsc(a), SortAsc(b));
  }

  /** Worked values: [10] gives 10, [10, 30] gives 20, [5, 10, 30] gives 10. */
  lemma MedianExamples(one: seq<int>, two: seq<int>, three: seq<int>)
    requires one == [10] && two == [10, 30] && three == [5, 10, 30]
    ensures Median(one) == 10
    ensures Median(two) == 20
    ensures Median(three) == 10
  {
    assert Sorted(one) && Middle(one) == 10;
    MedianOfSorted(one);
    assert Sorted(two) && Middle(two) == 20;
    MedianOfSorted(two);
    assert Sorted(three) && Middle(three) == 10;
    MedianOfSorted(three);
  }

  /** An ascending sequence is its own sort, so its median is its positional middle. */
  lemma MedianOfSorted(t: seq<int>)
    requires Sorted(t)
    ensures Median(t) == Middle(t)
  {
    SortedUnique(SortAsc(t), t);
  }
}
