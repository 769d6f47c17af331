/**
 Ordering vocabulary for integer sequences: ascending order, least and
 greatest element, the ascending sort performed by `Array.prototype.sort`
 with the numeric comparator `(a, b) => a - b`, and counts of the elements
 on either side of a pivot.
 */
module Order {

  /** Ascending order, duplicates allowed. */
  ghost predicate Sorted(s: seq<int>) {
    forall i, j :: 0 <= i < j < |s| ==> s[i] <= s[j]
  }

  /** The least element of a non-empty sequence. */
  function SeqMin(s: seq<int>): (m: int)
    requires |s| > 0
    ensures m in s
    ensures forall i :: 0 <= i < |s| ==> m <= s[i]
  {
    if |s| == 1 then s[0]
    else
      var rest := SeqMin(s[1..]);
      if s[0] <= rest then s[0] else rest
  }

  /** The greatest element of a non-empty sequence. */
  function SeqMax(s: seq<int>): (m: int)
    requires |s| > 0
    ensures m in s
    ensures forall i :: 0 <= i < |s| ==> s[i] <= m
  {
    if |s| == 1 then s[0]
    else
      var rest := SeqMax(s[1..]);
      if s[0] >= rest then s[0] else rest
  }

  /** Places `x` into an ascending sequence, keeping it ascending. */
  function Insert(x: int, s: seq<int>): (r: seq<int>)
    requires Sorted(s)
    ensures Sorted(r)
    ensures multiset(r) == multiset(s) + multiset{x}
    ensures |r| == |s| + 1
    ensures r[0] == x || (|s| > 0 && r[0] == s[0])
  {
    if |s| == 0 then [x]
    else if x <= s[0] then
      ConsSorted(x, s);
      [x] + s
    else
      var tail := Insert(x, s[1..]);
      ConsSorted(s[0], tail);
      assert s == [s[0]] + s[1..];
      [s[0]] + tail
  }

  /** Putting an element no larger than the head in front keeps a sequence ascending. */
  lemma ConsSorted(h: int, t: seq<int>)
    requires Sorted(t)
    requires |t| > 0 ==> h <= t[0]
    ensures Sorted([h] + t)
  {
  }

  /**
   The ascending numeric sort `sort((a, b) => a - b)` that `getPrioritizationFees`
   applies to the slots and to the non-zero fees: the result is in ascending
   order and holds exactly the elements of the input, duplicates included.
   */
  function SortAsc(s: seq<int>): (r: seq<int>)
    ensures Sorted(r)
    ensures multiset(r) == multiset(s)
    ensures |r| == |s|
  {
    if |s| == 0 then []
    else
      assert s == [s[0]] + s[1..];
      Insert(s[0], SortAsc(s[1..]))
  }

  /**
   Two ascending sequences with the same elements are equal: the outcome of
   the sort depends only on the multiset of its input, so how ties are
   ordered cannot show in any position.
   */
  lemma {:induction false} SortedUnique(a: seq<int>, b: seq<int>)
    requires Sorted(a) && Sorted(b)
    requires multiset(a) == multiset(b)
    ensures a == b
    decreases |a|
  {
    if |a| == 0 {
      assert |b| == |multiset(b)| == 0;
    } else {
      SortedSameHead(a, b);
      SortedUnique(a[1..], b[1..]);
      assert a == [a[0]] + a[1..];
      assert b == [b[0]] + b[1..];
    }
  }

  /** Two ascending sequences with the same elements start alike and continue with the same elements. */
  lemma SortedSameHead(a: seq<int>, b: seq<int>)
    requires Sorted(a) && Sorted(b)
    requires multiset(a) == multiset(b)
    requires |a| > 0
    ensures |b| > 0 && a[0] == b[0]
    ensures multiset(a[1..]) == multiset(b[1..])
    ensures Sorted(a[1..]) && Sorted(b[1..])
  {
    assert |b| == |multiset(b)| == |a|;
    SortedFirstLeast(a, b[0]);
    SortedFirstLeast(b, a[0]);
    MultisetTail(a);
    MultisetTail(b);
  }

  /** The first element of an ascending sequence is at most any of its elements. */
  lemma SortedFirstLeast(a: seq<int>, x: int)
    requires Sorted(a) && x in multiset(a)
    ensures |a| > 0 && a[0] <= x
  {
    var i :| 0 <= i < |a| && a[i] == x;
  }

  /** Dropping the first element removes one occurrence of it; the rest stays ascending. */
  lemma MultisetTail(a: seq<int>)
    requires |a| > 0
    ensures multiset(a[1..]) == multiset(a) - multiset{a[0]}
    ensures Sorted(a) ==> Sorted(a[1..])
  {
    assert a == [a[0]] + a[1..];
  }

  /**
   The first and last elements of an ascending rearrangement of `s` are the
   least and the greatest element of `s`.
   */
  lemma SortedEnds(s: seq<int>, t: seq<int>)
    requires |s| > 0
    requires Sorted(t) && multiset(t) == multiset(s)
    ensures |t| == |s|
    ensures t[0] == SeqMin(s) && t[|t| - 1] == SeqMax(s)
  {
    assert |t| == |multiset(t)| == |s|;
    var lo, hi := SeqMin(s), SeqMax(s);
    assert lo in multiset(t) && hi in multiset(t);
    assert t[0] in multiset(s) && t[|t| - 1] in multiset(s);
    var i :| 0 <= i < |t| && t[i] == lo;
    var j :| 0 <= j < |t| && t[j] == hi;
  }

  /**
   The first and last elements of the sort bound every element of the input
   and are themselves elements of it.
   */
  lemma SortAscEnds(s: seq<int>)
    requires |s| > 0
    ensures var t := SortAsc(s);
      && |t| == |s|
      && (forall i :: 0 <= i < |s| ==> t[0] <= s[i] <= t[|t| - 1])
      && t[0] in s && t[|t| - 1] in s
  {
    SortedEnds(s, SortAsc(s));
  }

  /** Number of elements strictly below `pivot`. */
  function CountBelow(s: seq<int>, pivot: int): nat
  {
    if |s| == 0 then 0
    else (if s[0] < pivot then 1 else 0) + CountBelow(s[1..], pivot)
  }

  /** Number of elements strictly above `pivot`. */
  function CountAbove(s: seq<int>, pivot: int): nat
  {
    if |s| == 0 then 0
    else (if s[0] > pivot then 1 else 0) + CountAbove(s[1..], pivot)
  }

  /** Inserting `x` adds one to a count exactly when `x` is on that side of the pivot. */
  lemma {:induction false} InsertCounts(x: int, s: seq<int>, pivot: int)
    requires Sorted(s)
    ensures CountBelow(Insert(x, s), pivot) == CountBelow(s, pivot) + (if x < pivot then 1 else 0)
    ensures CountAbove(Insert(x, s), pivot) == CountAbove(s, pivot) + (if x > pivot then 1 else 0)
  {
    if |s| > 0 && x > s[0] {
      InsertCounts(x, s[1..], pivot);
      var r := Insert(x, s);
      assert r[0] == s[0] && r[1..] == Insert(x, s[1..]);
    } else if |s| > 0 {
      var r := Insert(x, s);
      assert r[0] == x && r[1..] == s;
    }
  }

  /** Sorting does not change how many elements lie on either side of a pivot. */
  lemma {:induction false} SortKeepsCounts(s: seq<int>, pivot: int)
    ensures CountBelow(SortAsc(s), pivot) == CountBelow(s, pivot)
    ensures CountAbove(SortAsc(s), pivot) == CountAbove(s, pivot)
  {
    if |s| > 0 {
      SortKeepsCounts(s[1..], pivot);
      InsertCounts(s[0], SortAsc(s[1..]), pivot);
    }
  }

  /** If everything from position `k` on is at least `pivot`, at most `k` elements lie below it. */
  lemma {:induction false} CountBelowPrefix(s: seq<int>, pivot: int, k: nat)
    requires k <= |s|
    requires forall i :: k <= i < |s| ==> s[i] >= pivot
    ensures CountBelow(s, pivot) <= k
    decreases |s|
  {
    if |s| > 0 {
      if k == 0 {
        CountBelowPrefix(s[1..], pivot, 0);
      } else {
        CountBelowPrefix(s[1..], pivot, k - 1);
      }
    }
  }

  /** If everything before position `k` is at most `pivot`, at most `|s| - k` elements lie above it. */
  lemma {:induction false} CountAboveSuffix(s: seq<int>, pivot: int, k: nat)
    requires k <= |s|
    requires forall i :: 0 <= i < k ==> s[i] <= pivot
    ensures CountAbove(s, pivot) <= |s| - k
    decreases |s|
  {
    if |s| > 0 {
      if k == 0 {
        CountAboveSuffix(s[1..], pivot, 0);
      } else {
        CountAboveSuffix(s[1..], pivot, k - 1);
      }
    }
  }
}
