/**
 The statistics block of `getPrioritizationFees`: a sequence of recent
 per-slot prioritization-fee observations is reduced to the examined slot
 range, the floor mean of all fees, the floor mean of the non-zero fees and
 the floor median of the non-zero fees. An empty sequence yields no
 statistics at all.
 */
module PrioritizationFees {
  import opened Wrappers
  import opened Order
  import opened Sums
  import opened Medians

  /** One observation returned by the fee query: a slot and the fee paid in it (micro-lamports). */
  datatype Observation = Observation(slot: int, prioritizationFee: nat)

  /** The values the script derives and reports. */
  datatype Summary = Summary(
    sampleCount: nat,
    slotsRangeStart: int,
    slotsRangeEnd: int,
    averageFeeIncludingZeros: int,
    averageFeeExcludingZeros: int,
    medianFee: int)

  /** The slot of every observation, in input order, duplicates kept. */
  function Slots(obs: seq<Observation>): seq<int>
  {
    seq(|obs|, i requires 0 <= i < |obs| => obs[i].slot)
  }

  /** The fee of every observation, in input order. */
  function Fees(obs: seq<Observation>): seq<nat>
  {
    seq(|obs|, i requires 0 <= i < |obs| => obs[i].prioritizationFee)
  }

  /**
   `filter(fee => fee !== 0)`: the positive fees, each kept as often as it
   occurs and nothing else.
   */
  function NonZero(fees: seq<nat>): (r: seq<nat>)
    ensures |r| <= |fees|
    ensures forall k :: 0 <= k < |r| ==> r[k] > 0
    ensures multiset(r) == multiset(fees)[0 := 0]
  {
    if |fees| == 0 then []
    else
      assert fees == [fees[0]] + fees[1..];
      (if fees[0] != 0 then [fees[0]] else []) + NonZero(fees[1..])
  }

  /**
   No fee survives the filter exactly when every fee is 0, and then both
   statistics of the non-zero fees fall back to 0.
   */
  lemma NonZeroEmpty(fees: seq<nat>)
    ensures |NonZero(fees)| == 0 <==> forall i :: 0 <= i < |fees| ==> fees[i] == 0
    ensures |NonZero(fees)| == 0 ==> FloorMean(NonZero(fees)) == 0 && Median(NonZero(fees)) == 0
  {
    var r := NonZero(fees);
    if |r| > 0 {
      assert r[0] in multiset(r);
      var i :| 0 <= i < |fees| && fees[i] == r[0];
    } else {
      assert r == [] && SortAsc([]) == [];
      forall i | 0 <= i < |fees|
        ensures fees[i] == 0
      {
        assert fees[i] in multiset(fees);
        assert multiset(r)[fees[i]] == (if fees[i] == 0 then 0 else multiset(fees)[fees[i]]);
      }
    }
  }

  /** `idx` lists strictly increasing positions of `s` at which the elements of `r` stand. */
  ghost predicate IsSelection(idx: seq<int>, s: seq<int>, r: seq<int>)
  {
    && |idx| == |r|
    && (forall k :: 0 <= k < |idx| ==> 0 <= idx[k] < |s| && s[idx[k]] == r[k])
    && (forall k, l :: 0 <= k < l < |idx| ==> idx[k] < idx[l])
  }

  /** Every position moved one place to the right. */
  ghost function Shift(idx: seq<int>): seq<int>
  {
    seq(|idx|, k requires 0 <= k < |idx| => idx[k] + 1)
  }

  /** The positions of the non-zero fees, in ascending order. */
  ghost function NonZeroPositions(fees: seq<nat>): seq<int>
  {
    if |fees| == 0 then []
    else if fees[0] != 0 then [0] + Shift(NonZeroPositions(fees[1..]))
    else Shift(NonZeroPositions(fees[1..]))
  }

  /** A selection from the tail of `s` is, shifted by one, a selection from `s`. */
  lemma ShiftSelects(idx: seq<int>, s: seq<int>, r: seq<int>)
    requires |s| > 0
    requires IsSelection(idx, s[1..], r)
    ensures IsSelection(Shift(idx), s, r)
    ensures forall k :: 0 <= k < |idx| ==> Shift(idx)[k] >= 1
  {
    var sh := Shift(idx);
    forall k | 0 <= k < |sh|
      ensures 0 <= sh[k] < |s| && s[sh[k]] == r[k]
    {
      assert sh[k] == idx[k] + 1;
      assert s[1..][idx[k]] == s[idx[k] + 1];
    }
  }

  /** Positions covered by a selection from the tail are covered, shifted, in the whole. */
  lemma ShiftCovers(idx: seq<int>, fees: seq<nat>)
    requires |fees| > 0
    requires forall i :: 0 <= i < |fees| - 1 && fees[1..][i] != 0 ==> i in idx
    ensures forall i :: 0 < i < |fees| && fees[i] != 0 ==> i in Shift(idx)
  {
    var sh := Shift(idx);
    forall i | 0 < i < |fees| && fees[i] != 0
      ensures i in sh
    {
      assert fees[1..][i - 1] == fees[i];
      var k :| 0 <= k < |idx| && idx[k] == i - 1;
      assert sh[k] == i;
    }
  }

  /** Choosing position 0 in front of a selection of later positions is again a selection. */
  lemma PrependFirst(idx: seq<int>, s: seq<int>, r: seq<int>)
    requires |s| > 0
    requires IsSelection(idx, s, r)
    requires forall k :: 0 <= k < |idx| ==> idx[k] >= 1
    ensures IsSelection([0] + idx, s, [s[0]] + r)
  {
    var idx', r' := [0] + idx, [s[0]] + r;
    forall k | 1 <= k < |idx'|
      ensures 0 <= idx'[k] < |s| && s[idx'[k]] == r'[k]
    {
      assert idx'[k] == idx[k - 1] && r'[k] == r[k - 1];
    }
    forall k, l | 0 <= k < l < |idx'|
      ensures idx'[k] < idx'[l]
    {
      assert idx'[l] == idx[l - 1];
      if k > 0 {
        assert idx'[k] == idx[k - 1];
      }
    }
  }

  lemma {:induction false} NonZeroPositionsSelect(fees: seq<nat>)
    ensures IsSelection(NonZeroPositions(fees), fees, NonZero(fees))
    ensures forall i :: 0 <= i < |fees| && fees[i] != 0 ==> i in NonZeroPositions(fees)
    ensures forall k :: 0 <= k < |NonZeroPositions(fees)| ==> NonZeroPositions(fees)[k] >= 0
  {
    if |fees| > 0 {
      var tail := fees[1..];
      NonZeroPositionsSelect(tail);
      var rest := NonZeroPositions(tail);
      ShiftSelects(rest, fees, NonZero(tail));
      ShiftCovers(rest, fees);
      var sh := Shift(rest);
      if fees[0] != 0 {
        assert NonZero(fees) == [fees[0]] + NonZero(tail);
        assert NonZeroPositions(fees) == [0] + sh;
        PrependFirst(sh, fees, NonZero(tail));
      } else {
        assert NonZero(fees) == NonZero(tail);
        assert NonZeroPositions(fees) == sh;
      }
    }
  }

  /**
   The non-zero fees are exactly the fees that are not 0, in input order:
   some strictly increasing choice of positions picks them out of the fee
   sequence, and every position holding a non-zero fee is chosen.
   */
  lemma NonZeroIsOrderedSelection(fees: seq<nat>)
    ensures exists idx :: (IsSelection(idx, fees, NonZero(fees))
      && (forall i :: 0 <= i < |fees| && fees[i] != 0 ==> i in idx))
  {
    NonZeroPositionsSelect(fees);
    var idx := NonZeroPositions(fees);
    assert IsSelection(idx, fees, NonZero(fees));
  }

  /**
   The statistics computation. `None` is the early return taken when the
   query produced no observations; otherwise the slots are sorted to find
   the examined range and the three fee statistics are derived.
   */
  function Summarize(obs: seq<Observation>): (r: Option<Summary>)
    ensures r.None? <==> |obs| == 0
    ensures r.Some? ==> r.value.sampleCount == |obs|
  {
    if |obs| == 0 then None
    else
      var slots := SortAsc(Slots(obs));
      var nonZeroFees := NonZero(Fees(obs));
      Some(Summary(
        |obs|,
        slots[0],
        slots[|slots| - 1],
        FloorMean(Fees(obs)),
        FloorMean(nonZeroFees),
        Median(nonZeroFees)))
  }

  /** The fields of a summary, each named by the function that computes it. */
  lemma SummaryFields(obs: seq<Observation>)
    requires |obs| > 0
    ensures var s := Summarize(obs).value;
      var slots, nz := SortAsc(Slots(obs)), NonZero(Fees(obs));
      && s.slotsRangeStart == slots[0]
      && s.slotsRangeEnd == slots[|slots| - 1]
      && s.averageFeeIncludingZeros == FloorMean(Fees(obs))
      && s.averageFeeExcludingZeros == FloorMean(nz)
      && s.medianFee == Median(nz)
  {
    var slots, nz := SortAsc(Slots(obs)), NonZero(Fees(obs));
    assert Summarize(obs) == Some(Summary(
      |obs|, slots[0], slots[|slots| - 1], FloorMean(Fees(obs)), FloorMean(nz), Median(nz)));
  }

  /**
   The reported range starts at the least and ends at the greatest slot
   observed, both among the observed slots, with duplicates counted.
   */
  lemma SlotRange(obs: seq<Observation>)
    requires |obs| > 0
    ensures var s := Summarize(obs).value;
      && (forall i :: 0 <= i < |obs| ==> s.slotsRangeStart <= obs[i].slot <= s.slotsRangeEnd)
      && (exists i :: 0 <= i < |obs| && obs[i].slot == s.slotsRangeStart)
      && (exists i :: 0 <= i < |obs| && obs[i].slot == s.slotsRangeEnd)
  {
    SummaryFields(obs);
    SlotEnds(obs);
  }

  /** The ends of the sorted slot list bound every observed slot and are observed slots themselves. */
  lemma SlotEnds(obs: seq<Observation>)
    requires |obs| > 0
    ensures var t := SortAsc(Slots(obs));
      && (forall i :: 0 <= i < |obs| ==> t[0] <= obs[i].slot <= t[|t| - 1])
      && (exists i :: 0 <= i < |obs| && obs[i].slot == t[0])
      && (exists i :: 0 <= i < |obs| && obs[i].slot == t[|t| - 1])
  {
    var slots := Slots(obs);
    var t := SortAsc(slots);
    SortAscEnds(slots);
    forall i | 0 <= i < |obs|
      ensures t[0] <= obs[i].slot <= t[|t| - 1]
    {
      assert slots[i] == obs[i].slot;
    }
    var i :| 0 <= i < |slots| && slots[i] == t[0];
    assert obs[i].slot == t[0];
    var j :| 0 <= j < |slots| && slots[j] == t[|t| - 1];
    assert obs[j].slot == t[|t| - 1];
  }


  /**
   The mean including zeros is the floor of the total fee over the number
   of observations, counting zero-fee and repeated-slot observations.
   */
  lemma MeanIncludingZeros(obs: seq<Observation>)
    requires |obs| > 0
    ensures IsFloorQuotient(Summarize(obs).value.averageFeeIncludingZeros, Sum(Fees(obs)), |obs|)
    ensures var m := Summarize(obs).value.averageFeeIncludingZeros;
      SeqMin(Fees(obs)) <= m <= SeqMax(Fees(obs))
  {
    SummaryFields(obs);
    var fees := Fees(obs);
    assert |fees| == |obs|;
    FloorMeanBounds(fees);
  }

  /**
   The mean excluding zeros divides by the number of non-zero fees only; it
   is 0 when every fee is 0 and otherwise lies between the least and the
   greatest non-zero fee.
   */
  lemma MeanExcludingZeros(obs: seq<Observation>)
    requires |obs| > 0
    ensures var m := Summarize(obs).value.averageFeeExcludingZeros;
      var nz := NonZero(Fees(obs));
      && (|nz| == 0 ==> m == 0)
      && (|nz| > 0 ==> IsFloorQuotient(m, Sum(nz), |nz|))
      && (|nz| > 0 ==> 0 < SeqMin(nz) <= m <= SeqMax(nz))
  {
    SummaryFields(obs);
    PositiveMean(NonZero(Fees(obs)));
  }

  /** The floor mean of positive values is 0 for none and otherwise a positive value within their range. */
  lemma PositiveMean(nz: seq<int>)
    requires forall k :: 0 <= k < |nz| ==> nz[k] > 0
    ensures var m := FloorMean(nz);
      && (|nz| == 0 ==> m == 0)
      && (|nz| > 0 ==> IsFloorQuotient(m, Sum(nz), |nz|))
      && (|nz| > 0 ==> 0 < SeqMin(nz) <= m <= SeqMax(nz))
  {
    if |nz| > 0 {
      FloorMeanBounds(nz);
      var k :| 0 <= k < |nz| && nz[k] == SeqMin(nz);
    }
  }

  /**
   The mean excluding zeros is taken before the non-zero fees are sorted in
   place for the median; the mean of the sorted fees is the same value.
   */
  lemma MeanUnaffectedBySort(obs: seq<Observation>)
    requires |obs| > 0
    ensures Summarize(obs).value.averageFeeExcludingZeros == FloorMean(SortAsc(NonZero(Fees(obs))))
  {
    var nz := NonZero(Fees(obs));
    FloorMeanPermutation(nz, SortAsc(nz));
  }

  /**
   The reported median is 0 when every fee is 0; otherwise it lies between
   the least and greatest non-zero fee, with at most half of the non-zero
   fees strictly below it and at most half strictly above it.
   */
  lemma MedianFee(obs: seq<Observation>)
    requires |obs| > 0
    ensures var m := Summarize(obs).value.medianFee;
      var nz := NonZero(Fees(obs));
      && (|nz| == 0 ==> m == 0)
      && (|nz| > 0 ==> 0 < SeqMin(nz) <= m <= SeqMax(nz))
      && CountBelow(nz, m) <= |nz| / 2
      && CountAbove(nz, m) <= |nz| / 2
  {
    var nz := NonZero(Fees(obs));
    MedianSplits(nz);
    if |nz| > 0 {
      MedianBounds(nz);
    }
  }

  /**
   Fees 0, 0 and 100 observed in slots 7, 5 and 6 give the range 5 to 7, a
   mean of 33 including zeros, and 100 for both the mean and the median
   excluding zeros.
   */
  lemma ZeroFeeExample(obs: seq<Observation>)
    requires obs == [Observation(7, 0), Observation(5, 0), Observation(6, 100)]
    ensures Summarize(obs) == Some(Summary(3, 5, 7, 33, 100, 100))
  {
    var fees, slots := Fees(obs), Slots(obs);
    assert fees == [0, 0, 100];
    assert slots == [7, 5, 6];
    ExampleSlots(slots);
    ExampleFees(fees);
    SummaryFields(obs);
  }

  lemma ExampleSlots(slots: seq<int>)
    requires slots == [7, 5, 6]
    ensures SortAsc(slots) == [5, 6, 7]
  {
    var target := [5, 6, 7];
    assert multiset(slots) == multiset(target) by {
      assert slots == [7] + [5, 6] && target == [5, 6] + [7];
    }
    assert Sorted(target);
    SortedUnique(SortAsc(slots), target);
  }

  lemma ExampleFees(fees: seq<nat>)
    requires fees == [0, 0, 100]
    ensures NonZero(fees) == [100]
    ensures FloorMean(fees) == 33
    ensures FloorMean(NonZero(fees)) == 100
    ensures Median(NonZero(fees)) == 100
  {
    assert NonZero(fees[2..]) == [100];
    assert NonZero(fees[1..]) == [100];
    var nz := NonZero(fees);
    assert Sum(fees[2..]) == 100;
    assert Sum(fees[1..]) == 100;
    FloorMeanOf(fees, 100, 3);
    FloorMeanOf(nz, 100, 1);
    MedianOfSorted(nz);
  }
}
