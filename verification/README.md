# Prioritization-fee statistics

This project models the statistics block of `getPrioritizationFees` in the
Solana priority-fee scripts. The script asks an RPC node for recent
prioritization fees: one `{slot, prioritizationFee}` record per sampled slot,
with fees in micro-lamports. It reduces them to five reported values:

- the examined slot range, from the least slot to the greatest;
- the floor mean of all fees ("including zeros");
- the floor mean of the non-zero fees ("excluding zeros");
- the floor median of the non-zero fees;
- the number of samples.

An empty answer ends the function early, with no statistics.

The model lifts that block out of its async wrapper into a pure function.
`PrioritizationFees.Summarize(obs)` returns `None` for the early return and
`Some(Summary(...))` otherwise. The input is the sequence the RPC call
returned.

Modules:

- `Wrappers` (`wrappers.dfy`): the `Option` type.
- `Order` (`order.dfy`): ascending order and least/greatest element. It also
  holds the ascending numeric sort `SortAsc`, which stands for
  `Array.prototype.sort` with the comparator `(a, b) => a - b`. The sort is
  specified as "ascending and a permutation". Its outcome depends only on the
  multiset of its input. The module also counts the elements on either side
  of a pivot.
- `Sums` (`sums.dfy`): the sum, and the `reduce((acc, x) => acc + x, 0)`
  accumulation as a loop. It shows that the sum does not depend on element
  order. It also holds the floor mean `Math.floor(sum / n)` with the script's
  `n > 0 ? … : 0` guard, and its characterisation as a floor quotient.
- `Medians` (`median.dfy`): sort, then the odd/even positional middle pick.
- `PrioritizationFees` (`fees.dfy`): observations, the summary, the
  non-zero filter, and the reduction itself.

Fees are `nat` and slots are `int`. With a positive divisor Dafny's `/`
rounds toward negative infinity. That equals `Math.floor` of the exact
quotient, so the three floor divisions need no special case.

Two points about the script shape the model:

- For an empty answer the script logs a message and returns without computing
  any statistics, so the model returns `None`.
- The script filters with `fee !== 0`. With `nat` fees this keeps exactly the
  positive fees, and the model uses the same test.

## Model

| member | source | states |
|---|---|---|
| `PrioritizationFees.Summarize` | scripts/getRecentPrioritizationFees.ts:36-39 | no statistics exactly when the fee query returned no observations; otherwise the sample count is the number of observations, repeated slots included |
| `PrioritizationFees.Slots` | scripts/getRecentPrioritizationFees.ts:42 | the slot of every observation, in input order and one per observation; `Summarize` sorts it with `SortAsc` and `SlotRange` states what the ends of the sorted list mean |
| `Order.SortAsc` | scripts/getRecentPrioritizationFees.ts:42 | the sorted slots are in ascending order and are a permutation of the input slots (same multiset, duplicates kept) |
| `Order.SortedUnique` | scripts/getRecentPrioritizationFees.ts:64 | two ascending sequences with the same elements are equal, so how the numeric sort breaks ties cannot change any position it produces |
| `Order.SortedEnds` | scripts/getRecentPrioritizationFees.ts:44-46 | the first and last elements of an ascending permutation are the least and greatest elements of the original |
| `Order.SortAscEnds` | scripts/getRecentPrioritizationFees.ts:42-46 | the first and last elements of the ascending sort bound every input element and are input elements themselves |
| `PrioritizationFees.SlotRange` | scripts/getRecentPrioritizationFees.ts:42-46 | every observed slot lies between the reported start and end, and both start and end are slots of some observation (so start <= end) |
| `Sums.Sum` | scripts/getRecentPrioritizationFees.ts:50-60 | the reference value of both `reduce` calls: the total of all elements, 0 when empty; `Reduce` is proved to compute it and `SumPermutation` shows it ignores order |
| `Sums.Reduce` | scripts/getRecentPrioritizationFees.ts:50 | the left-to-right accumulation starting from 0 yields the sum of all elements |
| `Sums.SumPermutation` | scripts/getRecentPrioritizationFees.ts:59-64 | the sum of a sequence does not depend on the order of its elements |
| `Sums.FloorMean` | scripts/getRecentPrioritizationFees.ts:49-61 | `Math.floor(sum / n)` behind the `n > 0 ? … : 0` guard: 0 for an empty sequence; `FloorMeanBounds` characterises the non-empty case as the floor quotient |
| `Sums.FloorMeanBounds` | scripts/getRecentPrioritizationFees.ts:49-51 | for a non-empty sequence the floor mean m satisfies m * n <= sum < (m + 1) * n and lies between the least and greatest element |
| `Sums.FloorMeanPermutation` | scripts/getRecentPrioritizationFees.ts:59-64 | reordering the elements does not change the floor mean |
| `PrioritizationFees.MeanIncludingZeros` | scripts/getRecentPrioritizationFees.ts:49-51 | the reported mean including zeros is the floor of the total fee over the full observation count, zero fees and repeated slots included, and lies within the fee range |
| `PrioritizationFees.Fees` | scripts/getRecentPrioritizationFees.ts:55 | the fee of every observation, in input order and one per observation, zeros kept; the input of the mean including zeros and of the non-zero filter |
| `PrioritizationFees.NonZero` | scripts/getRecentPrioritizationFees.ts:54-56 | the filtered fees are no more than the fees, all positive, and hold every non-zero fee as often as it occurs and no zero |
| `PrioritizationFees.NonZeroIsOrderedSelection` | scripts/getRecentPrioritizationFees.ts:54-56 | the filtered fees are picked from the fee sequence at strictly increasing positions (input order) and every position holding a non-zero fee is picked |
| `PrioritizationFees.NonZeroEmpty` | scripts/getRecentPrioritizationFees.ts:54-71 | the non-zero subset is empty exactly when every fee is 0, and then both its floor mean and its median are 0 |
| `PrioritizationFees.MeanExcludingZeros` | scripts/getRecentPrioritizationFees.ts:59-61 | the reported mean excluding zeros is 0 for an empty non-zero subset; otherwise it is the floor of their sum over their count only, positive, and between the least and greatest non-zero fee |
| `PrioritizationFees.PositiveMean` | scripts/getRecentPrioritizationFees.ts:59-61 | the floor mean of positive values is 0 for none and otherwise a positive floor quotient within their range, so there is never a division by zero |
| `PrioritizationFees.MeanUnaffectedBySort` | scripts/getRecentPrioritizationFees.ts:59-64 | the mean excluding zeros, taken before the in-place sort, equals the mean of the sorted non-zero fees |
| `Medians.Middle` | scripts/getRecentPrioritizationFees.ts:65-71 | on a sorted list: the element at index `n / 2` for odd length, the floor of the mean of the elements at `n / 2 - 1` and `n / 2` for even length, 0 when empty; `MiddleSplitsSorted` shows it splits the sorted list |
| `Medians.Median` | scripts/getRecentPrioritizationFees.ts:64-71 | ascending sort, then the middle element for odd length or the floor of the two middle elements' mean for even length; 0 when empty; its partners are `MedianOfSorted`, `MedianBounds`, `MedianSplits` and `MedianOrderInsensitive` |
| `Medians.MedianOfSorted` | scripts/getRecentPrioritizationFees.ts:66-71 | on an already ascending sequence the median is the positional middle pick (middle element for odd length, floor of the two middle elements' mean for even length) |
| `Medians.MedianBounds` | scripts/getRecentPrioritizationFees.ts:64-71 | the median of a non-empty sequence lies between its least and greatest element |
| `Medians.MedianSplits` | scripts/getRecentPrioritizationFees.ts:64-71 | at most half (rounded down) of the values lie strictly below the median and at most half strictly above it |
| `Medians.MedianOrderInsensitive` | scripts/getRecentPrioritizationFees.ts:64 | the median depends only on which values occur and how often, not on their input order |
| `Medians.MedianExamples` | scripts/getRecentPrioritizationFees.ts:66-71 | [10] gives 10, [10, 30] gives 20, [5, 10, 30] gives 10 |
| `Order.SortKeepsCounts` | scripts/getRecentPrioritizationFees.ts:64 | sorting keeps the number of values below and above any pivot |
| `PrioritizationFees.MedianFee` | scripts/getRecentPrioritizationFees.ts:63-71 | the reported median is 0 when every fee is 0; otherwise it is positive, between the least and greatest non-zero fee, with at most half the non-zero fees strictly on either side |
| `PrioritizationFees.ZeroFeeExample` | scripts/getRecentPrioritizationFees.ts:36-71 | fees 0, 0, 100 in slots 7, 5, 6 give range 5 to 7, mean 33 including zeros, and 100 for both the mean and the median excluding zeros |

## Left out

- `scripts/solana-priority-fees.ts` as a whole. It loads configuration,
  decodes the key with `bs58`, and builds, signs, sends and confirms a
  transaction through `@solana/web3.js`. All of that is network I/O or calls
  into an opaque library. `0.001 * LAMPORTS_PER_SOL` is floating point.
- `getEnvVariable` and `dotenv` (scripts/getRecentPrioritizationFees.ts:5-11):
  process-environment I/O.
- The `Connection`, the hard-coded `PublicKey` account filter and the
  `getRecentPrioritizationFees` RPC call (lines 25-34) are network and library
  code. The model takes the returned sequence as its input.
- The `console.log`/`console.error` output and the surrounding `try/catch`
  (lines 73-83) are logging side effects. The logged values are the fields of
  `Summary`.
- JavaScript number semantics. The script adds and divides IEEE doubles. The
  model uses exact integers, so it does not capture precision loss once
  totals exceed 2^53. Nor does it capture rounding of a double quotient that
  lies within one rounding step of an integer.
- The non-zero fee list is an intermediate value, not a field of `Summary`.
  The script never reports it, and line 64 sorts it in place. The model keeps
  the filtered list (`NonZero`) and its sorted copy (`SortAsc`) as separate
  values. `MeanUnaffectedBySort` shows that computing the mean before or after
  the sort gives the same result.
- Observations are modelled as integer slots and non-negative integer fees.
  The RPC returns unsigned 64-bit values. Fractional or negative fee values,
  which the TypeScript `number` type would allow, are not modelled.
