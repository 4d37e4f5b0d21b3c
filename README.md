# Run-length statistics of validator selection, in Dafny

`index.js` estimates how likely one validator pool is to be chosen for several
consecutive slots of a 32-slot Ethereum epoch. The pool wins each slot with
probability `p`. A run of k consecutive wins is a "k-blocktuple". This project models
the deterministic core of that program and proves properties of it.

- **Counting.** `calculateC(n, k, x)` counts the 0/1 strings of length n that have k
  ones and no run of ones longer than x. `binomialCoefficient` computes C(n, k) with a
  multiplicative loop. Both are in `binomial.dfy` and `run_counter.dfy`. The counter is
  proved to count exactly those strings, as a set of `seq<bool>`.
- **Distribution.** `calculateCDF` and `calculatePMF` give the distribution of the
  longest run in an epoch (`run_distribution.dfy`). Proved: `cdf[0] = (1-p)^n`,
  `cdf[n] = 1` through the binomial theorem, the CDF is nondecreasing and lies in
  [0, 1], and the PMF telescopes back to the CDF and sums to 1.
- **Tally scan.** `countConsecutiveKBlocktuples` is the scan inside the Monte Carlo
  driver `simulateExpectedNK` (`run_tally.dfy`). It is a class whose tables are
  arrays, updated in place. The epoch's slots are an input instead of coin tosses.
- **Median reduction.** `getMedian` and `getDoubleArrayMedian` (`median.dfy`) use an
  in-place ascending sort on `array<int>`. It is proved against a functional insertion
  sort.
- **Epoch projection.** `calculateEpochProbabilities` is in `epoch_projector.dfy`.
- **Transpose.** `transposeArray` is in `tables.dfy`.

JavaScript numbers are modelled as exact `int` and `real`. `Math.pow` is the recursive
`Pow`. Values that JavaScript leaves `undefined` or `NaN` are `None` of an `Option`:
- the median of an empty array;
- `cdf[x]` outside `0..32`;
- a missing entry of a ragged row in the transpose.

The scan reads `targetEpoch` and `targetSlot` as options. `targetEpoch` is `null` or
an epoch number. `targetSlot` is `false` or a slot number. A target slot of `0` is as
falsy as `false` (`TargetSlotSet`).

A run of ones that is still open when the epoch ends is **not** tallied. In
`index.js:320-327` only a slot other than 1 closes a run, and nothing is tallied after
the loop. `ClosedRuns` therefore counts only runs closed by a slot that is not 1.
`index.js:263-266` allocates rows 0 to 32 of `nKBlocktuples`, but the scan never adds to
row 0 or row 32 (`ClosedRunsRange`): a run of 32 ones fills the whole epoch, and no slot
is left to close it. `StopLeavesRunOpen` shows that stopping at the target slot
likewise leaves the current run untallied.

## Model

| member | source | states |
|---|---|---|
| Binomial.ChoosePascal | index.js:98-114 | Pascal's rule for the exact coefficient C(n, k) that binomialCoefficient approximates |
| Binomial.ChooseStep | index.js:109-111 | one step of the multiplicative loop: i·C(n, i) = (n − i + 1)·C(n, i − 1) |
| Binomial.ChooseDiagonal | index.js:103-105 | C(n, n) = 1, the early return for k = n |
| Binomial.BinomialCoefficient | index.js:98-114 | the early returns and the loop `coefficient *= (n − i + 1)/i` yield exactly C(n, k) for every n, k, including 0 outside 0..n |
| RunCounter.ComputeC | index.js:116-146 | calculateC with its branches and its accumulation loop returns exactly the recursive count CalculateC(n, k, x) |
| RunCounter.SumOverFirstRunCounts | index.js:135-143 | the general-case sum over j of calculateC(n − 1 − j, k − j, x) counts the qualifying strings whose first zero comes after j or more leading ones |
| RunCounter.CalculateCCounts | index.js:116-146 | for n, k, x ≥ 0, calculateC(n, k, x) is the number of length-n 0/1 strings with exactly k ones and longest run ≤ x |
| RunCounter.WithOnesCount | index.js:128-131 | C(n, k) is the number of length-n strings with exactly k ones, so the uncapped branch counts correctly |
| RunCounter.LongestRunBounds | index.js:116-146 | the longest run is at least the leading run and at most the number of ones |
| RunCounter.CalculateCMonotone | index.js:116-146 | raising the cap x never decreases calculateC |
| RunCounter.CalculateCUncapped | index.js:122-131 | with x = n, calculateC(n, k, n) = C(n, k) for every k ≤ n |
| RunCounter.CalculateCNoRuns | index.js:116-146 | with x = 0 only the all-zero string counts: 1 for k = 0, else 0 |
| RunCounter.FullEpochRun | index.js:116-146 | calculateC(32, 32, 31) = 0 and calculateC(32, 32, 32) = 1, and the sets they count have those sizes |
| RunDistribution.PowNonNegative | index.js:162 | Math.pow of a nonnegative base is nonnegative |
| RunDistribution.BinomialTermPascal | index.js:156-163 | each term C(n, k)·p^k·q^(n−k) splits as p times the (k−1)-th plus q times the k-th term of row n − 1 |
| RunDistribution.PascalSum | index.js:156-163 | summing a row built by Pascal's rule: the first m terms of row n are p·(first m − 1 of row n − 1) + q·(first m of row n − 1) |
| RunDistribution.BinomialTheorem | index.js:156-163 | Σ_k C(n, k) p^k q^(n−k) = (p + q)^n |
| RunDistribution.CalculateCdf | index.js:149-169 | calculateCDF returns n + 1 entries and entry x is Σ_k calculateC(n, k, x)·p^k·(1 − p)^(n−k) |
| RunDistribution.CumulativeProbability | index.js:154-165 | the inner loop over k = 0..n accumulates exactly cdf[x] = Σ_k calculateC(n, k, x)·p^k·(1 − p)^(n−k) |
| RunDistribution.CdfAtFullEpoch | index.js:149-169 | cdf[n] = 1 for every p |
| RunDistribution.CdfAtZero | index.js:149-169 | cdf[0] = (1 − p)^n |
| RunDistribution.CdfMonotone | index.js:149-169 | for p in [0, 1] the CDF is nonnegative and nondecreasing in x |
| RunDistribution.CdfIsProbability | index.js:149-169 | for p in [0, 1] every entry cdf[x], 0 ≤ x ≤ n, lies in [0, 1] |
| RunDistribution.CdfNeverSucceeds | index.js:149-169 | with p = 0 every entry is 1 |
| RunDistribution.CdfAlwaysSucceeds | index.js:149-169 | with p = 1 the entries are 0 below n and 1 at n |
| RunDistribution.CalculatePmf | index.js:172-187 | calculatePMF returns n + 1 entries with pmf[0] = cdf[0] and pmf[i] = cdf[i] − cdf[i − 1] |
| RunDistribution.PrefixSumsTelescope | index.js:180-184 | prefix sums of first differences give back the differenced sequence |
| RunDistribution.PmfIsDistribution | index.js:172-187 | the prefix sums of the PMF are the CDF, the PMF sums to 1, and for p in [0, 1] no entry is negative |
| Median.Insert | index.js:225 | inserting into an ascending sequence keeps it ascending and adds exactly one element |
| Median.SortSeq | index.js:225 | the reference sort: ascending and a permutation of its input |
| Median.SortedUnique | index.js:225 | two ascending sequences with the same elements are equal, so the sorted result is unique |
| Median.SortInPlace | index.js:225 | `array.sort((a, b) => a - b)` leaves the array equal to the ascending arrangement of its old contents |
| Median.MedianOfSorted | index.js:226-237 | the median of a sorted array is absent (NaN) exactly when the array is empty |
| Median.GetMedian | index.js:224-238 | getMedian leaves its argument sorted and returns the median of its old contents |
| Median.MedianOrderIndependent | index.js:224-238 | the median depends only on the multiset of values, not on their order |
| Median.MedianBounds | index.js:224-238 | the median of a non-empty array lies between its smallest and largest values |
| Median.MedianBetween | index.js:226-237 | for an ascending array the median lies between the two middle elements, which coincide for an odd length |
| Median.MedianSplits | index.js:224-238 | at least half of the values are ≤ the median and at least half are ≥ it |
| Median.CopyRow | index.js:241-247 | the copy of a row is a fresh array with the row's values |
| Median.RowMedian | index.js:249-255 | the median of a sorted copy of a row is the median of the row |
| Median.GetDoubleArrayMedian | index.js:240-256 | one median per row, each the median of that row's values; the table is not modified |
| RunTally.TrailingOnesIs | index.js:320-321 | the open-run counter equals c exactly when the last c slots are 1 and the slot before them is not |
| RunTally.ClosedRunsCountsRunEnds | index.js:320-327 | the rows tallied for a scanned prefix count exactly the slots that close a run of exactly c ones |
| RunTally.ClosedRunsRange | index.js:322-323 | no run of length 0 is tallied, and no tallied run is as long as the scanned prefix, so row 0 and row 32 stay unchanged |
| RunTally.TallyConservesOnes | index.js:320-327 | Σ_c c·(runs tallied at c) + the open run at the end = the number of 1 slots |
| RunTally.StopLeavesRunOpen | index.js:332-340 | stopping at the target slot ends on a 1, so its run is not tallied |
| RunTally.ScanStep | index.js:320-327 | one more slot extends the open run on a 1, and on anything else closes it and tallies it at its length |
| RunTally.Tallies.constructor | index.js:263-275 | the tables are (32 + 1) × numSimulations, numSimulations and 32 entries, all zero |
| RunTally.Tallies.CountConsecutiveKBlocktuples | index.js:309-344 | only column sim changes, by the closed runs of the scanned prefix; targetEpochSlots grows by the 1s scanned in the target epoch; targetSlotBlocktuple[sim] grows by 1 exactly when the scan stops at the target slot |
| EpochProjector.CalculateEpochProbabilities | index.js:363-389 | max(targetEpoch, 0) entries; all but the last equal cdf[32] = 1; the last is cdf[targetSlot]; for p in [0, 1] every present entry is in [0, 1] |
| Tables.Transpose | index.js:67-69 | no result without a first row; otherwise as many columns as the first row has entries, each with one entry per row |
| Tables.TransposeTwice | index.js:67-69 | for a rectangular table with a column, the transpose has every entry present, and transposing it back restores the table |

## Left out

- File and OAuth credential handling (index.js:22-65), the HTTP fetch of validator
  pools (index.js:73-96) and the Google Sheets output (index.js:391-489) are I/O.
  They are not part of this model.
- `simulateValidatorSelection` (index.js:190-222) only compares `Math.random()` draws
  with the PMF. No deterministic behaviour is left to state.
- The random parts of `simulateExpectedNK` are left out:
  - the coin tosses that fill an epoch (index.js:290-303);
  - the per-epoch redraw of `targetSlot` (index.js:285-287);
  - the loops over pools, simulations and epochs around the scan.
  The scan takes the epoch and the current `targetSlot` as parameters.
- The division of the medians into odds (index.js:347) is a one-line map over the
  medians. It is not modelled.
- IEEE-754 rounding is not modelled. `binomialCoefficient`, `Math.pow` and the CDF
  sums are exact. So `cdf[n] = 1` and a nonnegative PMF hold in the model, but floats
  may miss them by rounding.
- RunDistribution.CalculateCdf: takes `n` as a natural number. `calculateCDF` with a
  negative `n` returns an empty array, which is not modelled.
- RunTally.Tallies.CountConsecutiveKBlocktuples: requires an epoch of at most 32 slots
  and a simulation index inside the table. `index.js` always passes 32 slots and an
  index below `numSimulation`. Out-of-range JavaScript array writes, which would add
  properties, are not modelled.
- Median.GetMedian: works on arrays of integers, the only arrays `index.js` passes
  (tally counts). The general comparator behaviour on non-numbers is not modelled.
- Tables.Transpose: ragged rows give `None` entries, as JavaScript gives `undefined`.
  An empty table gives `None` instead of a thrown `TypeError`.
