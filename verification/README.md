# solve_inlines, modelled in Dafny

`solve_inlines` estimates which compiler inlining decisions matter most to a
benchmark's running time. Each benchmark trial turned on a random subset of
the inlining sites, chosen by a seed and a threshold percentage. The tool
rebuilds, for every trial, the row of site indicators that the seed and
threshold produced, and solves the least-squares system of those rows
(plus a constant column) against the observed times. It then ranks the
per-site coefficients. A second mode writes out the subset of sites for one
seed and threshold, which is the input of a single trial.

This project models the index and selection logic around the regression:

- `Selector`: `fillRow`, which fills a row buffer in place: the last slot gets
  the constant and site `i` gets 1 exactly when the `i`-th draw of the seeded
  generator is below the threshold. The generator is a parameter: a seed
  yields a draw sequence (`Draws = nat -> int`).
- `Subset`: subset mode. It runs `fillRow` once over a buffer of `n + 1`
  slots and writes out the records whose slot is positive, in input order.
  It is proved to pick the same sites as the regression row of a trial with
  the same seed and threshold.
- `Design`: the regression system, with one selector row and one observed
  time per trial, and the mean time in the constant column.
- `TrialStats`: the trials are sorted by time, and the minimum, median,
  mean and maximum are read off the sorted list.
- `Sorting`: an in-place sort by key that stands for `sort.Slice`. Its
  contract is order plus permutation, with no stability promised.
- `Ranking`: `sortedOrder`, the indices `0 .. n` ranked by coefficient, where
  index `n` is the constant term. Also the ranking with the constant term
  skipped.
- `BestWorst`: `-best N` and `-worst N`. The worst window grows by one when
  the constant term falls inside it.
- `Report`: the default report. This covers the clamped percentile index, the
  top-50 and bottom-50 listings, and the scan that counts and sums the
  negative coefficients.

Coefficients and times are `real`. The source only compares and adds them,
except for the mean and median.

Two details of the source that the model keeps:

- The trials are sorted by time in place (solve_inlines.go:223) before the
  matrix is built, so the matrix rows come in time order. `TrialStats.Summarize`
  returns the sorted list and `Design.BuildSystem` is meant to be given it.
  Least squares does not depend on row order.
- The 50th-percentile index over 11 values is `(5 * 11 + 5) / 10 = 6`
  (`Report.PercentileExample`).

## Model

| member | source | states |
|---|---|---|
| `Selector.FillRow` | solve_inlines.go:47-57 | the buffer afterwards is exactly `Row(draws, threshold, width, avg)`: a pure function of the draws, the threshold and the constant |
| `Selector.RowSlots` | solve_inlines.go:49-56 | the row keeps its width and its last slot holds the constant; every other slot is 0 or 1, and it is 1 exactly when its draw is below the threshold |
| `Selector.RowAtExtremeThresholds` | solve_inlines.go:50-51 | with draws in [0,100), threshold <= 0 clears every site slot and threshold >= 100 sets every one |
| `Selector.RowDeterministic` | solve_inlines.go:48-51 | two draw sequences that agree on the first width-1 draws give the same row, so the same seed gives the same row every time |
| `Subset.Picked` | solve_inlines.go:209-215 | the active positions are in range and strictly increasing, and position i is among them exactly when draw i is below the threshold |
| `Subset.SubsetMode` | solve_inlines.go:206-217 | the output is `Selected(inlines, draws, threshold)`, whatever the constant slot (-1) holds |
| `Subset.SelectedIsPicked` | solve_inlines.go:211-215 | the output is exactly the records at the active positions, in input order (an order-keeping subsequence) |
| `Subset.SelectAllAtFullThreshold` | solve_inlines.go:209-215 | threshold >= 100 writes out every record unchanged, in order |
| `Subset.SelectNoneAtZeroThreshold` | solve_inlines.go:209-215 | threshold <= 0 writes out nothing |
| `Subset.PickedAgreesWithRow` | solve_inlines.go:207-209 | subset mode picks record i for a seed and threshold exactly when the regression row of a trial with that seed and threshold has 1 in column i |
| `Design.BuildSystem` | solve_inlines.go:234-241 | one row per trial, each the selector row for that trial's seed and threshold with n+1 columns; the target vector holds each trial's time in the same order, and every row's constant column is the mean of the target vector |
| `Sorting.SortByKey` | solve_inlines.go:250-252 | afterwards the array is sorted by the key and is a permutation of what it held |
| `Sorting.Insert` | solve_inlines.go:250-252 | one insertion step: a sorted run one element longer, with the array's elements unchanged as a multiset and everything past the run untouched |
| `TrialStats.MiddlePositions` | solve_inlines.go:226 | the two middle positions mirror each other about the centre and coincide exactly when the count is odd |
| `TrialStats.Median` | solve_inlines.go:226 | over sorted values the median is no less than the lower half and no greater than the upper half |
| `TrialStats.MedianExamples` | solve_inlines.go:226 | [1,2,3] has median 2 and [1,2,3,4] has median 2.5 |
| `TrialStats.SortTrials` | solve_inlines.go:223 | the returned list is a permutation of the trials in non-decreasing time order |
| `TrialStats.TotalTime` | solve_inlines.go:228-231 | the accumulated total is the sum of all trial times |
| `TrialStats.Summarize` | solve_inlines.go:223-232 | returns the trials sorted by time (a permutation, in time order); an empty trial list fails at index 0. Otherwise min and max are the first and last sorted times, the median is taken from the middle positions and avg is the mean of the input times. min and max are times of actual trials and bound every trial's time, and the median and the mean lie between them |
| `TrialStats.SummaryOfInput` | solve_inlines.go:223-232 | statistics of a time-sorted permutation describe the input: its ends are input times bounding every input time, and its total and mean are those of the input |
| `TrialStats.SumPermutation` | solve_inlines.go:228-231 | the total time does not depend on the order of the trials |
| `TrialStats.SumBounds` | solve_inlines.go:228-231 | a total of values in [lo, hi] lies between count*lo and count*hi |
| `TrialStats.MeanBounds` | solve_inlines.go:228-232 | the mean of values in [lo, hi] lies in [lo, hi] |
| `TrialStats.SortedSummaryBounds` | solve_inlines.go:223-226 | over time-sorted trials the first and last times bound every time and the median |
| `Ranking.RankCoefficients` | solve_inlines.go:246-252 | `sortedOrder` is a permutation of 0..n whose coefficients are non-decreasing |
| `Ranking.PermutationFacts` | solve_inlines.go:246-249 | a permutation repeats no index and misses none |
| `Ranking.WithoutConstantIsPermutation` | solve_inlines.go:279-282 | skipping the constant index n in a permutation of 0..n leaves a permutation of the real records 0..n-1 |
| `Ranking.WithoutKeepsRanking` | solve_inlines.go:276-286 | skipping an index keeps the remaining ranks in ascending coefficient order |
| `BestWorst.BestRecords` | solve_inlines.go:255-259 | as written: succeeds exactly when every rank among the first min(bestN, n+1) is a real record, and then prints those ranks best first; otherwise fails with index out of range at the first rank that is not a real record |
| `BestWorst.BestFailsIffConstantInPrefix` | solve_inlines.go:255-259 | best mode fails exactly when the constant term ranks among the first min(bestN, n+1), and always when bestN > n |
| `BestWorst.BestRecordsSkippingConstant` | solve_inlines.go:255-259 | corrected: prints exactly the min(bestN, n) best real records, best first, and never the constant term |
| `BestWorst.BestWindowLength` | solve_inlines.go:266-275 | corrected best mode's first pass, mirroring worst mode's: the window is min(bestN, n+1) ranks long, one longer exactly when the constant term is inside it and a rank is left to take |
| `BestWorst.BestWindow` | solve_inlines.go:255-259 | the best window extended past the constant term, with the constant term skipped, is the first min(bestN, n) real records |
| `BestWorst.WorstWindowLength` | solve_inlines.go:266-275 | the first pass of worst mode: the window is the last min(worstN, n+1) ranks, one longer exactly when the constant term is inside it and a rank is left to take |
| `BestWorst.WorstWindow` | solve_inlines.go:266-275 | the worst window, one longer when the constant term is inside it, is the last min(worstN, n) real records once the constant term is skipped |
| `BestWorst.WorstRecords` | solve_inlines.go:265-287 | prints exactly the min(worstN, n) real records of highest rank, in ascending rank, never the constant term |
| `BestWorst.RealRecordsRanked` | solve_inlines.go:276-286 | over a ranking, the real records keep ascending coefficient order: the single best record comes first and the single worst comes last |
| `BestWorst.PrefixSkip` | solve_inlines.go:255-259 | skipping the constant term in the first l ranks gives a prefix of the real ranking, one shorter when the constant term is there |
| `BestWorst.SuffixSkip` | solve_inlines.go:276-282 | skipping the constant term in the last l ranks gives a suffix of the real ranking, one shorter when the constant term is there |
| `Report.PercentileIndex` | solve_inlines.go:294-297 | the index lies in [0, len-1]. It is 0 for i=0 and len-1 for i=10. Otherwise it is i*len/10 rounded half up, unless clamped to len-1 |
| `Report.PercentileMonotone` | solve_inlines.go:293-297 | the percentile index never decreases as i grows |
| `Report.PercentileExample` | solve_inlines.go:294-297 | over 11 values the 50th percentile is read at position 6, and the 0th and 100th at the two ends |
| `Report.Percentiles` | solve_inlines.go:293-299 | the eleven rows pair each percentile index with the coefficient ranked there. Over a ranking the values never decrease, and they run from the smallest coefficient to the largest |
| `Report.TableClimbs` | solve_inlines.go:293-299 | over a ranking the eleven percentile values never decrease, and over a ranking of every index the first and last bound every coefficient |
| `Report.TopListing` | solve_inlines.go:301-307 | as written: succeeds exactly when the first min(50, n+1) ranks are all real records, listing them in rank order; otherwise fails with index out of range at the first constant-term rank |
| `Report.TopListingFails` | solve_inlines.go:301-302 | the top listing fails exactly when the constant term ranks among the first 50, and always when there are fewer than 50 records |
| `Report.TopListingTagged` | solve_inlines.go:301-307 | corrected: lists the first min(50, n+1) ranks in order, tagging the constant term instead of looking it up |
| `Report.BottomListing` | solve_inlines.go:309-322 | lists the last min(50, n+1) ranks in ascending rank; an entry is tagged constant term exactly when its index is past the records |
| `Report.TagOnce` | solve_inlines.go:312-316 | over a ranking of 0..n only the rank holding n is tagged constant term, at most one rank is, and every other rank names a real record |
| `Report.NegativeScan` | solve_inlines.go:324-341 | count is the length of the leading run of negative ranked coefficients, ended by the first non-negative one, and benefit is their sum. Each trace line is within the first 50 ranks, reports the running count and total at that point (at most -1), and counts increase; the trace branch leaves count and benefit alone |
| `Report.ScanCountsNegatives` | solve_inlines.go:327-333 | over a ranking, the scanned run is exactly the set of negative coefficients, so count is their number |
| `Report.RankedIndicesCount` | solve_inlines.go:327-333 | distinct ranks name distinct indices, so the first k ranks name k indices |

## Left out

- `readInlines` and `readBenchmarks` (solve_inlines.go:60-141): file I/O and CSV parsing. The records and trials are given as sequences, so the panics on malformed integer fields are not modelled.
- Flag parsing, usage text and the mode-selection checks (solve_inlines.go:144-193), the CPU profile (solve_inlines.go:195-202), and the dispatch between subset, best/worst and full-report mode (solve_inlines.go:206, 254). Each mode is modelled as its own method.
- The least-squares solve `v.SolveVec(a, b)` (solve_inlines.go:244) is a call into a numerics library on floats. The coefficient vector is an input of every ranking member.
- The bit-exact `math/rand` generator (solve_inlines.go:48, 51). It is a parameter: each seed maps to a draw sequence. Only its range [0,100) is assumed, and only where a lemma needs it.
- Floating point: times and coefficients are exact reals, so rounding and NaN ordering are not modelled. All printf formatting is left out, including the "Base term" line (solve_inlines.go:291) and the ten comma-joined raw fields of each best/worst line. Those outputs are modelled as record indices and listing entries.
- The int64/int32 conversions of seed and threshold (solve_inlines.go:137, 209) are not modelled; the threshold is an unbounded integer.
- `sort.Slice` is modelled by an insertion sort with the same contract. Ties may come out in a different order than the library's, and no member depends on tie order.
- The dense gonum matrix is modelled as a sequence of rows. That `fillRow` writes into a row view of one shared buffer is not captured.
- Report.NegativeScan: does not pin down the exact value of `printAtBenefit` or which crossings produce a trace line. It states only that `printAtBenefit` stays at or below -1 and that every trace line is a correct snapshot of the scan.

## Findings

| source | as written | input that shows it | evidently intended | confidence | as-written member | corrected member |
|---|---|---|---|---|---|---|
| solve_inlines.go:301-307 | the top-50 listing indexes `inlines[sortedOrder[i]]` without checking for the constant-term index `n` | any records file with fewer than 50 records, e.g. one record: `sortedOrder` is a permutation of {0, 1}, both ranks are walked, and `inlines[1]` is out of range | tag the constant term, as the bottom listing does | not executed; high | `Report.TopListingFails` | `Report.TopListingTagged` |
| solve_inlines.go:255-259 | best mode indexes `inlines[sortedOrder[i]]` for the first min(bestN, n+1) ranks without checking for the constant-term index `n` | one record with `-best 2`: both ranks are walked and `inlines[1]` is out of range; likewise any `-best N` with N greater than the record count | skip the constant term and extend the window by one, as worst mode does | not executed; high | `BestWorst.BestFailsIffConstantInPrefix` | `BestWorst.BestRecordsSkippingConstant` |
