# QuickStats sorting and order statistics in Dafny

This project models the sorting and order-statistics core of the QuickStats
Arduino library (`QuickStats.cpp`) and proves properties of it:

- the top-down merge sort `mergeSort`, with its helper `merge`, over an
  inclusive index range `[left, right]`;
- the alternative `bubbleSort` of a prefix `A[0..len)`;
- `fabs`;
- the statistics `minimum`, `maximum`, `median` and `mode`. Each copies the
  samples into a local buffer, merge-sorts the copy and reads from it.

Modelling choices:

- Samples are `real`, so every comparison, difference and sum is exact. The
  C code's float rounding and overflow are not modelled (see Left out).
- A C array is a `seq<real>` value. An in-place sort is a method that takes
  the buffer's contents before the call and returns them after it. "Nothing
  outside the range changes" is stated index by index (`SameOutside`).
- The caller's `samples` can therefore never be changed by a statistic.

Modules:

- `Ordering` (ordering.dfy) holds `Sorted` and an independent reference sort
  `Sort` (insertion sort). It proves that `Sort` returns the only sorted
  rearrangement of its input.
- `MergeSorting` (merge_sorting.dfy) holds `merge` and `mergeSort`.
- `BubbleSorting` (bubble_sorting.dfy) holds `bubbleSort`.
- `Runs` (runs.dfy) holds `fabs` and a declarative definition of the mode.
  Neighbours of the sorted copy whose absolute difference is strictly below
  epsilon are *joined*. Maximal chains of joined neighbours are *runs*. The
  *modal run* is the earliest of the longest runs, and it must have at least
  two samples. The mode is that run's first value, or 0.0 when nothing is
  joined.
- `Runs` also holds a functional form `Scan` of the counting loop, and proves
  that it finds the modal run.
- `QuickStats` (quick_stats.dfy) holds the four statistics, plus members that
  model the library's literal call `mergeSort(sorted, 0, m)` (see Findings).

Three functions are the reference forms the contracts below are stated against:

- `MergeSorting.MergeAcc` / `MergeSeqs` is the merge of QuickStats.cpp:225-254,
  written recursively. Ties take the left run's value.
- `QuickStats.MedianOfSorted` is the median formula of QuickStats.cpp:141-148,
  applied to an ascending sequence.
- `Runs.Scan` is the counting loop of QuickStats.cpp:171-188, written
  recursively over the index `i`. It tracks the start of the current run, the
  start of the best run, and the best count.

## Model

| member | source | states |
|---|---|---|
| `MergeSorting.Merge` | QuickStats.cpp:202-255 | Merging `[left, middle]` with `[middle+1, right]` changes no cell outside `[left, right]`. The range becomes a rearrangement of its old contents. It is sorted when both runs were sorted. Its exact contents are the reference merge, which takes ties from the left run. |
| `MergeSorting.MergeRuns` | QuickStats.cpp:221-254 | The three loops of merge emit exactly the reference merge of L and R, of length n1 + n2. |
| `MergeSorting.MergeAccPermutes` | QuickStats.cpp:225-254 | Merging is a rearrangement: the output holds exactly the values of both runs. |
| `MergeSorting.MergeAccSorted` | QuickStats.cpp:225-254 | Merging two sorted runs gives a sorted sequence. |
| `MergeSorting.MergeSort` | QuickStats.cpp:260-272 | Needs `0 <= left` and `right < length` whenever `left < right`. It is a no-op when `left >= right`. Otherwise `[left, right]` ends sorted and a rearrangement of its old contents, and every other cell is unchanged. It terminates on `right - left`. |
| `MergeSorting.SortedRangeUnchanged` | QuickStats.cpp:260-272 | mergeSort on a range that is already in order leaves the whole buffer unchanged, so sorting twice is the same as sorting once. |
| `MergeSorting.CombineHalves` | QuickStats.cpp:265-270 | Sorting `[left, middle]` and then `[middle+1, right]`, then merging them, sorts `[left, right]` and changes nothing outside it. |
| `MergeSorting.SortsRangeAgreesWithSort` | QuickStats.cpp:260-272 | The range mergeSort leaves is exactly the reference sort of the original range. |
| `BubbleSorting.BubblePass` | QuickStats.cpp:102-113 | One pass is a rearrangement of `A[0..len)` and leaves the rest alone. Every element from the last swap position `newn` on is in its final place. `newn` is below the previous bound, or is 1. |
| `BubbleSorting.BubbleSort` | QuickStats.cpp:96-116 | `A[0..len)` ends sorted, a rearrangement of its input, and equal to the reference sort. Cells from `len` on are untouched. For `len <= 1` nothing changes. The do-while ends because the bound `n` strictly decreases. |
| `Runs.Fabs` | QuickStats.cpp:118-128 | The result is non-negative and is either the sample or its negation. |
| `Runs.NothingJoined` | QuickStats.cpp:171-173 | With `epsilon <= 0` the strict test `fabs(..) < epsilon` never holds. With one sample there is no neighbour. Either way nothing is joined. |
| `Runs.ScanJoined` | QuickStats.cpp:173-181 | A joined sample extends the current run. That run replaces the best one only when its count becomes strictly greater. |
| `Runs.ScanSplit` | QuickStats.cpp:182-187 | A sample that is not joined starts a new run. The best run and the bounds on all runs carry over. |
| `Runs.ScanSound` | QuickStats.cpp:171-188 | The facts the scan keeps about the current run, the best run and all earlier runs hold at the end of the scan. |
| `Runs.ScanFindsMode` | QuickStats.cpp:166-196 | The scan ends with the modal run as its best run when some neighbours are joined. Otherwise it ends with a count of 0, and the result is the sentinel 0.0. |
| `Runs.ModeUnique` | QuickStats.cpp:189-196 | Only one value meets the definition of the mode: of several longest runs, only the earliest can be modal. |
| `QuickStats.SortedCopy` | QuickStats.cpp:46-52 | The local copy, merge-sorted over `[0, m-1]`, is an ascending rearrangement of the samples with the same length. By `Ordering.SortCharacterized` it is therefore the reference sort. |
| `QuickStats.Minimum` | QuickStats.cpp:44-54 | For `m >= 1`, the result is one of the samples and no sample is smaller. |
| `QuickStats.Maximum` | QuickStats.cpp:56-66 | For `m >= 1`, the result is one of the samples and no sample is larger. |
| `QuickStats.Median` | QuickStats.cpp:130-149 | The result is the median of some ascending arrangement of the samples: its middle element for odd `m`, and the mean of its two middle elements `(s[m/2-1] + s[m/2]) / 2` for even `m`. For odd `m` it is a sample. It lies between the smallest and the largest sample. |
| `QuickStats.MedianBetween` | QuickStats.cpp:141-148 | The median of a sorted sequence lies between its first and last elements. |
| `QuickStats.MedianOrderIndependent` | QuickStats.cpp:130-149 | Two inputs holding the same values in any order have the same median, so the median does not depend on which sorted arrangement is read. |
| `QuickStats.Mode` | QuickStats.cpp:151-197 | The result is the mode of the ascending arrangement of the samples: the first value of the earliest longest run, when some neighbours are joined. It is 0.0 when nothing is joined, which includes `epsilon <= 0` and `m == 1`. It is either 0.0 or one of the samples. |
| `QuickStats.ModeOrderIndependent` | QuickStats.cpp:151-197 | Two inputs holding the same values in any order have the same mode under the same epsilon. |
| `QuickStats.ModeOfSorted` | QuickStats.cpp:166-196 | The counting loop returns the mode of the sequence it scans. Its invariant keeps the run counts `uniquect[0..p]` summing to `i`, which also keeps `p` inside the `m`-cell buffers. |
| `QuickStats.CallerRangeOverruns` | QuickStats.cpp:52 | The range `[0, m]` that every statistic passes violates mergeSort's range condition for every `m >= 1`. `[0, m-1]` meets it. |
| `QuickStats.MinimumAsWritten` | QuickStats.cpp:44-54 | With the literal call, a value just past the buffer that is smaller than every sample is returned as the minimum, although it is not a sample. Otherwise the true minimum is returned. |
| `QuickStats.MaximumAsWritten` | QuickStats.cpp:56-66 | With the literal call, the result is cell `m-1` of the `m+1` sorted cells: the second largest of the samples and the value just past the buffer. It is the largest sample if and only if that value is no smaller than every sample, or the largest sample occurs at least twice. So `[1.0, 3.0]` with `2.0` past the buffer gives a wrong maximum. When the value is below every sample, the result is the second largest sample, or that value itself when `m == 1`. |
| `QuickStats.SecondFromTop` | QuickStats.cpp:64 | In an ascending arrangement of the `m` samples and one extra value, cell `m-1` holds the largest sample exactly when the extra value is no smaller than every sample, or the largest sample occurs twice. |

## Left out

- `average`, `g_average`, `stdev`, `stderror`, `CV` (QuickStats.cpp:24-94): floating-point reductions through `log`, `exp`, `pow` and `sqrt`, with no order logic; reals have no such operations here.
- IEEE float behaviour. Samples are reals, so the following are not modelled:
  - NaN comparisons.
  - `-0.0` in `fabs`.
  - Overflow and rounding of the median's sum `sorted[m/2-1] + sorted[m/2]` (QuickStats.cpp:147). Two samples of `3.0e38` sum to `+inf` in float, so C returns `inf`, which is not between the smallest and largest sample as `Median` promises.
  - Rounding of the difference in mode's tolerance test `fabs(sorted[i] - sorted[i-1]) < epsilon` (QuickStats.cpp:173). For samples `[-3.0, 16777216.0]` and epsilon `16777220.0`, the exact difference is below epsilon, so the model joins the pair and returns `-3.0`. The float difference rounds to `16777220.0`, so C joins nothing and returns `0.0`.
- QuickStats.Median: promises the median over exact reals, not the float result (see the IEEE line above).
- QuickStats.Mode: decides joins on exact differences, not rounded float ones (see the IEEE line above).
- The empty constructor and destructor, and the declarations in `QuickStats.h`.
- Variable-length stack arrays and the element-wise copy loops: each copy is a value copy.
- The `unique` and `uniquect` buffers of mode are uninitialised in C. They are modelled as zero-filled; only cells up to `p` are read.
- `m <= 0` (and `len` past the end of the array for bubbleSort): the C code then reads `sorted[0]` of an empty buffer, or indexes past the array. That is undefined behaviour, so the model requires `m >= 1` and `len <= |A|`.
- C `int` overflow: indices and counts are unbounded integers. The midpoint `left + (right - left) / 2` cannot overflow for valid ranges anyway.
- bubbleSort's initial `unsigned long n = len` (including a negative `len` converted to unsigned): `n` is overwritten before the loop test ever reads it. The model starts from `len`, and the pass bound is a proof-only argument.
- QuickStats.MinimumAsWritten: models only the value read past the buffer, not what the write to `sorted[m]` does to neighbouring stack memory.
- QuickStats.MaximumAsWritten: same limit as MinimumAsWritten.
- The overrun in median (QuickStats.cpp:140) and mode (QuickStats.cpp:164) has no separate as-written member. It is the same call as in minimum and maximum.

## Findings

| source | as written | input that shows it | evidently intended | confidence | as-written member | corrected member |
|---|---|---|---|---|---|---|
| QuickStats.cpp:52 | `mergeSort(sorted, 0, m)` with mergeSort's inclusive right end sorts `sorted[0..m]`, one cell past the `m`-cell buffer (the same call is at lines 64, 140 and 164) | samples `[1.0, 2.0]` with `0.0` lying just past the buffer: `minimum` returns `0.0`, which is not a sample | `mergeSort(sorted, 0, m - 1)` | high; not executed | `QuickStats.MinimumAsWritten` | `QuickStats.Minimum` |
| QuickStats.cpp:64 | the same overrunning call in `maximum`, which then reads `sorted[m - 1]` of `m + 1` sorted cells | samples `[2.0]` with `1.0` lying just past the buffer: `maximum` returns `1.0`; samples `[1.0, 3.0]` with `2.0` past the buffer: it returns `2.0` | `mergeSort(sorted, 0, m - 1)` | high; not executed | `QuickStats.MaximumAsWritten` | `QuickStats.Maximum` |
