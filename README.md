# Hodges-Lehmann estimators: a verified model of the selection core

The repository computes three robust statistics over numeric samples, as
C++ routines exported to R:

- `median` selects the order statistic at index `len / 2` of a buffer in
  place with `std::nth_element`;
- `cpp_hle1` (the one-sample Hodges-Lehmann location estimator) writes the
  Walsh average `(x[i] + x[j]) / 2` of every pair `i < j` into a buffer of
  `n(n-1)/2` slots, at slot `i + j(j-1)/2`, and takes its median;
- `cpp_hle2` (the two-sample Hodges-Lehmann shift estimator) fills a
  `|y| x |x|` matrix with `y[i] - x[j]`, copies its cells into a flat
  buffer in storage order (column by column, as R stores matrices) and
  takes its median.

The model has five modules, one file each:

- `Orders` (orders.dfy) defines the ascending arrangement `Sort` of a
  sample (an insertion sort used only as a reference) and proves:
  - that arrangement is unique;
  - a permuted buffer that is split before and after position `k` holds
    `Sort(s)[k]` at `k`, which is the contract of `std::nth_element` in
    section 25.8.3 [alg.nth.element] of ISO/IEC 14882:2020;
  - an independent characterisation of the order statistic by counts.
- `Selection` (selection.dfy) has the reference function `MedianOf` and
  the imperative `Median`. `Median` is a Lomuto quickselect on an
  `array<real>` that stands in for `nth_element`.
- `Walsh` (walsh.dfy) covers the triangular slot map, its bijection proof,
  the reference list of Walsh averages, and the nested fill loops of
  `cpp_hle1` (`WalshBuffer`, `Hle1`).
- `Shift` (shift.dfy) covers:
  - the column-major cell map and its bijection proof;
  - the reference list of differences, and its invariance under
    reordering of either sample;
  - the fill loops (`DifferenceMatrix`), the storage-order copy
    (`Flatten`) and `Hle2`.
- `MatrixMedian` (matrix.dfy) holds the two defects of `matMedian`, plus a
  corrected `MatMedian` (see Findings).

Samples are `seq<real>`: the estimators only read them. Each buffer the
estimators build is a fresh `array<real>`, which `Median` permutes in
place. The failure `median` throws on an empty buffer is the `Err(EmptyVector)`
case of a `Result`.

The code departs from the textbook forms of these estimators, and the
model follows the code:

- Self-pairs are not part of the Walsh expansion. The buffer has
  `n(n-1)/2` slots, not `n(n+1)/2`.
  - A single observation therefore makes `cpp_hle1` fail, rather than
    return the observation (`Walsh.SingleObservationFails`).
  - For `[1.0, 3.0]` the buffer is `[2.0]` (`Walsh.TwoObservationsGiveTheirAverage`).
- For an even length the result is the upper of the two middle elements,
  not their mean (`Selection.MedianOfEvenLengthIsUpperMiddle`).
- There is no input-size guard.

## Model

| member | source | states |
|---|---|---|
| Orders.Sort | src/cpp_hle.cpp:20 | the ascending arrangement against which selection is specified: same length, ascending, same multiset as the input |
| Orders.AscendingUnique | src/cpp_hle.cpp:19-21 | two ascending sequences with the same multiset are equal, so "the element at index len/2 of the sorted order" is well defined |
| Orders.SortDependsOnlyOnMultiset | src/cpp_hle.cpp:19-21 | reordering a sample never changes its ascending arrangement |
| Orders.SplitAtIsOrderStatistic | src/cpp_hle.cpp:20 | if t permutes s and every element before k is <= every element from k on, and likewise at k + 1, then t[k] is Sort(s)[k]: the nth_element post-state pins down the order statistic |
| Orders.OrderStatisticByCounts | src/cpp_hle2.cpp:19-21 | v is the element at index k of the sorted order iff at most k elements are strictly below v and more than k are at or below v |
| Selection.MedianOf | src/cpp_hle.cpp:12-22 | fails exactly on an empty buffer; otherwise the result is an element of the buffer, and at most len/2 elements are below it while more than len/2 are at or below it |
| Selection.MedianIgnoresOrder | src/cpp_hle.cpp:19-21 | the median of any permutation of the buffer is the same |
| Selection.MedianByCounts | src/cpp_hle2.cpp:19-21 | for a non-empty buffer, MedianOf returns v iff v is the len/2-th smallest by the counting characterisation |
| Selection.MedianOfEvenLengthIsUpperMiddle | src/cpp_hle2.cpp:19-21 | for [3.0, 1.0] the result is 3.0: the upper middle element, with no averaging |
| Selection.Swap | src/cpp_hle.cpp:20 | exchanges two elements, leaves the others and the multiset unchanged |
| Selection.Partition | src/cpp_hle.cpp:20 | permutes a[lo..hi) only, leaving the pivot at p with no larger element before it and no smaller one after it |
| Selection.Select | src/cpp_hle.cpp:20 | the nth_element contract: the array is a permutation of its old contents, split before and after k, and a[k] is Sort(old contents)[k] |
| Selection.Median | src/cpp_hle.cpp:12-22 | returns MedianOf(old contents), selecting nothing on an empty buffer; afterwards the buffer is a permutation of its old contents, the result sits at index len/2, and everything before it is <= it and everything after it is >= it |
| Walsh.PairCountClosedForm | src/cpp_hle.cpp:51 | the number of pairs i < j < n is n(n-1)/2, the buffer size the source allocates |
| Walsh.PairCountIsZero | src/cpp_hle.cpp:51 | the buffer is empty exactly when n <= 1 |
| Walsh.SlotInRange | src/cpp_hle.cpp:52-54 | every pair i < j < n is written to a slot below n(n-1)/2 |
| Walsh.SlotInjective | src/cpp_hle.cpp:52-54 | two pairs never share a slot |
| Walsh.PairAt | src/cpp_hle.cpp:52-54 | every slot is the slot of some pair i < j (the inverse of the slot map) |
| Walsh.SlotBijection | src/cpp_hle.cpp:52-54 | the map (i, j) -> i + j(j-1)/2 is a bijection from the pairs i < j < n onto [0, n(n-1)/2): both round trips hold |
| Walsh.AveragesUpToLength | src/cpp_hle.cpp:51-55 | the reference list has one entry per pair |
| Walsh.AveragesUpToAt | src/cpp_hle.cpp:54 | the entry for the pair (i, j) is at slot i + j(j-1)/2 and equals (x[i] + x[j]) / 2 |
| Walsh.WalshAveragesAreThePairs | src/cpp_hle.cpp:51-55 | the buffer holds exactly the averages of the pairs i < j, with no self-pairs: slot k holds the average of the pair PairAt(k), and each pair has its slot |
| Walsh.SingleObservationFails | src/cpp_hle.cpp:51-57 | one observation gives an empty buffer, so the estimator fails with the empty-vector error |
| Walsh.TwoObservationsGiveTheirAverage | src/cpp_hle.cpp:51-57 | for [1.0, 3.0] the buffer is [2.0] and the estimate 2.0 |
| Walsh.WalshBuffer | src/cpp_hle.cpp:51-56 | the nested loops fill a fresh buffer of n(n-1)/2 slots with exactly the reference list of Walsh averages |
| Walsh.Hle1 | src/cpp_hle.cpp:45-58 | returns the median of the Walsh averages of the pairs i < j, and fails exactly when there is at most one observation |
| Shift.CellIndexInRange | src/cpp_hle.cpp:39 | every cell of a rows x cols matrix has a storage position below rows * cols |
| Shift.CellIndexInjective | src/cpp_hle.cpp:39 | two cells never share a storage position |
| Shift.CellIndexBijection | src/cpp_hle2.cpp:48 | for a matrix with at least one row, the column-major map (i, j) -> i + j * rows is a bijection from the cells onto [0, rows * cols): both round trips hold (a matrix with no rows has no cells and an empty buffer, see Shift.DifferencesEmpty) |
| Shift.DifferencesLength | src/cpp_hle2.cpp:42-48 | the flattened buffer has ylen * xlen entries |
| Shift.DifferencesAt | src/cpp_hle2.cpp:45 | the entry at the storage position of cell (i, j) is y[i] - x[j] |
| Shift.DifferencesAreThePairs | src/cpp_hle2.cpp:42-48 | for at least one row (y non-empty; otherwise the buffer is empty, see Shift.DifferencesEmpty), every cell (i, j) is written exactly once: each position holds y[i] - x[j] for the cell stored there, and each cell has its position |
| Shift.DifferencesEmpty | src/cpp_hle2.cpp:42-50 | the buffer is empty exactly when x or y is empty |
| Shift.DifferencesIgnoreOrderOfY | src/cpp_hle2.cpp:43-47 | reordering y leaves the multiset of differences unchanged |
| Shift.DifferencesIgnoreOrderOfX | src/cpp_hle2.cpp:43-47 | reordering x leaves the multiset of differences unchanged |
| Shift.Hle2IgnoresOrder | src/cpp_hle2.cpp:43-50 | permuting x or y never changes the estimate |
| Shift.DifferenceMatrix | src/cpp_hle.cpp:32-37 | the nested loops leave y[i] - x[j] in every cell (i, j) of a fresh ylen x xlen matrix |
| Shift.ColumnMajorAt | src/cpp_hle2.cpp:48 | in the storage-order listing of a matrix, cell (i, j) is at position i + j * rows |
| Shift.ColumnMajorOfDifferences | src/cpp_hle.cpp:32-39 | the storage-order listing of the filled matrix is exactly the reference list of differences |
| Shift.Flatten | src/cpp_hle.cpp:39 | the copy is a fresh flat buffer holding the cells in storage order |
| Shift.Hle2 | src/cpp_hle.cpp:25-41 | returns the median of all differences y[i] - x[j], and fails exactly when x or y is empty; x and y are only read |
| MatrixMedian.InnerLoopRunsPastLastRow | src/cpp_hle2.cpp:29 | as written, on a 1 x 1 matrix the inner loop condition holds for every row index, and at row 1 the body writes slot 1 of a one-slot buffer |
| MatrixMedian.StrideCollides | src/cpp_hle2.cpp:30 | as written, on a 3 x 2 matrix two cells go to slot 2 and slot 5 is never written |
| MatrixMedian.MatMedian | src/cpp_hle2.cpp:26-34 | corrected: the median of the cells copied in storage order; fails exactly when the matrix has no cells |
| MatrixMedian.CopyHoldsEveryCell | src/cpp_hle2.cpp:27-32 | corrected, for a matrix with at least one row: the copy has rows * cols entries, cell (i, j) is at position i + j * rows, and every position holds the cell stored there |

## Left out

- The R bindings, the `NumericVector` and `NumericMatrix` wrappers and the
  `empty_vector` exception class are not modelled. The exception is the
  `Err(EmptyVector)` result.
- Values are Dafny `real`, not IEEE doubles. The model has no rounding in
  `(x[i] + x[j]) / 2` or `y[i] - x[j]`, and no NaN. A NaN would break the
  strict weak ordering that `nth_element` requires.
- The internal algorithm of `std::nth_element` is not modelled. A Lomuto
  quickselect is proved against its contract instead, so the particular
  arrangement the library leaves on either side of the middle is not
  captured; only the contract is.
- Walsh.WalshBuffer: does not model the 32-bit `int` index `i + (j*(j-1))/2`
  overflowing, or the buffer size computed in `double`. Indices are
  unbounded, as they are for every loop in the model.
- Selection.Median: the exported `median` may reorder the caller's R
  vector, because Rcpp vectors share storage. That aliasing is a property
  of the host environment. The model permutes the array it is given and
  says nothing about who else sees it.
- `cpp_hle2.cpp` repeats `median` and `cpp_hle2` from `cpp_hle.cpp`
  verbatim. They are modelled once, and the table cites both files.
- An input-size guard, averaging of the two middle elements, and the
  inclusion of self-pairs do not exist in the code, so they are not
  modelled.

## Findings

| source | as written | input that shows it | evidently intended | confidence | as-written member | corrected member |
|---|---|---|---|---|---|---|
| src/cpp_hle2.cpp:29 | the inner loop of `matMedian` tests `i < mat.rows()`, the column index, so advancing `j` never ends it | any matrix with at least one row and one column, e.g. 1 x 1: after cell (0, 0) the loop goes on to row 1, outside the matrix | the loop stops when `j` reaches `mat.rows()` | high (not executed) | MatrixMedian.InnerLoopRunsPastLastRow | MatrixMedian.MatMedian |
| src/cpp_hle2.cpp:30 | `mat(j, i)` is written to slot `i * mat.cols() + j` | a 3 x 2 matrix: cells (2, 0) and (0, 1) both go to slot 2, and slot 5 is never written | each cell goes to its own slot, `i * mat.rows() + j`, the storage order that `cpp_hle2` also uses | high (not executed) | MatrixMedian.StrideCollides | MatrixMedian.CopyHoldsEveryCell |
