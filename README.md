# SalemFinance core algorithms in Dafny

SalemFinance reads daily stock quotes and reports on them using three
classical algorithms. This project models those three algorithms and proves
what they compute:

- **Chronological sorter** (`merge_sort.dfy`, module `MergeSort`). A
  recursive merge sort that puts the quote list in date order. It sorts copies
  of both halves, then overwrites the list in place. The model is an
  imperative method on an `array<Quote>`, proved equal to a functional
  specification `MergeSorted`. `MergeSorted` is proved to return a date-sorted
  permutation of its input. The merge loops are the methods `MergeHeads` (the
  comparison loop) and `CopyRest` (the two copy loops), proved to write the
  functional merge `MergeFrom`.
- **Maximum-gain scanner** (`kadane.dfy`, module `MaxSubarray`). Kadane's scan
  for the contiguous run of closing prices with the largest sum. The model is
  an imperative method with loop invariants. Its postcondition says which
  window it returns:
  - the sum is the maximum over all non-empty runs;
  - `end` is the first index at which a run of that sum ends;
  - `start` is the earliest start reaching that sum at `end`.

  This characterisation is proved to admit one answer only.
- **Nearest-pair finder** (`closest_pair.dfy`, module `ClosestPair`). A
  divide-and-conquer closest pair of points, with a brute-force base case and
  a strip scan around the middle point.
  - The recursion is pure and is modelled by functions. The two
    nested-loop searches are methods. The strip of points near the middle
    line is the function `StripOf`. Python's `sorted` is the stable
    insertion sort `SortBy`.
  - Both methods are proved equal to one all-pairs scan `Scan`. The strip
    search's pruning test is proved never to change the answer.
  - On points sorted by x, the recursion is proved to return the minimum
    distance over all pairs of points at distinct positions, together with a
    pair at that distance.

Distances are kept squared, and points have integer coordinates. The source
compares Euclidean distances with each other, and with a coordinate offset
(`dy < d`, `|dx| < d`). Each such comparison is restated exactly on squares:
`off < sqrt(s)` holds exactly when `off < 0 || off * off < s`. So the model
takes the same branches the source takes on exact arithmetic.
`OffsetBelowIsRootTest` and `LessIsRootTest` prove both restatements against
the real square roots. The report's points are (closing price, volume). To
make them integers, both coordinates must be scaled by the same factor;
scaling only one axis can change which pair is closest.

Three behaviours of the code differ from what one would expect of these
algorithms. The model follows the code in each:

- **Stability.** A stable merge sort breaks ties in favour of the left half,
  so quotes of equal date keep their input order. The code takes the left
  head only when its date is strictly earlier (`SalemFinance.py:36`), so on
  equal dates the right head goes first.
  `MergeSort.MergeSortedSwapsEqualDates` shows that two quotes of the same
  date come back swapped. `MergeSort.MergeSortedReversesEachDate` states the
  exact tie rule for any input: for every date, the quotes of that date come
  back in reverse input order. `MergeSort.MergeSortedReversesSameDate` is the
  case of a list whose quotes all share one date: the whole list comes back
  reversed.
- **Order independence and sorted input.** One would expect sorting an
  already date-sorted list to change nothing, and the output not to depend
  on the input order. Both are guaranteed when no two quotes share a date:
  `MergeSortedOfSortedIsNoOp` and `MergeSortedIgnoresOrder` prove them under
  that condition. Both fail for two distinct quotes of the same date
  (`MergeSortedSwapsEqualDates`). With shared dates they can still hold for
  particular lists, for example a list of identical quotes.
- **Empty input to Kadane.** One would expect an error value for an empty
  price list. The code reads `arr[0]` unconditionally
  (`SalemFinance.py:57`), which fails on an empty list. The model makes a
  non-empty list a precondition of `MaxSubarray.Kadane`.

## Model

| member | source | states |
|---|---|---|
| MergeSort.MergeFrom | SalemFinance.py:35-52 | the merge of the two sorted halves as a value, from heads i and j: the left head goes first only when its date is strictly earlier; the result holds exactly as many quotes as remain in both halves |
| MergeSort.MergeSorted | SalemFinance.py:24-53 | the sort as a value: split at len // 2, sort both halves, merge; the result has the length of the input |
| MergeSort.MergeSort | SalemFinance.py:24-53 | sorts the array in place: the new contents are `MergeSorted` of the old ones, sorted by date, and a permutation of them |
| MergeSort.MergeInto | SalemFinance.py:33-52 | the merge loops overwrite the array with the merge of the two sorted copies: the comparison loop, then the two copy loops |
| MergeSort.MergeHeads | SalemFinance.py:33-42 | the comparison loop runs until one copy is used up; what it wrote, followed by the rests of both copies, is the whole merge |
| MergeSort.CopyRest | SalemFinance.py:44-52 | a copy loop writes the rest of one half from write index k on, leaves every other element unchanged, and returns the advanced write index |
| MergeSort.MergePermutes | SalemFinance.py:35-52 | merging drops and duplicates nothing: the multiset of the merge is the sum of the multisets of the two remainders |
| MergeSort.MergeKeepsOrder | SalemFinance.py:35-52 | merging two date-sorted halves gives a date-sorted sequence |
| MergeSort.MergeTieTakesRight | SalemFinance.py:36-41 | on equal head dates the merge emits the right half's head first |
| MergeSort.MergeSortedPermutes | SalemFinance.py:24-53 | the sort returns a permutation of its input, of the same length |
| MergeSort.MergeSortedIsSorted | SalemFinance.py:24-53 | the sort returns a sequence whose dates never decrease |
| MergeSort.MergeSortedShort | SalemFinance.py:25 | lists of length 0 or 1 come back unchanged |
| MergeSort.MergeSortedSwapsEqualDates | SalemFinance.py:36-41 | the sort is not stable: two quotes of equal date, in input order, come back swapped |
| MergeSort.MergeSameDate | SalemFinance.py:35-52 | when every quote of both halves has one date, the merge is the rest of the right half followed by the rest of the left half |
| MergeSort.MergeSortedReversesSameDate | SalemFinance.py:24-53 | when all quotes share one date, the sort returns the list reversed |
| MergeSort.MergeWithDate | SalemFinance.py:35-52 | merging two date-sorted halves yields, for each date, the right half's quotes of that date followed by the left half's |
| MergeSort.MergeSortedReversesEachDate | SalemFinance.py:24-53 | the tie rule of the sort for any input: for every date, the quotes of that date come back in reverse input order |
| MergeSort.SortedUnique | SalemFinance.py:24-53 | when no two quotes share a date, two date-sorted arrangements of the same quotes are equal |
| MergeSort.MergeSortedOfSortedIsNoOp | SalemFinance.py:24-53 | when no two quotes share a date, sorting a date-sorted list leaves it unchanged |
| MergeSort.MergeSortedIgnoresOrder | SalemFinance.py:24-53 | when no two quotes share a date, any two orderings of the same quotes sort to the same list |
| MaxSubarray.Kadane | SalemFinance.py:56-72 | on a non-empty list, returns the maximum sum over all non-empty runs; `end` is the first index where a run of that sum ends, and `start` is the earliest start reaching it at `end` |
| MaxSubarray.FirstMaxWindowUnique | SalemFinance.py:56-72 | that characterisation allows exactly one (start, end, sum), so the first maximum found is determined |
| MaxSubarray.AllNegativeWindow | SalemFinance.py:60-70 | when every price is negative, the window is a single element: the first occurrence of the largest price |
| MaxSubarray.NegativeRunShrinks | SalemFinance.py:61-63 | over negative prices, dropping the first element of a run raises its sum |
| MaxSubarray.WholeArrayExample | SalemFinance.py:56-72 | for [2, -1, 2, 3, -4, 5] the answer is the whole list, with sum 7 |
| ClosestPair.ClosestPairOf | SalemFinance.py:75-80 | at most one point gives infinite distance and no pair; otherwise it returns a pair at two distinct positions of the input whose distance is at most that of every such pair |
| ClosestPair.ClosestPairRec | SalemFinance.py:82-105 | on fewer than two points there is no pair; otherwise the answer names two points at distinct positions and their distance |
| ClosestPair.ClosestPairRecIsMinimal | SalemFinance.py:82-105 | on points sorted by x, the distance returned is at most the distance of every pair of distinct positions |
| ClosestPair.CombineBound | SalemFinance.py:95-105 | if d bounds every pair inside each half, and the strip answer e (at most d) bounds every pair of the strip built with d, then e bounds every pair of the whole list |
| ClosestPair.CrossPairBound | SalemFinance.py:95-103 | a pair with one point in each half is bounded by the strip answer |
| ClosestPair.CrossPairInStrip | SalemFinance.py:99 | a pair split by the middle point and strictly closer than d has both points in the strip |
| ClosestPair.StripOf | SalemFinance.py:99 | the strip: the points, in input order, whose x is strictly less than d from the middle point's x (compared on squares); no longer than the input, and every point in it passes the test |
| ClosestPair.StripIsSubset | SalemFinance.py:99 | the strip keeps a subset of the points and adds none |
| ClosestPair.InStrip | SalemFinance.py:99 | conversely, every point of the input that passes the test is in the strip |
| ClosestPair.BruteForceClosestPair | SalemFinance.py:107-118 | the nested loops compute the all-pairs scan: infinite distance and no pair on fewer than two points, otherwise a closest pair of distinct positions |
| ClosestPair.BruteForceSpec | SalemFinance.py:107-118 | the scan from infinity returns nothing on fewer than two points, and otherwise a witnessed pair whose distance bounds every pair |
| ClosestPair.Consider | SalemFinance.py:113-116 | one comparison of the loops: the answer never grows, afterwards bounds the pair, and either stays as it was or becomes that pair, carrying that pair's own distance, which is strictly smaller than the old one |
| ClosestPair.ScanRow | SalemFinance.py:112-116 | the inner loop, point i against points j, j + 1, ...: never ends above its starting distance |
| ClosestPair.ScanRowSpec | SalemFinance.py:112-116 | the inner loop bounds every pair (i, b) with b from j on, and either keeps its start or names a strictly closer pair of two distinct positions |
| ClosestPair.ScanFrom | SalemFinance.py:111-116 | the outer loop from row i on: never ends above its starting distance |
| ClosestPair.ScanFromSpec | SalemFinance.py:111-116 | the outer loop from row i bounds every pair (a, b) with i <= a < b, and either keeps its start or names a strictly closer pair |
| ClosestPair.ScanSpec | SalemFinance.py:111-116 | the all-pairs scan `Scan`, in the order of the two nested loops, never ends above its starting distance and bounds every pair; it either keeps its start or names a strictly closer pair |
| ClosestPair.ClosestStrip | SalemFinance.py:120-133 | with pruning, the loops compute the scan of the y-sorted strip from (d, no pair): never above d, and bounding every pair of the strip; a pair exactly when one is strictly closer than d, and otherwise the distance d |
| ClosestPair.StripSpec | SalemFinance.py:120-133 | the same properties, stated for the scan of the y-sorted strip from (d, no pair) |
| ClosestPair.PruneIsSafe | SalemFinance.py:127-129 | a pair whose y-offset is not below the current distance would not have replaced the answer |
| ClosestPair.InsertPermutes | SalemFinance.py:79 | inserting a point into a list adds exactly that point |
| ClosestPair.InsertSorted | SalemFinance.py:79 | inserting a point into a sorted list keeps it sorted |
| ClosestPair.InsertWithKey | SalemFinance.py:79 | insertion puts the point before every point of equal key and changes the order of no key |
| ClosestPair.SortBySpec | SalemFinance.py:79 | sorting by a coordinate returns a permutation of the same length, sorted on that coordinate |
| ClosestPair.SortByStable | SalemFinance.py:123 | the sort is stable: the points of each key come out in their input order |
| ClosestPair.StableSortUnique | SalemFinance.py:123 | two lists sorted on a key whose points of each key come in the same order are equal |
| ClosestPair.SortByIsStableSort | SalemFinance.py:79 | any arrangement sorted on the key that keeps the input order of each key, which is what `sorted` returns, equals the model's sort |
| ClosestPair.OffsetBelowIsRootTest | SalemFinance.py:127 | the test on squares used for `dy < d` and `abs(dx) < d` holds exactly when the offset is below the real square root of the squared distance |
| ClosestPair.LessIsRootTest | SalemFinance.py:114 | comparing squared distances gives the same answer as comparing the Euclidean distances |
| ClosestPair.UnitSquareExample | SalemFinance.py:75-80 | for the corners of a unit square, the closest distance is 1 |

## Left out

- `read_csv`, `generate_report` and `main` (`SalemFinance.py:8-21` and `SalemFinance.py:136-201`) are left out. They do file reading, report formatting and chart plotting, which are I/O.
- Floating point is left out. Prices are integer cents and dates are day ordinals.
- The closest-pair search works on integer points with squared distances. `math.dist` and its rounding are not modelled. Every comparison of distances, and of an offset against a distance, is restated exactly on squares.
- Python's `sorted` (`SalemFinance.py:79`, `SalemFinance.py:123`) is modelled by `ClosestPair.SortBy`, a stable insertion sort. `SortByIsStableSort` proves that every sorted, stable arrangement of the input equals its output, so it is the list `sorted` returns. Python's sorting algorithm itself is not modelled.
- MergeSort.MergeSort: the list that `merge_sort` returns is the list it was given, sorted in place, so the model returns nothing. Python's slices are fresh lists, and are modelled as fresh arrays.
- MaxSubarray.Kadane requires a non-empty list. The source fails with an index error on an empty list. The model does not produce an error value.
- Running time and recursion depth are not modelled.
