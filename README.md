# Sorting algorithms visualised — a verified model of the step generators

The repository animates four sorting algorithms. Each algorithm is a generator that sorts
an array of integers in place and, between its reads and writes, yields a *step*: a
snapshot of the array together with a highlighted index (`-1` for none), an optional
secondary highlight range, an optional highlighted sub-array range, and a `skip` flag that
asks the playback driver to show the next step without the usual delay. The starting
array `1..N` is shuffled with a Durstenfeld (Fisher–Yates) shuffle.

This project models those generators and the shuffle in Dafny:

- `Steps` holds what they share: `Step`, `Range` (`NoRange` for the empty object `{}`),
  `Sorted`, the in-place swap (`Swap`, specified by `SwapAt`), the in-place `splice` of an
  equal-length run (`Splice`, specified by `Spliced`), and `Run` (the array a generator
  leaves and the steps it yields).
- `Shuffle` models `shuffleArray` as a loop over a copied array. `Math.random` is replaced
  by a sequence of draws `rolls`, with `0 <= rolls[i] <= i`.
- `BubbleSort`, `InsertSort`, `MergeSort` and `QuickSort` each model one generator as an
  imperative method. The method mutates an `array<int>` (or the copy `currentArray`) and
  returns the sequence of yielded steps. Each step holds the array contents at the moment
  it was yielded, which is what the driver reads while the generator is suspended.

Each method is proved equal to a pure reference function of the input: `BubbleRun`,
`InsertRun`, `MergeSortRun`, `QuickRun` and `Shuffled`. Lemmas about those functions prove
what the generators promise:
- the final array is sorted and is a rearrangement of the input;
- the loop and segment invariants hold;
- the exact step sequences and step counts are as the loops produce them;
- highlights and ranges stay within bounds.

Behaviour of the code worth noting:
- `merge` takes the right element when the two heads are equal, because the test is a
  strict `<` (merge-sort.ts:55). On integers the choice cannot be seen:
  `MergeSort.MergedIsSortedUnion` shows that the merge of two sorted parts is the unique
  sorted arrangement of their values.
- The merge-sort split step highlights `[start, start + floor(len / 2))` rather than the
  whole segment, because `unsortedArr` has already been shortened by
  `splice(0, middleIndex)` when the step is built (merge-sort.ts:85-94).
- For `N <= 1` the generators differ:
  - quick sort yields no step at all (quick-sort.ts:50-52);
  - insertion sort yields only its two closing steps, highlighting 0 and then -1
    (insert-sort.ts:61-70);
  - merge sort yields nothing and returns one value, shown with the range `[0, N)`
    (merge-sort.ts:75-84).
- The inner loop of insertion sort has no early exit. It compares all the way down to
  position 0 (insert-sort.ts:45).
- The last merge-sort step has empty ranges whenever `N >= 2`. At the top level
  `unsortedArr` and `initialArray` are the same array, so the length test at
  merge-sort.ts:134 is always true there. Inner calls' return ranges are discarded by
  `yield*` (merge-sort.ts:96-97).

## Model

| member | source | states |
|---|---|---|
| Steps.SwapAtPermutes | src/algorithms/bubble-sort.ts:50-52 | an exchange of two positions keeps every value with its multiplicity |
| Steps.Swap | src/algorithms/bubble-sort.ts:50-52 | the `temp` exchange on the array leaves exactly `SwapAt` of the old contents (only the two positions change) |
| Steps.SplicedParts | src/algorithms/quick-sort.ts:89-95 | a splice keeps the positions before and after the replaced slice, puts the items in it, and keeps the multiset when the items rearrange the slice |
| Steps.Splice | src/algorithms/merge-sort.ts:115 | `currentArray.splice(start, len, ...items)` on the shared array leaves exactly `Spliced` of the old contents |
| Steps.CopyOf | src/algorithms/bubble-sort.ts:7 | `[...array]` is a fresh array with the same values, so the input is never written |
| Steps.SortedPermutationsEqual | src/algorithms/merge-sort.ts:49-67 | two sorted sequences with the same values are equal |
| Shuffle.ShuffleArray | src/algorithms/bubble-sort.ts:6-16 | the countdown loop from `n - 1` down to 1, swapping `i` with a draw in `[0, i]`, returns `Shuffled(xs, rolls)`, of the same length and a rearrangement of the input; the input is a value and stays as it was |
| Shuffle.CountdownStep | src/algorithms/bubble-sort.ts:8-13 | one iteration keeps the loop's account: the shuffle of what is left plus the untouched suffix is the final result |
| Shuffle.ShuffledIsPermutation | src/algorithms/bubble-sort.ts:6-16 | every choice of valid draws yields a rearrangement of the input |
| Shuffle.ShuffleReachesEveryPermutation | src/algorithms/bubble-sort.ts:8-13 | every rearrangement of the input is produced by some sequence of valid draws |
| Shuffle.ShuffleIsInjective | src/algorithms/bubble-sort.ts:8-13 | on distinct values (such as `1..N`) different draws give different arrangements, so draws and arrangements correspond one to one |
| Shuffle.PeelLastDraw | src/algorithms/bubble-sort.ts:8-13 | equal shuffles moved the same value to the last position and shuffled the rest the same way |
| Shuffle.SameLastDraw | src/algorithms/bubble-sort.ts:8-13 | on distinct values equal shuffles used the same first draw |
| BubbleSort.NextChanges | src/algorithms/bubble-sort.ts:49-52 | a comparison changes only positions `j` and `j + 1`, and changes them exactly when `a[j] > a[j + 1]` (equal neighbours never move), by exchanging them |
| BubbleSort.CompareAt | src/algorithms/bubble-sort.ts:44-58 | the inner-loop body yields the comparison step and, only after a swap, the skipped swap step, leaving `Next` of the array |
| BubbleSort.RunPass | src/algorithms/bubble-sort.ts:43-59 | the inner loop of pass `i` leaves and yields exactly what the reference `Pass` does |
| BubbleSort.BubbleSort | src/algorithms/bubble-sort.ts:41-66 | the generator leaves `BubbleRun(old a).final` in the array and yields `BubbleRun(old a).steps` |
| BubbleSort.CompareStep | src/algorithms/bubble-sort.ts:49-57 | one comparison keeps the settled suffix and carries the running maximum one position on |
| BubbleSort.PassCarriesMax | src/algorithms/bubble-sort.ts:43-59 | the rest of a pass carries the maximum to position `n - i - 1` |
| BubbleSort.PassSettles | src/algorithms/bubble-sort.ts:42-60 | after pass `i` the last `i + 1` positions hold the `i + 1` largest values in ascending order |
| BubbleSort.BubbleFromSorts | src/algorithms/bubble-sort.ts:42-60 | the remaining passes leave the array sorted |
| BubbleSort.BubbleSortSorts | src/algorithms/bubble-sort.ts:41-66 | the final array is sorted and a rearrangement of the input, and every step shows an array of length `n` holding the input's values |
| BubbleSort.YieldedChained | src/algorithms/bubble-sort.ts:44-57 | the steps of one comparison are linked as `BubbleFollows` says: the swap step follows a comparison exactly when that pair was out of order |
| BubbleSort.BubbleFromChained | src/algorithms/bubble-sort.ts:42-65 | every step of a run follows the one before it as `BubbleFollows` says, and the first step shows the starting array |
| BubbleSort.BubbleFromLast | src/algorithms/bubble-sort.ts:61-65 | the last step is skipped and highlights -1 on the final array |
| BubbleSort.FollowsPermutes | src/algorithms/bubble-sort.ts:49-57 | consecutive steps show arrays of the same length with the same values |
| BubbleSort.ChainPermutes | src/algorithms/bubble-sort.ts:42-65 | every step of a chain shows a rearrangement of the first step's array |
| BubbleSort.PassPaced | src/algorithms/bubble-sort.ts:43-48 | the unskipped steps of pass `i` highlight `0, 1, ..., n - i - 2` in order |
| BubbleSort.BubbleFromPaced | src/algorithms/bubble-sort.ts:42-48 | the unskipped steps of a run highlight the comparisons pass by pass, in loop order |
| BubbleSort.PassesCount | src/algorithms/bubble-sort.ts:42-43 | passes `i, ..., n - 1` make `(n - i)(n - i - 1) / 2` comparisons, each of an index below `n - i - 1` |
| BubbleSort.BubbleRunSteps | src/algorithms/bubble-sort.ts:41-66 | a run has exactly `n (n - 1) / 2` unskipped comparison steps, each highlighting an index below `n - 1`; its steps are chained by `BubbleFollows`; and its last step highlights -1 on the final array |
| InsertSort.NextChanges | src/algorithms/insert-sort.ts:51-56 | only positions `j` and `j + 1` can change, they change exactly when `a[j + 1] < a[j]`, and then they are exchanged |
| InsertSort.CompareAt | src/algorithms/insert-sort.ts:47-57 | the step highlighting `j + 1` is yielded on the array before the pair is compared or swapped |
| InsertSort.SiftDown | src/algorithms/insert-sort.ts:45-58 | the inner loop of iteration `i` leaves and yields exactly what the reference `Sift` does |
| InsertSort.InsertSort | src/algorithms/insert-sort.ts:41-71 | the generator leaves `InsertRun(old a).final` in the array and yields `InsertRun(old a).steps` |
| InsertSort.SiftStep | src/algorithms/insert-sort.ts:51-56 | one comparison keeps the inner loop's invariant one position lower |
| InsertSort.SiftSorts | src/algorithms/insert-sort.ts:45-58 | the rest of the inner loop leaves `[0, i]` sorted and positions after `i` unchanged |
| InsertSort.IterationSorts | src/algorithms/insert-sort.ts:43-58 | after outer iteration `i`, `a[0..i]` is sorted and `a[i+1..n)` is unchanged |
| InsertSort.InsertFromSorts | src/algorithms/insert-sort.ts:43-59 | the remaining iterations leave the array sorted |
| InsertSort.SiftPermutes | src/algorithms/insert-sort.ts:45-58 | an iteration leaves a rearrangement of its array |
| InsertSort.InsertFromPermutes | src/algorithms/insert-sort.ts:43-59 | the remaining iterations leave a rearrangement of the array |
| InsertSort.InsertSortSorts | src/algorithms/insert-sort.ts:41-71 | the final array is sorted and a rearrangement of the input |
| InsertSort.SiftChained | src/algorithms/insert-sort.ts:45-58 | the steps of an iteration are linked as `InsertFollows` says: each comparison step is followed by a step showing the array after that comparison |
| InsertSort.InsertFromChained | src/algorithms/insert-sort.ts:43-70 | every step follows the one before as `InsertFollows` says, and the run ends with the steps highlighting 0 and -1 on the final array |
| InsertSort.FollowsPermutes | src/algorithms/insert-sort.ts:51-56 | consecutive steps show arrays of the same length with the same values |
| InsertSort.ChainPermutes | src/algorithms/insert-sort.ts:43-70 | every step of a chain shows a rearrangement of the first step's array |
| InsertSort.InsertRunPermutes | src/algorithms/insert-sort.ts:41-71 | every yielded step shows an array of length `n` holding the input's values |
| InsertSort.Down | src/algorithms/insert-sort.ts:45-50 | iteration `c` highlights `c` values, each in `[1, c]` |
| InsertSort.SiftPaced | src/algorithms/insert-sort.ts:45-50 | the steps of iteration `i` highlight `i, i - 1, ..., 1`, in that order |
| InsertSort.InsertFromPaced | src/algorithms/insert-sort.ts:43-70 | the highlights of a run are the comparisons iteration by iteration, then 0 and -1 |
| InsertSort.RoundsCount | src/algorithms/insert-sort.ts:43-45 | iterations `i, ..., n - 1` make `(n (n - 1) - i (i - 1)) / 2` comparisons |
| InsertSort.PacedAll | src/algorithms/insert-sort.ts:47-70 | no step of the generator is skipped |
| InsertSort.InsertRunSteps | src/algorithms/insert-sort.ts:41-71 | a run has exactly `n (n - 1) / 2` comparison steps and `n (n - 1) / 2 + 2` steps in all, none skipped, in loop order, chained by `InsertFollows`, ending with highlights 0 and -1 on the sorted final array |
| InsertSort.ShortRun | src/algorithms/insert-sort.ts:61-70 | for `n <= 1` the two closing steps are the only steps and the array is unchanged |
| MergeSort.Merge | src/algorithms/merge-sort.ts:49-67 | the shift/push loop returns `Merged(left, right)` |
| MergeSort.MergeAdvance | src/algorithms/merge-sort.ts:54-60 | one turn of the loop takes the left head when strictly smaller and the right head otherwise, and keeps the loop's account |
| MergeSort.MergeFinish | src/algorithms/merge-sort.ts:62-66 | once a part is empty, the output followed by both remainders is the merge |
| MergeSort.MergedPermutes | src/algorithms/merge-sort.ts:49-67 | the merge holds the values of both parts with their multiplicities |
| MergeSort.MergedHead | src/algorithms/merge-sort.ts:54-59 | the merge starts with the head of one of its parts |
| MergeSort.MergedSorted | src/algorithms/merge-sort.ts:49-67 | the merge of two sorted parts is sorted |
| MergeSort.MergedIsSortedUnion | src/algorithms/merge-sort.ts:49-67 | the merge of two sorted parts is the one sorted sequence holding their values, so which equal head is taken first cannot be seen |
| MergeSort.MergeInto | src/algorithms/merge-sort.ts:100-128 | the end of a call shows the array before the commit, splices the merged values over the two parts and shows it after, both with `[start, start + len)` as range and secondary highlight |
| MergeSort.SortSegment | src/algorithms/merge-sort.ts:69-148 | given `currentArray = pre + seg + post`, a call leaves `pre + sorted + post` (nothing outside its slice changes), yields `MergeSortFrom(pre, seg, post).steps` and returns its `sorted` |
| MergeSort.CallSteps | src/algorithms/merge-sort.ts:85-128 | proof step of `MergeSort.SortSegment`: a call on at least two values is its split step, the left call's steps, the right call's steps (with the sorted left part in front of it) and the two commit steps |
| MergeSort.MergeSortFromSorts | src/algorithms/merge-sort.ts:96-130 | the `subArr` a call returns is its segment sorted |
| MergeSort.MergeSortFromCount | src/algorithms/merge-sort.ts:75-128 | a call yields no step for fewer than two values and `3 (len - 1)` steps otherwise |
| MergeSort.MergeSortFromShown | src/algorithms/merge-sort.ts:87-128 | every step of a call highlights no index, is not skipped, shows the whole array and has both ranges inside its segment |
| MergeSort.MergeSortFromPermutes | src/algorithms/merge-sort.ts:69-128 | every step of a call shows a rearrangement of the array it was given |
| MergeSort.AroundEnds | src/algorithms/merge-sort.ts:102-128 | when the recursive calls return sorted rearrangements, the commit steps carry the segment's range, the second is the first spliced with the sorted values, and the first holds the segment's values there |
| MergeSort.MergeSortFromEnds | src/algorithms/merge-sort.ts:85-128 | the split step highlights `[start, start + floor(len / 2))`; the last two steps carry `[start, start + len)` as both ranges, before and after a commit that writes only that slice and leaves it sorted |
| MergeSort.MergeSortSorts | src/algorithms/merge-sort.ts:47-150 | the run leaves `currentArray` sorted and a rearrangement of the input |
| MergeSort.MergeSortShown | src/algorithms/merge-sort.ts:47-150 | every step of the run is unskipped, highlights no index, shows a rearrangement of the input and has ranges inside `[0, n]` |
| MergeSort.MergeSortShape | src/algorithms/merge-sort.ts:130-150 | the run has `3 (n - 1) + 1` steps (one for `n = 0`); the last is the returned value, showing the final array with empty ranges when `n >= 2` and `[0, n)` otherwise |
| MergeSort.RunOfCall | src/algorithms/merge-sort.ts:150 | proof step of `MergeSort.MergeSort`: the run is the outermost call's steps followed by the step for its return value |
| MergeSort.MergeSort | src/algorithms/merge-sort.ts:47-151 | the generator on a copy of the input yields `MergeSortRun(initial).steps` and leaves `MergeSortRun(initial).final` |
| QuickSort.AtLeast | src/algorithms/quick-sort.ts:64-73 | `leftArr` and `rightArr` together have one value for each scanned position: `len - 1` of them |
| QuickSort.PartitionBounds | src/algorithms/quick-sort.ts:68-73 | every value of `leftArr` is below the pivot and every value of `rightArr` is at least the pivot |
| QuickSort.PartitionPermutes | src/algorithms/quick-sort.ts:68-73 | `leftArr` and `rightArr` together hold the scanned values with their multiplicities |
| QuickSort.PartitionSnoc | src/algorithms/quick-sort.ts:68-73 | scanning one more value pushes it onto exactly one part, keeping the order of each |
| QuickSort.Partition | src/algorithms/quick-sort.ts:64-87 | the scan leaves `Below` and `AtLeast` of the values after the pivot and yields the classification steps, without writing the array |
| QuickSort.ClassifiedShape | src/algorithms/quick-sort.ts:75-86 | a call on `len` values yields `len - 1` classification steps; step `k` highlights the pivot, has range `[sp, sp + len)` and secondary range `[sp + k + 1, sp + k + 2)` |
| QuickSort.SegmentValues | src/algorithms/quick-sort.ts:64-73 | the segment is the pivot, `leftArr` and `rightArr`, as multisets |
| QuickSort.PlacedPartition | src/algorithms/quick-sort.ts:89-95 | after the splice the positions before and after the segment are unchanged, the pivot sits at `sp + len(leftArr)`, smaller values before it and the others after it within the segment, and the segment holds its values |
| QuickSort.Place | src/algorithms/quick-sort.ts:54-105 | a call on at least two values yields the pivot step, the classification steps and the placed step, and leaves `pre + left + [pivot] + right + post` in the array |
| QuickSort.QuickValuesSorts | src/algorithms/quick-sort.ts:89-113 | what a call leaves over its segment is the segment sorted |
| QuickSort.ShortCall | src/algorithms/quick-sort.ts:50-52 | proof step of `QuickSort.SortSegment`: a call on fewer than two values yields nothing and changes nothing |
| QuickSort.ValuesAfter | src/algorithms/quick-sort.ts:107-113 | proof step of `QuickSort.SortSegment`: after both recursive calls the segment holds `QuickValues` of the segment |
| QuickSort.ClosingAfter | src/algorithms/quick-sort.ts:115-122 | proof step of `QuickSort.SortSegment`: the last step is yielded exactly when the segment is the whole array |
| QuickSort.CallEnd | src/algorithms/quick-sort.ts:107-122 | proof step of `QuickSort.SortSegment`: a call's own steps, its recursive calls' steps and its last step, if any, put together, are `QuickFrom` of the call |
| QuickSort.SortSegment | src/algorithms/quick-sort.ts:49-123 | given `currentArray = pre + seg + post`, a call leaves `pre + QuickValues(seg) + post` (nothing outside its slice changes) and yields `QuickFrom(pre, seg, post)` |
| QuickSort.QuickSort | src/algorithms/quick-sort.ts:47-126 | the generator leaves `QuickRun(old a).final` in the array and yields `QuickRun(old a).steps` |
| QuickSort.QuickFromShape | src/algorithms/quick-sort.ts:54-105 | a call on `len >= 2` values first yields the pivot step on the whole range, then exactly the `len - 1` classification steps, then the step highlighting where the pivot came to rest |
| QuickSort.QuickFromWithin | src/algorithms/quick-sort.ts:54-113 | every step of a call that is not on the whole array is unskipped, shows an array of length `n`, highlights an index of its segment and has ranges inside it, so both recursions stay inside the parent segment |
| QuickSort.BodyWithin | src/algorithms/quick-sort.ts:54-113 | the steps of any call other than its last step stay inside its segment |
| QuickSort.QuickFromPermutes | src/algorithms/quick-sort.ts:54-122 | every step of a call shows a rearrangement of the array it was given |
| QuickSort.BodyPermutes | src/algorithms/quick-sort.ts:54-113 | every step of a call other than the last shows a rearrangement of the array |
| QuickSort.TopWithin | src/algorithms/quick-sort.ts:115-122 | for the outermost call on at least two values, every step before the last stays inside `[0, n)` |
| QuickSort.TopLast | src/algorithms/quick-sort.ts:115-122 | the outermost call's last step highlights -1 and no range on the sorted array |
| QuickSort.QuickSortSorts | src/algorithms/quick-sort.ts:47-126 | the run leaves the array sorted and a rearrangement of the input |
| QuickSort.QuickSortSteps | src/algorithms/quick-sort.ts:47-126 | for `n <= 1` there are no steps and the array is unchanged. Otherwise the last step highlights -1 and no range on the final array, and every earlier step highlights an index in `[0, n)`, so the step that highlights -1 is yielded exactly once. Every step shows a rearrangement of the input |

## Left out

- The Lit custom-element shells (decorators, properties, `render`, styles) are not modelled. They are user-interface plumbing.
- The playback drivers `start*Sort` and `resetValues`, with their `setTimeout` scheduling, are not modelled. The model covers only the sequence of steps they consume.
- `src/shared/randomized-array.ts` is not modelled. It measures the DOM, computes floating-point geometry and colours, and parses JSON props.
- `Math.random` and `Math.floor` in `shuffleArray` are replaced by the draws `rolls`. Floating-point randomness is not modelled; `Shuffle.ShuffleReachesEveryPermutation` and `Shuffle.ShuffleIsInjective` state which arrangements the draws reach, not their probabilities.
- The copies of `shuffleArray` in `insert-sort.ts`, `merge-sort.ts` and `quick-sort.ts` are identical to the one in `bubble-sort.ts`, which is modelled once.
- The source yields a reference to the live array. The model yields a snapshot of its contents at the moment of the yield, which is what the driver reads while the generator is suspended.
- JSON serialisation of the array and of the highlights for the renderer is not modelled.
- A merge-sort step has no `highlightedValue` field; the model gives it the "no highlight" value -1. A bubble-sort or insertion-sort step has no `secondaryHighlight` or `highlightRange` field; those are `NoRange`.
- The return values of inner merge-sort calls are modelled only by their `subArr`. `yield*` hands them to the calling generator, which reads nothing else from them.
- MergeSort.MergeSort: the source runs the inner generator on the caller's array itself (`return mergeSort(initialArray)`, merge-sort.ts:150), so `splice(0, middleIndex)` (:85) shortens `initialArray` and the arrays passed on (:97), and `merge` empties its arguments with `shift` (:56, :58), including `subArr` arrays of steps already yielded. The model's input and segments are values, so this destruction is not modelled. Nothing the driver shows depends on it: the steps show the copy `currentArray`, the driver passes a private copy (:154-155), and the one length test it affects (:134) is explained above.
- In quick sort the outermost `arr` is `currentArray` itself, so the splice also rewrites `arr`. The model reads the segment once, before the splice, as the source's pivot and partition loop do, and the splice does not change the length that the last-step test reads.
- The step "values" are unbounded integers. The source's numbers are the integers `1..N`, well inside the range where JavaScript arithmetic is exact.
- The generators' exhaustion protocol (`next()` returning `done`) is not modelled. The trace is the finite sequence of every yielded step.
