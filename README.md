# Five sorting routines, modelled and proved

`main.py` is a small benchmark. It implements five sorting routines on
Python lists, times each one on lists of random integers between 0 and
100, and plots the times. This project models the five routines:

- `insertionSort` sorts in place by adjacent swaps.
- `quickSort` uses a random pivot and a three-way partition.
- `bucketSort` uses `n` buckets for `n` elements, insertion-sorts each
  bucket and concatenates them.
- `bubbleSort` makes exactly `n` full passes with no early exit.
- `mergeSort` is top-down, with a two-pointer `merge`.

Each routine and the function that specifies it are proved to sort. The
output is non-descending and holds exactly the input's elements, with
multiplicity. The model also proves that the routines compute the same
function. Insertion, quick and bubble sort equal merge sort on every input
(`Agreement.ComparisonSortsAgree`). Where bucket sort succeeds it equals
merge sort too (`Agreement.BucketSortAgrees`). An input that is already
sorted comes back unchanged (`Agreement.SortedInputUnchanged`).

Layout:

- `sort_spec.dfy` (`SortSpec`) defines sortedness and "is a sort of". It
  also proves that two sorted lists with the same elements are equal
  (`SortSpec.SortedUnique`). That is a fact about sorted lists with no
  counterpart in the source, and the agreement proofs rest on it.
- `insertion_sort.dfy` (`Insertion`) and `bubble_sort.dfy` (`Bubble`) are
  methods on an `array<int>`. They do their swaps in place and return the
  same array, as the Python functions return the list they were given.
  Each is proved equal to a recursive function that describes the rest of
  its loops.
- `quick_sort.dfy` (`Quick`) is a recursive function. Its partition loop
  is a method proved equal to a function that splits the list.
- `bucket_sort.dfy` (`Bucket`) is a method with one phase method per loop
  of the source. Each phase method is proved equal to a specification
  function. The errors the source raises are modelled as a `Result`.
- `merge_sort.dfy` (`MergeSorting`) is the merge loop as a method with
  the source's `break`s. It is proved equal to a recursive merge.
  `mergeSort` is a recursive function.
- `agreement.dfy` (`Agreement`) proves that the routines agree with each
  other.

## Model

| member | source | states |
|---|---|---|
| Insertion.InsertionSort | main.py:25-35 | The array is sorted in place into the outer loop's result, is a sorted rearrangement of its old contents, and is itself returned. |
| Insertion.SiftPermutes | main.py:31-33 | The inner swap loop only rearranges the list. |
| Insertion.SiftKeepsSuffix | main.py:31-33 | The inner loop started at `i` leaves every position after `i` unchanged. |
| Insertion.SiftSorts | main.py:31-33 | An element smaller than everything it has passed ends in order once it stops at the left end or behind a neighbour no larger than it. |
| Insertion.SiftInserts | main.py:28-33 | With `arr[:i]` sorted, one inner loop leaves `arr[:i+1]` sorted, the suffix untouched and the elements unchanged. |
| Insertion.OuterSorts | main.py:28-33 | From a sorted prefix of length at least 1, the rest of the outer loop sorts the list and keeps its elements. |
| Insertion.InsertionSortedIsSort | main.py:25-35 | The result of the two loops is a sorted rearrangement of the input, the empty and one-element list included. |
| Quick.Partition | main.py:52-63 | The partition loop appends exactly the elements below, above and equal to the pivot, in input order. Between them the three lists hold the input, and each holds only its side. |
| Quick.PartCount | main.py:57-63 | Each element goes, with all its copies, to the list of its own side and to no other. |
| Quick.PartitionFacts | main.py:57-67 | The three lists hold the input, each holds only its side, their lengths add up, the pivot list is non-empty, and both recursive calls get a strictly shorter list because the pivot is drawn from the list. |
| Quick.Pivot | main.py:49 | The pivot is an element of the list. |
| Quick.QuickSort | main.py:41-70 | Lists shorter than two come back unchanged. Otherwise the result is a sorted rearrangement of the input, whichever pivots are drawn. |
| Quick.QuickSortJoin | main.py:66-70 | Sorted-less, then the pivot copies, then sorted-more is a sort of the input. |
| Quick.QuickSortPivotIndependent | main.py:49 | Two runs with different random draws return the same list. |
| Bucket.Max | main.py:79 | `max` returns an element of the list that no element exceeds. |
| Bucket.ScaledIndexRange | main.py:80-89 | For `0 <= x <= maximum` the scaled index lies in `0..n`, and it is `n` exactly when `x` is the maximum. |
| Bucket.BucketOf | main.py:89-93 | After the `j == len(arr)` redirect, every element goes to a bucket that exists. |
| Bucket.BucketOfMonotone | main.py:88-93 | A larger element never goes to an earlier bucket. |
| Bucket.EmptyBuckets | main.py:83-85 | `n` empty buckets are created. |
| Bucket.Scatter | main.py:88-93 | After the scatter loop, bucket `q` holds the elements that select it, in input order. |
| Bucket.ScatterStep | main.py:89-93 | One scatter step appends the element to the bucket it selects and changes no other bucket. |
| Bucket.ScatteredCount | main.py:88-93 | The buckets together hold exactly the input's elements. |
| Bucket.ScatteredPlaced | main.py:88-93 | Every element sits in the bucket its value selects. |
| Bucket.SortBuckets | main.py:96-97 | Each bucket is replaced by its insertion-sorted contents. |
| Bucket.SortEachSorts | main.py:96-97 | Each sorted bucket is a sorted rearrangement of the bucket. |
| Bucket.PlacedPermutes | main.py:96-97 | Sorting buckets in place keeps every element in its own bucket. |
| Bucket.Concatenate | main.py:100-103 | The result is the buckets concatenated in index order. |
| Bucket.FlattenPermutes | main.py:96-103 | Rearranging each bucket rearranges their concatenation. |
| Bucket.FlattenSorted | main.py:99-102 | With every element in its own bucket and every bucket sorted, each prefix of the concatenation is sorted. |
| Bucket.BucketSort | main.py:76-103 | An empty list fails as `max` raises. A list whose maximum is 0 fails as the division by a zero width raises. Otherwise the result is the buckets sorted and concatenated, and it is a sorted rearrangement of the input. |
| Bucket.BucketSortedIsSort | main.py:76-103 | Scatter, per-bucket sort and concatenation together sort the input. |
| Bucket.BucketsSort | main.py:95-103 | Sorting every bucket of a correct scatter and concatenating gives a sort of the input. |
| Bubble.BubbleSort | main.py:109-121 | The array ends as `n` passes leave it, sorted and with the same elements, and is itself returned. Exactly `n * (n - 1)` comparisons are made. |
| Bubble.CompareSwapPermutes | main.py:118-119 | A compare-and-swap only rearranges the list. |
| Bubble.PassesPermute | main.py:112-119 | Any number of passes only rearranges the list. |
| Bubble.SweepStep | main.py:115-119 | A compare-and-swap carries the largest element seen so far one position right and never swaps inside the settled suffix. |
| Bubble.SweepKeepsSettled | main.py:115-119 | Along a pass the settled suffix stays settled, and the largest unsettled element reaches the front of the suffix. |
| Bubble.PassesSettle | main.py:112-119 | Each pass settles one more position at the right end. |
| Bubble.BubblePassesSort | main.py:109-121 | `n` passes sort a list of length `n`. |
| MergeSorting.Merge | main.py:128-163 | An empty side returns the other side itself. Otherwise the loop with its early `break`s computes the left-biased merge: it keeps both sides' elements and gives a sorted result from sorted sides. |
| MergeSorting.MergedMultiset | main.py:143-161 | Merging keeps every element of both sides and nothing else. |
| MergeSorting.MergedSorted | main.py:143-161 | Merging two sorted runs gives a sorted run. |
| MergeSorting.MergedLeftFirst | main.py:146-148 | When no left element exceeds a right one, ties go left and the merge is plain concatenation. |
| MergeSorting.MergedStep | main.py:146-151 | One loop step takes the smaller front element, the left one on a tie. |
| MergeSorting.MergedSortOf | main.py:173-181 | Merging sorts of the two halves split at the midpoint gives a sort of the list. |
| MergeSorting.MergeSort | main.py:166-181 | Lists shorter than two come back unchanged. Otherwise the result is a sorted rearrangement of the input. |
| Agreement.ComparisonSortsAgree | main.py:243-248 | Insertion, quick and bubble sort return what merge sort returns, on every input and for every pivot draw. |
| Agreement.BucketSortAgrees | main.py:243-248 | Where bucket sort succeeds, it returns what merge sort returns. |
| Agreement.SortedInputUnchanged | main.py:243-248 | Insertion sort, quick sort, bubble sort and merge sort return an already sorted input unchanged. |

## Left out

- `genRandomArr`, `timeAlgo`, `main` and the plotting and printing (main.py:188-276) are left out. They are random input generation, wall-clock timing and pandas/matplotlib output.
- Only `int` elements are modelled. The benchmark sorts only integers. Between equal integers stability cannot be observed, so no stability claim is made. Merge's tie rule is still fixed by `MergeSorting.Merge` equalling `MergeSorting.Merged`.
- Quick.QuickSort: `random.choice` is modelled as an arbitrary function `pick` from the list to an index. Two calls on equal sublists therefore draw the same pivot, which a real random source need not do. `Quick.QuickSortPivotIndependent` shows the result does not depend on the draws.
- Bucket.BucketSort: requires every element to be non-negative. In Python, `int()` truncates toward zero, which gives four cases. None of them is modelled.
  - With a positive maximum and width `size = maximum / n`, an element `x` with `-size < x < 0` gets index 0 and goes to bucket 0.
  - A more negative `x` gets a negative index. Python then counts that index from the end of the bucket list and puts `x` in a later bucket. Once the index falls below `-n`, that is once `x <= -maximum * (n + 1) / n`, the call raises `IndexError`.
  - When the maximum is itself negative, `size` is negative and negative elements get positive indices. For `[-1, -2, -3]`, `-1` goes to the last bucket through the `j == len(arr)` redirect, and `-2` raises `IndexError`.
  - With a maximum of 0 and negative elements, the call raises `ZeroDivisionError`.
- Bucket.BucketOf: the source computes the bucket index with float division, `int(arr[i] / (maximum / len(arr)))`. The model uses the exact value `floor(arr[i] * n / maximum)`. Float rounding can move an element on a bucket boundary into the neighbouring bucket. Both versions stay monotone and within `0..n`, and that is all the sorting proof uses.
- Bucket.BucketSort: the division by zero when the maximum is 0 happens in the first scatter step, after the empty buckets are built. The model returns `Failure(ZeroMaximum)` before building them. Nothing from the aborted call can be observed either way.
- Bucket.SortBuckets: the source sorts each bucket list in place with `insertionSort`. The model copies each bucket into a fresh array, sorts that array with `Insertion.InsertionSort` and reads it back. Aliasing of bucket lists is not modelled.
- Insertion.InsertionSort: the source evaluates `arr[i - 1] > arr[i]` before `i > 0`. When `i` reaches 0 it therefore reads `arr[-1]`, the last element, and then stops anyway. The model tests `j > 0` first. The swaps are the same.
- `insertionSort` and `bubbleSort` sort the benchmark's shared `inputArr` in place, so later timings run on sorted input. The benchmark is not modelled. `Agreement.SortedInputUnchanged` states what each routine does with a sorted input.
- Bubble.BubbleSort: the `comparisons` count is ghost. It counts the pair comparisons made, and running time is not modelled.
