/** The five routines are timed against each other on the same input, so
    they must return the same list: a list has exactly one sorted
    rearrangement. */
module Agreement {
  import opened SortSpec
  import Insertion
  import Quick
  import Bucket
  import Bubble
  import MergeSorting

  /** Insertion sort, quick sort (whatever pivots it draws) and bubble sort
      return what merge sort returns. */
  lemma ComparisonSortsAgree(arr: seq<int>, pick: seq<int> -> nat)
    ensures Insertion.InsertionSorted(arr) == MergeSorting.MergeSort(arr)
    ensures Quick.QuickSort(arr, pick) == MergeSorting.MergeSort(arr)
    ensures Bubble.Passes(arr, |arr|) == MergeSorting.MergeSort(arr)
  {
    var merged := MergeSorting.MergeSort(arr);
    Insertion.InsertionSortedIsSort(arr);
    SortedUnique(Insertion.InsertionSorted(arr), merged);
    SortedUnique(Quick.QuickSort(arr, pick), merged);
    Bubble.BubblePassesSort(arr);
    SortedUnique(Bubble.Passes(arr, |arr|), merged);
  }

  /** On the inputs where bucket sort does not fail, it returns what merge
      sort returns. */
  lemma BucketSortAgrees(arr: seq<int>)
    requires |arr| > 0 && forall i :: 0 <= i < |arr| ==> arr[i] >= 0
    requires Bucket.Max(arr) > 0
    ensures Bucket.BucketSorted(arr) == MergeSorting.MergeSort(arr)
  {
    Bucket.BucketSortedIsSort(arr);
    SortedUnique(Bucket.BucketSorted(arr), MergeSorting.MergeSort(arr));
  }

  /** A list that is already sorted comes back unchanged from every
      routine, as happens to the benchmark's input once the in-place
      insertion sort has sorted it. */
  lemma SortedInputUnchanged(arr: seq<int>, pick: seq<int> -> nat)
    requires Sorted(arr)
    ensures Insertion.InsertionSorted(arr) == arr
    ensures Quick.QuickSort(arr, pick) == arr
    ensures Bubble.Passes(arr, |arr|) == arr
    ensures MergeSorting.MergeSort(arr) == arr
  {
    SortedUnique(MergeSorting.MergeSort(arr), arr);
    ComparisonSortsAgree(arr, pick);
  }
}
