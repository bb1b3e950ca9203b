/** Merge sort: a two-pointer merge that takes from the left run on ties,
    and top-down recursion that halves the list at its integer midpoint. */
module MergeSorting {
  import opened SortSpec

  /** The value `merge` computes: repeatedly take the smaller front element,
      the left one when the two are equal, and once one side is empty the
      rest of the other side. */
  function Merged(left: seq<int>, right: seq<int>): (merged: seq<int>)
    decreases |left| + |right|
  {
    if left == [] then right
    else if right == [] then left
    else if left[0] <= right[0] then [left[0]] + Merged(left[1..], right)
    else [right[0]] + Merged(left, right[1..])
  }

  /** Merging keeps every element of both sides, and nothing else. */
  lemma {:induction false} MergedMultiset(left: seq<int>, right: seq<int>)
    ensures multiset(Merged(left, right)) == multiset(left) + multiset(right)
    ensures |Merged(left, right)| == |left| + |right|
    decreases |left| + |right|
  {
    if left != [] && right != [] {
      if left[0] <= right[0] {
        MergedMultiset(left[1..], right);
        assert multiset(left) == multiset{left[0]} + multiset(left[1..]) by {
          assert left == [left[0]] + left[1..];
        }
      } else {
        MergedMultiset(left, right[1..]);
        assert multiset(right) == multiset{right[0]} + multiset(right[1..]) by {
          assert right == [right[0]] + right[1..];
        }
      }
    }
  }

  /** Merging two sorted runs gives a sorted run. */
  lemma {:induction false} MergedSorted(left: seq<int>, right: seq<int>)
    requires Sorted(left) && Sorted(right)
    ensures Sorted(Merged(left, right))
    decreases |left| + |right|
  {
    if left != [] && right != [] {
      if left[0] <= right[0] {
        var rest := Merged(left[1..], right);
        MergedSorted(left[1..], right);
        MergedMultiset(left[1..], right);
        forall y | y in rest ensures left[0] <= y {
          assert y in multiset(rest);
        }
        SortedCons(left[0], rest);
      } else {
        var rest := Merged(left, right[1..]);
        MergedSorted(left, right[1..]);
        MergedMultiset(left, right[1..]);
        forall y | y in rest ensures right[0] <= y {
          assert y in multiset(rest);
        }
        SortedCons(right[0], rest);
      }
    }
  }

  /** Merging a sort of the front of `arr` with a sort of its back gives a
      sort of `arr`. */
  lemma MergedSortOf(arr: seq<int>, midpoint: int, left: seq<int>, right: seq<int>)
    requires 0 <= midpoint <= |arr|
    requires IsSortOf(left, arr[..midpoint]) && IsSortOf(right, arr[midpoint..])
    ensures IsSortOf(Merged(left, right), arr)
  {
    MergedSorted(left, right);
    MergedMultiset(left, right);
    assert arr[..midpoint] + arr[midpoint..] == arr;
  }

  /** Merging `left` then `right` when every element of `left` is at most
      every element of `right` is plain concatenation: the left side wins
      every tie. */
  lemma {:induction false} MergedLeftFirst(left: seq<int>, right: seq<int>)
    requires forall x, y :: x in left && y in right ==> x <= y
    ensures Merged(left, right) == left + right
    decreases |left|
  {
    if left != [] && right != [] {
      assert left[0] in left && right[0] in right;
      assert forall x :: x in left[1..] ==> x in left;
      MergedLeftFirst(left[1..], right);
      assert left == [left[0]] + left[1..];
    }
  }

  /** The merge loop: an empty side returns the other side itself;
      otherwise two indices advance over `left` and `right`, the smaller
      front element (the left one on a tie) is appended, and as soon as one
      side is used up the rest of the other is appended in bulk. */
  method Merge(left: seq<int>, right: seq<int>) returns (result: seq<int>)
    ensures result == Merged(left, right)
    ensures left == [] ==> result == right
    ensures right == [] ==> result == left
    ensures multiset(result) == multiset(left) + multiset(right)
    ensures Sorted(left) && Sorted(right) ==> Sorted(result)
  {
    MergedMultiset(left, right);
    if Sorted(left) && Sorted(right) {
      MergedSorted(left, right);
    }
    if |left| == 0 {
      return right;
    }
    if |right| == 0 {
      return left;
    }
    result := [];
    var indexLeft, indexRight := 0, 0;
    while |result| < |left| + |right|
      invariant 0 <= indexLeft < |left| && 0 <= indexRight < |right|
      invariant |result| == indexLeft + indexRight
      invariant result + Merged(left[indexLeft..], right[indexRight..]) == Merged(left, right)
      decreases |left| + |right| - |result|
    {
      MergedStep(result, left, right, indexLeft, indexRight);
      if left[indexLeft] <= right[indexRight] {
        result := result + [left[indexLeft]];
        indexLeft := indexLeft + 1;
      } else {
        result := result + [right[indexRight]];
        indexRight := indexRight + 1;
      }

      if indexRight == |right| {
        assert right[indexRight..] == [];
        result := result + left[indexLeft..];
        break;
      }

      if indexLeft == |left| {
        assert left[indexLeft..] == [];
        result := result + right[indexRight..];
        break;
      }
    }
  }

  /** One step of the merge loop, read off the definition of Merged: the
      smaller front element, the left one on a tie, moves from the
      unmerged rest to the end of `result`. */
  lemma MergedStep(result: seq<int>, left: seq<int>, right: seq<int>, i: nat, j: nat)
    requires i < |left| && j < |right|
    ensures left[i] <= right[j] ==>
      result + Merged(left[i..], right[j..]) == (result + [left[i]]) + Merged(left[i + 1..], right[j..])
    ensures left[i] > right[j] ==>
      result + Merged(left[i..], right[j..]) == (result + [right[j]]) + Merged(left[i..], right[j + 1..])
  {
    assert left[i..][1..] == left[i + 1..];
    assert right[j..][1..] == right[j + 1..];
    if left[i] <= right[j] {
      assert [left[i]] + Merged(left[i + 1..], right[j..]) == Merged(left[i..], right[j..]);
    } else {
      assert [right[j]] + Merged(left[i..], right[j + 1..]) == Merged(left[i..], right[j..]);
    }
  }

  /** Top-down merge sort: lists shorter than two come back unchanged,
      longer ones are split at `|arr| / 2`, both halves sorted and merged. */
  function MergeSort(arr: seq<int>): (r: seq<int>)
    ensures |arr| < 2 ==> r == arr
    ensures Sorted(r) && multiset(r) == multiset(arr)
    decreases |arr|
  {
    if |arr| < 2 then arr
    else
      var midpoint := |arr| / 2;
      var left, right := MergeSort(arr[..midpoint]), MergeSort(arr[midpoint..]);
      MergedSortOf(arr, midpoint, left, right);
      Merged(left, right)
  }
}
