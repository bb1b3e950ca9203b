/** Quick sort: a three-way partition around a pivot drawn from the list,
    recursion on the strictly-less and strictly-greater parts, and
    concatenation of sorted-less, the pivot copies and sorted-greater. */
module Quick {
  import opened SortSpec

  /** Which of the three partition lists an element goes to. */
  datatype Side = Below | At | Above

  function SideOf(x: int, pivot: int): (side: Side) {
    if x < pivot then Below else if x > pivot then Above else At
  }

  /** The elements of `s` on the given side of `pivot`, in their order in
      `s`: what the partition loop has appended to that list after reading
      all of `s`. */
  function Part(s: seq<int>, pivot: int, side: Side): (part: seq<int>) {
    if s == [] then []
    else
      var last := s[|s| - 1];
      Part(s[..|s| - 1], pivot, side) + if SideOf(last, pivot) == side then [last] else []
  }

  /** Each element goes to exactly one list, the one for its side, with
      all of its copies; the three lists together hold exactly `s`. */
  lemma {:induction false} PartCount(s: seq<int>, pivot: int, side: Side, x: int)
    ensures multiset(Part(s, pivot, side))[x] == if SideOf(x, pivot) == side then multiset(s)[x] else 0
  {
    if s != [] {
      var init, last := s[..|s| - 1], s[|s| - 1];
      PartCount(init, pivot, side, x);
      assert s == init + [last];
    }
  }

  /** The partition facts quick sort relies on: the three lists hold `s`
      between them, each holds only elements of its side, and, when the
      pivot occurs in `s`, the pivot list is non-empty and the two lists
      that are sorted recursively are strictly shorter than `s`. */
  lemma PartitionFacts(s: seq<int>, pivot: int)
    ensures multiset(Part(s, pivot, Below)) + multiset(Part(s, pivot, At)) + multiset(Part(s, pivot, Above))
            == multiset(s)
    ensures forall x :: x in Part(s, pivot, Below) ==> x < pivot
    ensures forall x :: x in Part(s, pivot, At) ==> x == pivot
    ensures forall x :: x in Part(s, pivot, Above) ==> x > pivot
    ensures |Part(s, pivot, Below)| + |Part(s, pivot, At)| + |Part(s, pivot, Above)| == |s|
    ensures pivot in s ==> |Part(s, pivot, At)| > 0
    ensures pivot in s ==> |Part(s, pivot, Below)| < |s| && |Part(s, pivot, Above)| < |s|
  {
    PartsCover(s, pivot);
    PartSide(s, pivot, Below);
    PartSide(s, pivot, At);
    PartSide(s, pivot, Above);
    var below, at, above := Part(s, pivot, Below), Part(s, pivot, At), Part(s, pivot, Above);
    assert |multiset(below) + multiset(at) + multiset(above)| == |multiset(s)|;
    if pivot in s {
      PartCount(s, pivot, At, pivot);
      assert pivot in multiset(at);
    }
  }

  /** The three lists together hold exactly the elements of `s`. */
  lemma PartsCover(s: seq<int>, pivot: int)
    ensures multiset(Part(s, pivot, Below)) + multiset(Part(s, pivot, At)) + multiset(Part(s, pivot, Above))
            == multiset(s)
  {
    var below, at, above := Part(s, pivot, Below), Part(s, pivot, At), Part(s, pivot, Above);
    forall x ensures (multiset(below) + multiset(at) + multiset(above))[x] == multiset(s)[x] {
      PartCount(s, pivot, Below, x);
      PartCount(s, pivot, At, x);
      PartCount(s, pivot, Above, x);
    }
  }

  /** Each list holds only elements of its own side. */
  lemma PartSide(s: seq<int>, pivot: int, side: Side)
    ensures forall x :: x in Part(s, pivot, side) ==> SideOf(x, pivot) == side
  {
    forall x | x in Part(s, pivot, side) ensures SideOf(x, pivot) == side {
      PartCount(s, pivot, side, x);
      assert x in multiset(Part(s, pivot, side));
    }
  }

  /** The partition loop: one pass over `arr`, appending each element to
      `less`, `more` or `pivotList` by comparison with the pivot. */
  method Partition(arr: seq<int>, pivot: int) returns (less: seq<int>, pivotList: seq<int>, more: seq<int>)
    ensures less == Part(arr, pivot, Below)
    ensures pivotList == Part(arr, pivot, At)
    ensures more == Part(arr, pivot, Above)
    ensures multiset(less) + multiset(pivotList) + multiset(more) == multiset(arr)
    ensures (forall x :: x in less ==> x < pivot) && (forall x :: x in more ==> x > pivot)
    ensures forall x :: x in pivotList ==> x == pivot
  {
    less, pivotList, more := [], [], [];
    for i := 0 to |arr|
      invariant less == Part(arr[..i], pivot, Below)
      invariant pivotList == Part(arr[..i], pivot, At)
      invariant more == Part(arr[..i], pivot, Above)
    {
      assert arr[..i + 1][..i] == arr[..i];
      if arr[i] < pivot {
        less := less + [arr[i]];
      } else if arr[i] > pivot {
        more := more + [arr[i]];
      } else {
        pivotList := pivotList + [arr[i]];
      }
    }
    assert arr[..|arr|] == arr;
    PartitionFacts(arr, pivot);
  }

  /** The pivot chosen for a list of two or more elements. `pick` stands
      for the random source: any index into the list can be chosen, since
      `pick` is arbitrary and its result is reduced modulo the length. */
  function Pivot(arr: seq<int>, pick: seq<int> -> nat): (p: int)
    requires |arr| > 0
    ensures p in arr
  {
    arr[pick(arr) % |arr|]
  }

  /** Quick sort with the pivot of every call supplied by `pick`. Lists
      shorter than two come back unchanged; otherwise the result is a
      sorted rearrangement of `arr`, whichever pivots are chosen. */
  function QuickSort(arr: seq<int>, pick: seq<int> -> nat): (r: seq<int>)
    ensures |arr| < 2 ==> r == arr
    ensures Sorted(r) && multiset(r) == multiset(arr)
    decreases |arr|
  {
    if |arr| < 2 then arr
    else
      var pivot := Pivot(arr, pick);
      PartitionFacts(arr, pivot);
      var less := QuickSort(Part(arr, pivot, Below), pick);
      var more := QuickSort(Part(arr, pivot, Above), pick);
      QuickSortJoin(arr, pivot, less, more);
      less + Part(arr, pivot, At) + more
  }

  /** Sorted-less, then the pivot copies, then sorted-greater is a sort of
      `arr`. */
  lemma QuickSortJoin(arr: seq<int>, pivot: int, less: seq<int>, more: seq<int>)
    requires IsSortOf(less, Part(arr, pivot, Below))
    requires IsSortOf(more, Part(arr, pivot, Above))
    ensures IsSortOf(less + Part(arr, pivot, At) + more, arr)
  {
    var at := Part(arr, pivot, At);
    PartitionFacts(arr, pivot);
    forall x | x in less ensures x < pivot {
      assert x in multiset(less);
      assert x in multiset(Part(arr, pivot, Below));
      assert x in Part(arr, pivot, Below);
    }
    forall x | x in more ensures x > pivot {
      assert x in multiset(more);
      assert x in multiset(Part(arr, pivot, Above));
      assert x in Part(arr, pivot, Above);
    }
    assert Sorted(at) by {
      forall i, j | 0 <= i < j < |at| ensures at[i] <= at[j] {
        assert at[i] in at && at[j] in at;
      }
    }
    SortedJoin(less, at);
    SortedJoin(less + at, more);
  }

  /** The output does not depend on the pivots drawn: any two runs on the
      same list return the same list. */
  lemma QuickSortPivotIndependent(arr: seq<int>, pick1: seq<int> -> nat, pick2: seq<int> -> nat)
    ensures QuickSort(arr, pick1) == QuickSort(arr, pick2)
  {
    SortedUnique(QuickSort(arr, pick1), QuickSort(arr, pick2));
  }
}
