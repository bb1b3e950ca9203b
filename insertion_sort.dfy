/** Insertion sort, in place, by adjacent swaps. */
module Insertion {
  import opened SortSpec

  /** Swap the element at `j` with its left neighbour. */
  function SwapDown(t: seq<int>, j: int): (u: seq<int>)
    requires 0 < j < |t|
    ensures |u| == |t|
  {
    t[j - 1 := t[j]][j := t[j - 1]]
  }

  /** The inner loop: the element at `j` moves left by adjacent swaps while
      its left neighbour is larger, stopping at the left end. */
  function Sift(t: seq<int>, j: int): (u: seq<int>)
    requires 0 <= j < |t|
    ensures |u| == |t|
    decreases j
  {
    if j > 0 && t[j - 1] > t[j] then Sift(SwapDown(t, j), j - 1) else t
  }

  /** The rest of the outer loop from position `i`: the elements at `i`,
      `i + 1`, ..., up to the last position are moved left in turn. */
  function Outer(t: seq<int>, i: nat): (u: seq<int>)
    ensures |u| == |t|
    decreases |t| - i
  {
    if i >= |t| then t else Outer(Sift(t, i), i + 1)
  }

  /** What the whole algorithm leaves in the list: the outer loop from the
      second position. */
  function InsertionSorted(t: seq<int>): (u: seq<int>) {
    Outer(t, 1)
  }

  /** Positions `0 .. i` are in order, leaving out position `j`, where the
      element being moved currently is. */
  ghost predicate SortedBut(t: seq<int>, i: int, j: int)
    requires 0 <= j <= i < |t|
  {
    forall p, q :: 0 <= p < q <= i && p != j && q != j ==> t[p] <= t[q]
  }

  /** The element being moved is smaller than everything it has passed. */
  ghost predicate SmallerThanPassed(t: seq<int>, i: int, j: int)
    requires 0 <= j <= i < |t|
  {
    forall q :: j < q <= i ==> t[j] < t[q]
  }

  /** A swap only rearranges the list. */
  lemma SwapDownPermutes(t: seq<int>, j: int)
    requires 0 < j < |t|
    ensures multiset(SwapDown(t, j)) == multiset(t)
  {
    assert t[j - 1 := t[j]][j] == t[j];
  }

  /** The inner loop only rearranges the list. */
  lemma {:induction false} SiftPermutes(t: seq<int>, j: int)
    requires 0 <= j < |t|
    ensures multiset(Sift(t, j)) == multiset(t)
    decreases j
  {
    if j > 0 && t[j - 1] > t[j] {
      SwapDownPermutes(t, j);
      SiftPermutes(SwapDown(t, j), j - 1);
    }
  }

  /** The inner loop started at `j` leaves every position after `j` as it
      was. */
  lemma {:induction false} SiftKeepsSuffix(t: seq<int>, j: int)
    requires 0 <= j < |t|
    ensures Sift(t, j)[j + 1..] == t[j + 1..]
    decreases j
  {
    if j > 0 && t[j - 1] > t[j] {
      var u := SwapDown(t, j);
      SiftKeepsSuffix(u, j - 1);
      assert u[j..] == [u[j]] + u[j + 1..];
      assert Sift(t, j)[j..] == Sift(u, j - 1)[j..];
    }
  }

  /** Moving the element at `j` with the inner loop, when it is smaller
      than everything it has already passed and the rest of `t[..i + 1]`
      is in order, puts `t[..i + 1]` in order. */
  lemma {:induction false} SiftSorts(t: seq<int>, i: int, j: int)
    requires 0 <= j <= i < |t|
    requires SortedBut(t, i, j) && SmallerThanPassed(t, i, j)
    ensures Sorted(Sift(t, j)[..i + 1])
    decreases j
  {
    if j > 0 && t[j - 1] > t[j] {
      SiftSorts(SwapDown(t, j), i, j - 1);
    } else {
      var s := t[..i + 1];
      forall p, q | 0 <= p < q < |s| ensures s[p] <= s[q] {
        if q == j {
          assert p <= j - 1;
          assert t[p] <= t[j - 1];
        }
      }
    }
  }

  /** Moving the element at `i` left into a sorted prefix `t[..i]` sorts
      `t[..i + 1]`, keeps the elements, and leaves the suffix alone. */
  lemma SiftInserts(t: seq<int>, i: int)
    requires 0 <= i < |t| && Sorted(t[..i])
    ensures Sorted(Sift(t, i)[..i + 1])
    ensures Sift(t, i)[i + 1..] == t[i + 1..]
    ensures multiset(Sift(t, i)) == multiset(t)
  {
    assert SortedBut(t, i, i) by {
      assert forall p :: 0 <= p < i ==> t[p] == t[..i][p];
    }
    SiftSorts(t, i, i);
    SiftKeepsSuffix(t, i);
    SiftPermutes(t, i);
  }

  /** From a list whose prefix `t[..i]` is sorted, the rest of the outer
      loop sorts the whole list and keeps its elements. */
  lemma {:induction false} OuterSorts(t: seq<int>, i: nat)
    requires 1 <= i <= |t| && Sorted(t[..i])
    ensures Sorted(Outer(t, i)) && multiset(Outer(t, i)) == multiset(t)
    decreases |t| - i
  {
    if i < |t| {
      SiftInserts(t, i);
      OuterSorts(Sift(t, i), i + 1);
    } else {
      assert t[..i] == t;
    }
  }

  /** The algorithm sorts. */
  lemma InsertionSortedIsSort(t: seq<int>)
    ensures IsSortOf(InsertionSorted(t), t)
  {
    if |t| > 0 {
      OuterSorts(t, 1);
    }
  }

  /** For each position from the second onward, the element there is
      swapped leftward past every larger left neighbour, stopping at the
      left end. The array itself is sorted and is also what is returned. */
  method InsertionSort(a: array<int>) returns (r: array<int>)
    modifies a
    ensures r == a
    ensures a[..] == InsertionSorted(old(a[..]))
    ensures Sorted(a[..]) && multiset(a[..]) == multiset(old(a[..]))
  {
    var i := 1;
    while i < a.Length
      invariant 1 <= i
      invariant Outer(a[..], i) == InsertionSorted(old(a[..]))
    {
      ghost var start := a[..];
      // The element at i moves left until its left neighbour is no larger.
      var j := i;
      while j > 0 && a[j - 1] > a[j]
        invariant 0 <= j <= i
        invariant Sift(a[..], j) == Sift(start, i)
      {
        ghost var t := a[..];
        a[j - 1], a[j] := a[j], a[j - 1];
        assert a[..] == SwapDown(t, j);
        j := j - 1;
      }
      i := i + 1;
    }
    InsertionSortedIsSort(old(a[..]));
    r := a;
  }
}
