/** What it means for the five sorting routines to sort: a non-descending
    output holding the same multiset of elements as the input. */
module SortSpec {

  /** The error-carrying result of a routine that can raise. */
  datatype Result<+T, +E> = Success(value: T) | Failure(error: E)

  /** Non-descending order. */
  predicate Sorted(s: seq<int>) {
    forall i, j :: 0 <= i < j < |s| ==> s[i] <= s[j]
  }

  /** `r` is a sorted rearrangement of `s`. */
  predicate IsSortOf(r: seq<int>, s: seq<int>) {
    Sorted(r) && multiset(r) == multiset(s)
  }

  /** Two sorted sequences holding the same multiset are equal, so every
      correct sort of the same input produces the same output. */
  lemma {:induction false} SortedUnique(a: seq<int>, b: seq<int>)
    requires Sorted(a) && Sorted(b) && multiset(a) == multiset(b)
    ensures a == b
    decreases |a|
  {
    if a == [] {
      assert |b| == |multiset(b)| == 0;
    } else {
      SortedSameHead(a, b);
      assert a == [a[0]] + a[1..];
      assert b == [b[0]] + b[1..];
      assert multiset(a[1..]) == multiset(b[1..]) by {
        assert multiset(a[1..]) == multiset(a) - multiset{a[0]};
        assert multiset(b[1..]) == multiset(b) - multiset{b[0]};
      }
      SortedUnique(a[1..], b[1..]);
    }
  }

  /** Sorted sequences with the same multiset start with its least element. */
  lemma SortedSameHead(a: seq<int>, b: seq<int>)
    requires Sorted(a) && Sorted(b) && multiset(a) == multiset(b) && a != []
    ensures b != [] && a[0] == b[0]
  {
    assert a[0] in multiset(b);
    var j :| 0 <= j < |b| && b[j] == a[0];
    assert b[0] in multiset(a);
    var i :| 0 <= i < |a| && a[i] == b[0];
  }

  /** Joining two sorted runs, every element of the first at most every
      element of the second, gives a sorted sequence. */
  lemma SortedJoin(a: seq<int>, b: seq<int>)
    requires Sorted(a) && Sorted(b)
    requires forall x, y :: x in a && y in b ==> x <= y
    ensures Sorted(a + b)
  {
    var ab := a + b;
    forall i, j | 0 <= i < j < |ab| ensures ab[i] <= ab[j] {
      if j < |a| {
        assert ab[i] == a[i] && ab[j] == a[j];
      } else if i >= |a| {
        assert ab[i] == b[i - |a|] && ab[j] == b[j - |a|];
      } else {
        assert ab[i] == a[i] && ab[j] == b[j - |a|];
        assert a[i] in a && b[j - |a|] in b;
      }
    }
  }

  /** A sorted sequence prefixed by an element no greater than any of its
      elements stays sorted. */
  lemma SortedCons(x: int, s: seq<int>)
    requires Sorted(s)
    requires forall y :: y in s ==> x <= y
    ensures Sorted([x] + s)
  {
    SortedJoin([x], s);
  }
}
