/** Bucket sort over non-negative integers: `n` buckets for `n` elements,
    each element placed by its value scaled to the bucket range, every
    bucket insertion-sorted, and the buckets concatenated in order. */
module Bucket {
  import opened SortSpec
  import Insertion

  /** Why bucket sort raises: `max` of an empty list, or a division by a
      bucket width of zero when the largest element is 0. */
  datatype BucketError = EmptyInput | ZeroMaximum

  /** The largest element of a non-empty list. */
  function Max(s: seq<int>): (m: int)
    requires |s| > 0
    ensures m in s
    ensures forall x :: x in s ==> x <= m
  {
    if |s| == 1 then s[0]
    else
      var rest := Max(s[1..]);
      assert s == [s[0]] + s[1..];
      if s[0] >= rest then s[0] else rest
  }

  /** The bucket index before the clamp: the value divided by the bucket
      width `maximum / n`, truncated. Computed exactly as
      `floor(x * n / maximum)`. */
  function ScaledIndex(x: int, n: int, maximum: int): (j: int)
    requires maximum > 0
  {
    x * n / maximum
  }

  lemma MulMonotone(d: int, x: int, y: int)
    requires d > 0 && x <= y
    ensures d * x <= d * y
  {
  }

  /** Integer division by a positive divisor is monotone. */
  lemma DivMonotone(p: int, q: int, d: int)
    requires 0 <= p <= q && d > 0
    ensures p / d <= q / d
  {
    var qp, qq := p / d, q / d;
    assert d * qp + p % d == p && 0 <= p % d < d;
    assert d * qq + q % d == q && 0 <= q % d < d;
    if qp > qq {
      MulMonotone(d, qq + 1, qp);
      assert false;
    }
  }

  /** A number below `n * d` divided by `d` is below `n`. */
  lemma DivLess(p: int, n: int, d: int)
    requires 0 <= p < n * d && d > 0
    ensures p / d < n
  {
    var qp := p / d;
    assert d * qp + p % d == p && 0 <= p % d < d;
    if qp >= n {
      MulMonotone(d, n, qp);
      assert false;
    }
  }

  /** Dividing `n * d` by `d` gives back `n`. */
  lemma MulDiv(n: int, d: int)
    requires d > 0
    ensures n * d / d == n
  {
    var q, r := n * d / d, n * d % d;
    assert d * q + r == n * d && 0 <= r < d;
    assert d * (n - q) == r;
    if n - q >= 1 {
      MulMonotone(d, 1, n - q);
      assert false;
    } else if n - q <= -1 {
      MulMonotone(d, n - q, -1);
      assert false;
    }
  }

  /** For `0 <= x <= maximum` the scaled index lies in `[0, n]`, and it is
      `n`, one past the last bucket, exactly when `x` is the maximum. */
  lemma ScaledIndexRange(x: int, n: int, maximum: int)
    requires n > 0 && maximum > 0 && 0 <= x <= maximum
    ensures 0 <= ScaledIndex(x, n, maximum) <= n
    ensures ScaledIndex(x, n, maximum) == n <==> x == maximum
  {
    MulMonotone(n, 0, x);
    MulMonotone(n, x, maximum);
    DivMonotone(0, x * n, maximum);
    DivMonotone(x * n, n * maximum, maximum);
    MulDiv(n, maximum);
    if x < maximum {
      MulMonotone(n, x, maximum - 1);
      DivLess(x * n, n, maximum);
    }
  }

  /** The bucket an element goes to: its scaled index, with index `n`
      (reached only by the maximum) moved to the last bucket. */
  function BucketOf(x: int, n: int, maximum: int): (k: int)
    requires n > 0 && maximum > 0 && 0 <= x <= maximum
    ensures 0 <= k < n
  {
    ScaledIndexRange(x, n, maximum);
    var j := ScaledIndex(x, n, maximum);
    if j != n then j else n - 1
  }

  /** A larger element never goes to an earlier bucket. */
  lemma BucketOfMonotone(x: int, y: int, n: int, maximum: int)
    requires n > 0 && maximum > 0 && 0 <= x <= y <= maximum
    ensures BucketOf(x, n, maximum) <= BucketOf(y, n, maximum)
  {
    MulMonotone(n, x, y);
    DivMonotone(x * n, y * n, maximum);
    ScaledIndexRange(x, n, maximum);
    ScaledIndexRange(y, n, maximum);
  }

  /** The buckets concatenated in index order. */
  function Flatten(buckets: seq<seq<int>>): (flat: seq<int>) {
    if buckets == [] then []
    else Flatten(buckets[..|buckets| - 1]) + buckets[|buckets| - 1]
  }

  /** Replacing one bucket replaces its elements, and only them, in the
      concatenation. */
  lemma {:induction false} FlattenUpdate(buckets: seq<seq<int>>, k: int, b: seq<int>)
    requires 0 <= k < |buckets|
    ensures multiset(Flatten(buckets[k := b])) + multiset(buckets[k])
            == multiset(Flatten(buckets)) + multiset(b)
  {
    var m, updated := |buckets| - 1, buckets[k := b];
    assert Flatten(updated) == Flatten(updated[..m]) + updated[m];
    assert Flatten(buckets) == Flatten(buckets[..m]) + buckets[m];
    if k == m {
      assert updated[..m] == buckets[..m];
    } else {
      assert updated[..m] == buckets[..m][k := b];
      assert updated[m] == buckets[m] && buckets[..m][k] == buckets[k];
      FlattenUpdate(buckets[..m], k, b);
      calc {
        multiset(Flatten(updated)) + multiset(buckets[k]);
        multiset(Flatten(buckets[..m][k := b])) + multiset(buckets[m]) + multiset(buckets[k]);
        multiset(Flatten(buckets[..m])) + multiset(b) + multiset(buckets[m]);
        multiset(Flatten(buckets)) + multiset(b);
      }
    }
  }

  /** Appending an element to one bucket adds it to the concatenation. */
  lemma FlattenAppend(buckets: seq<seq<int>>, k: int, x: int)
    requires 0 <= k < |buckets|
    ensures multiset(Flatten(buckets[k := buckets[k] + [x]])) == multiset(Flatten(buckets)) + multiset{x}
  {
    var old_k := buckets[k];
    FlattenUpdate(buckets, k, old_k + [x]);
    var lhs, rhs := multiset(Flatten(buckets[k := old_k + [x]])), multiset(Flatten(buckets));
    assert lhs + multiset(old_k) == rhs + multiset(old_k + [x]);
    assert multiset(old_k + [x]) == multiset(old_k) + multiset{x};
    forall z ensures lhs[z] == (rhs + multiset{x})[z] {
      assert (lhs + multiset(old_k))[z] == (rhs + multiset(old_k + [x]))[z];
    }
    assert lhs == rhs + multiset{x};
  }

  /** Buckets rearranged one by one hold, concatenated, the same elements. */
  lemma {:induction false} FlattenPermutes(buckets: seq<seq<int>>, rearranged: seq<seq<int>>)
    requires |rearranged| == |buckets|
    requires forall q :: 0 <= q < |buckets| ==> multiset(rearranged[q]) == multiset(buckets[q])
    ensures multiset(Flatten(rearranged)) == multiset(Flatten(buckets))
  {
    if buckets != [] {
      var m := |buckets| - 1;
      FlattenPermutes(buckets[..m], rearranged[..m]);
    }
  }

  /** The elements of `s` whose value selects bucket `q`, in their order
      in `s`: what the scatter loop has appended to bucket `q` after
      reading all of `s`. */
  function InBucket(s: seq<int>, q: int, n: int, maximum: int): (bucket: seq<int>)
    requires n > 0 && maximum > 0
    requires forall i :: 0 <= i < |s| ==> 0 <= s[i] <= maximum
  {
    if s == [] then []
    else
      var last := s[|s| - 1];
      InBucket(s[..|s| - 1], q, n, maximum) + if BucketOf(last, n, maximum) == q then [last] else []
  }

  /** A bucket holds only elements of `s` whose value selects it. */
  lemma {:induction false} InBucketMembers(s: seq<int>, q: int, n: int, maximum: int)
    requires n > 0 && maximum > 0
    requires forall i :: 0 <= i < |s| ==> 0 <= s[i] <= maximum
    ensures forall y :: y in InBucket(s, q, n, maximum) ==> y in s && BucketOf(y, n, maximum) == q
  {
    if s != [] {
      var init := s[..|s| - 1];
      InBucketMembers(init, q, n, maximum);
      assert forall y :: y in init ==> y in s;
    }
  }

  /** There are `n` buckets and every element sits in the bucket its value
      selects. */
  ghost predicate Placed(buckets: seq<seq<int>>, n: int, maximum: int)
    requires n > 0 && maximum > 0
  {
    |buckets| == n &&
    forall q :: 0 <= q < n ==>
      forall y :: y in buckets[q] ==> 0 <= y <= maximum && BucketOf(y, n, maximum) == q
  }

  /** The buckets the scatter loop fills keep every element in its own
      bucket. */
  lemma ScatteredPlaced(arr: seq<int>, maximum: int)
    requires |arr| > 0 && maximum > 0
    requires forall i :: 0 <= i < |arr| ==> 0 <= arr[i] <= maximum
    ensures Placed(Scattered(arr, |arr|, maximum), |arr|, maximum)
  {
    var buckets := Scattered(arr, |arr|, maximum);
    forall q | 0 <= q < |arr|
      ensures forall y :: y in buckets[q] ==> 0 <= y <= maximum && BucketOf(y, |arr|, maximum) == q
    {
      InBucketMembers(arr, q, |arr|, maximum);
    }
  }

  /** Buckets rearranged one by one keep every element in its own
      bucket. */
  lemma PlacedPermutes(buckets: seq<seq<int>>, rearranged: seq<seq<int>>, n: int, maximum: int)
    requires n > 0 && maximum > 0 && Placed(buckets, n, maximum) && |rearranged| == n
    requires forall q :: 0 <= q < n ==> multiset(rearranged[q]) == multiset(buckets[q])
    ensures Placed(rearranged, n, maximum)
  {
    forall q | 0 <= q < n
      ensures forall y :: y in rearranged[q] ==> 0 <= y <= maximum && BucketOf(y, n, maximum) == q
    {
      forall y | y in rearranged[q] ensures 0 <= y <= maximum && BucketOf(y, n, maximum) == q {
        assert y in multiset(buckets[q]);
        assert y in buckets[q];
      }
    }
  }

  /** With every element in its own bucket and every bucket sorted, the
      concatenation of the first `l` buckets is sorted and holds only
      elements of buckets below `l`. */
  lemma {:induction false} FlattenSorted(buckets: seq<seq<int>>, n: int, maximum: int, l: int)
    requires n > 0 && maximum > 0 && Placed(buckets, n, maximum) && 0 <= l <= n
    requires forall q :: 0 <= q < n ==> Sorted(buckets[q])
    ensures Sorted(Flatten(buckets[..l]))
    ensures forall y :: y in Flatten(buckets[..l]) ==> 0 <= y <= maximum && BucketOf(y, n, maximum) < l
  {
    if l > 0 {
      var front, bucket := Flatten(buckets[..l - 1]), buckets[l - 1];
      FlattenSorted(buckets, n, maximum, l - 1);
      assert buckets[..l][..l - 1] == buckets[..l - 1];
      assert Flatten(buckets[..l]) == front + bucket;
      forall x, y | x in front && y in bucket ensures x <= y {
        if y < x {
          BucketOfMonotone(y, x, n, maximum);
        }
      }
      SortedJoin(front, bucket);
    }
  }

  /** Creates `n` empty buckets. */
  method EmptyBuckets(n: nat) returns (bucketList: seq<seq<int>>)
    ensures |bucketList| == n
    ensures forall q :: 0 <= q < n ==> bucketList[q] == []
  {
    bucketList := [];
    for x := 0 to n
      invariant |bucketList| == x
      invariant forall q :: 0 <= q < x ==> bucketList[q] == []
    {
      bucketList := bucketList + [[]];
    }
  }

  /** The buckets after the scatter loop has read `s`: bucket `q` holds
      the elements of `s` that select it, in their order in `s`. */
  function Scattered(s: seq<int>, n: int, maximum: int): (buckets: seq<seq<int>>)
    requires n > 0 && maximum > 0
    requires forall i :: 0 <= i < |s| ==> 0 <= s[i] <= maximum
    ensures |buckets| == n
  {
    seq(n, q => InBucket(s, q, n, maximum))
  }

  /** Reading one more element of `arr` extends the bucket it selects by
      that element and leaves the other buckets as they were. */
  lemma InBucketStep(arr: seq<int>, i: int, q: int, n: int, maximum: int)
    requires n > 0 && maximum > 0 && 0 <= i < |arr|
    requires forall p :: 0 <= p < |arr| ==> 0 <= arr[p] <= maximum
    ensures InBucket(arr[..i + 1], q, n, maximum)
            == InBucket(arr[..i], q, n, maximum) + if BucketOf(arr[i], n, maximum) == q then [arr[i]] else []
  {
    assert arr[..i + 1][..i] == arr[..i];
  }

  /** One step of the scatter loop: appending `arr[i]` to the bucket it
      selects turns the buckets of `arr[..i]` into those of `arr[..i + 1]`. */
  lemma ScatterStep(arr: seq<int>, i: int, n: int, maximum: int)
    requires n > 0 && maximum > 0 && 0 <= i < |arr|
    requires forall p :: 0 <= p < |arr| ==> 0 <= arr[p] <= maximum
    ensures var before, k := Scattered(arr[..i], n, maximum), BucketOf(arr[i], n, maximum);
      Scattered(arr[..i + 1], n, maximum) == before[k := before[k] + [arr[i]]]
  {
    var before, k := Scattered(arr[..i], n, maximum), BucketOf(arr[i], n, maximum);
    var after := Scattered(arr[..i + 1], n, maximum);
    forall q | 0 <= q < n ensures after[q] == before[k := before[k] + [arr[i]]][q] {
      InBucketStep(arr, i, q, n, maximum);
    }
  }

  /** The buckets of `s` hold, concatenated, exactly the elements of `s`. */
  lemma {:induction false} ScatteredCount(s: seq<int>, n: int, maximum: int)
    requires n > 0 && maximum > 0
    requires forall i :: 0 <= i < |s| ==> 0 <= s[i] <= maximum
    ensures multiset(Flatten(Scattered(s, n, maximum))) == multiset(s)
    decreases |s|
  {
    if s == [] {
      assert Scattered(s, n, maximum) == seq(n, q => []);
      EmptyFlatten(seq(n, q => []));
    } else {
      var m := |s| - 1;
      ScatteredCount(s[..m], n, maximum);
      ScatterStep(s, m, n, maximum);
      FlattenAppend(Scattered(s[..m], n, maximum), BucketOf(s[m], n, maximum), s[m]);
      assert s[..m + 1] == s && s == s[..m] + [s[m]];
    }
  }

  /** Appends every element of `arr`, in order, to the bucket its value
      selects: its scaled index, or the last bucket when that index is
      `n`. */
  method Scatter(arr: seq<int>, maximum: int, empty: seq<seq<int>>) returns (bucketList: seq<seq<int>>)
    requires |arr| > 0 && maximum > 0
    requires forall i :: 0 <= i < |arr| ==> 0 <= arr[i] <= maximum
    requires |empty| == |arr| && forall q :: 0 <= q < |arr| ==> empty[q] == []
    ensures bucketList == Scattered(arr, |arr|, maximum)
  {
    var n := |arr|;
    bucketList := empty;
    assert bucketList == Scattered(arr[..0], n, maximum);
    for i := 0 to n
      invariant bucketList == Scattered(arr[..i], n, maximum)
    {
      ScaledIndexRange(arr[i], n, maximum);
      var j := ScaledIndex(arr[i], n, maximum);
      var k := if j != n then j else n - 1;
      ScatterStep(arr, i, n, maximum);
      bucketList := bucketList[k := bucketList[k] + [arr[i]]];
    }
    assert arr[..n] == arr;
  }

  /** Concatenating only empty buckets gives the empty list. */
  lemma {:induction false} EmptyFlatten(buckets: seq<seq<int>>)
    requires forall q :: 0 <= q < |buckets| ==> buckets[q] == []
    ensures Flatten(buckets) == []
  {
    if buckets != [] {
      EmptyFlatten(buckets[..|buckets| - 1]);
    }
  }

  /** Every bucket insertion-sorted. */
  function SortEach(buckets: seq<seq<int>>): (sorted: seq<seq<int>>)
    ensures |sorted| == |buckets|
  {
    seq(|buckets|, q requires 0 <= q < |buckets| => Insertion.InsertionSorted(buckets[q]))
  }

  /** Insertion-sorts every bucket: each bucket is copied into an array,
      sorted in place, and read back. */
  method SortBuckets(bucketList: seq<seq<int>>) returns (sorted: seq<seq<int>>)
    ensures sorted == SortEach(bucketList)
  {
    sorted := bucketList;
    for k := 0 to |bucketList|
      invariant |sorted| == |bucketList|
      invariant forall q :: 0 <= q < k ==> sorted[q] == Insertion.InsertionSorted(bucketList[q])
      invariant forall q :: k <= q < |bucketList| ==> sorted[q] == bucketList[q]
    {
      var bucket := sorted[k];
      var b := new int[|bucket|](i requires 0 <= i < |bucket| => bucket[i]);
      assert b[..] == bucket;
      var _ := Insertion.InsertionSort(b);
      sorted := sorted[k := b[..]];
    }
  }

  /** Insertion-sorting every bucket sorts each one and keeps its
      elements. */
  lemma SortEachSorts(buckets: seq<seq<int>>)
    ensures forall q :: 0 <= q < |buckets| ==> IsSortOf(SortEach(buckets)[q], buckets[q])
  {
    forall q | 0 <= q < |buckets| ensures IsSortOf(SortEach(buckets)[q], buckets[q]) {
      Insertion.InsertionSortedIsSort(buckets[q]);
    }
  }

  /** Concatenates the buckets in index order. */
  method Concatenate(bucketList: seq<seq<int>>) returns (final: seq<int>)
    ensures final == Flatten(bucketList)
  {
    final := [];
    for l := 0 to |bucketList|
      invariant final == Flatten(bucketList[..l])
    {
      assert bucketList[..l + 1][..l] == bucketList[..l];
      final := final + bucketList[l];
    }
    assert bucketList[..|bucketList|] == bucketList;
  }

  /** What bucket sort returns for a non-negative list whose largest
      element is positive: the buckets of `arr`, each insertion-sorted,
      concatenated in index order. */
  function BucketSorted(arr: seq<int>): (r: seq<int>)
    requires |arr| > 0 && forall i :: 0 <= i < |arr| ==> arr[i] >= 0
    requires Max(arr) > 0
  {
    MaxBounds(arr);
    Flatten(SortEach(Scattered(arr, |arr|, Max(arr))))
  }

  /** Bucket sort. An empty list fails as `max` does, a list whose largest
      element is 0 fails as the division by a zero bucket width does;
      otherwise the result is the buckets sorted and concatenated. */
  method BucketSort(arr: seq<int>) returns (r: Result<seq<int>, BucketError>)
    requires forall i :: 0 <= i < |arr| ==> arr[i] >= 0
    ensures |arr| == 0 ==> r == Failure(EmptyInput)
    ensures |arr| > 0 && Max(arr) == 0 ==> r == Failure(ZeroMaximum)
    ensures |arr| > 0 && Max(arr) > 0 ==> r == Success(BucketSorted(arr)) && IsSortOf(r.value, arr)
  {
    if |arr| == 0 {
      return Failure(EmptyInput);
    }
    var maximum := Max(arr);
    if maximum == 0 {
      return Failure(ZeroMaximum);
    }
    var n := |arr|;
    MaxBounds(arr);
    var empty := EmptyBuckets(n);
    var scattered := Scatter(arr, maximum, empty);
    var sorted := SortBuckets(scattered);
    var final := Concatenate(sorted);
    BucketSortedIsSort(arr);
    return Success(final);
  }

  /** Every element of a non-negative list lies between 0 and its
      maximum. */
  lemma MaxBounds(arr: seq<int>)
    requires |arr| > 0 && forall i :: 0 <= i < |arr| ==> arr[i] >= 0
    ensures forall i :: 0 <= i < |arr| ==> 0 <= arr[i] <= Max(arr)
  {
    assert forall i :: 0 <= i < |arr| ==> arr[i] in arr;
  }

  /** Scattering, sorting every bucket and concatenating sorts: the
      buckets together hold the elements of `arr`, every element stays in
      its own bucket, and the buckets follow each other in value order. */
  lemma BucketSortedIsSort(arr: seq<int>)
    requires |arr| > 0 && forall i :: 0 <= i < |arr| ==> arr[i] >= 0
    requires Max(arr) > 0
    ensures IsSortOf(BucketSorted(arr), arr)
  {
    var n, maximum := |arr|, Max(arr);
    MaxBounds(arr);
    var scattered := Scattered(arr, n, maximum);
    ScatteredPlaced(arr, maximum);
    ScatteredCount(arr, n, maximum);
    SortEachSorts(scattered);
    BucketsSort(arr, n, maximum, scattered, SortEach(scattered));
  }

  /** Sorting every bucket of a correct scatter and concatenating the
      buckets sorts. */
  lemma BucketsSort(arr: seq<int>, n: int, maximum: int, scattered: seq<seq<int>>, sorted: seq<seq<int>>)
    requires n > 0 && maximum > 0 && Placed(scattered, n, maximum)
    requires multiset(Flatten(scattered)) == multiset(arr)
    requires |sorted| == n && forall q :: 0 <= q < n ==> IsSortOf(sorted[q], scattered[q])
    ensures IsSortOf(Flatten(sorted), arr)
  {
    PlacedPermutes(scattered, sorted, n, maximum);
    FlattenPermutes(scattered, sorted);
    FlattenSorted(sorted, n, maximum, n);
    assert sorted[..n] == sorted;
  }
}
