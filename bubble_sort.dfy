/** Bubble sort, in place, with a fixed number of passes. */
module Bubble {
  import opened SortSpec

  /** One compare-and-swap of the adjacent pair at `i`. */
  function CompareSwap(t: seq<int>, i: int): (u: seq<int>)
    requires 0 <= i < |t| - 1
    ensures |u| == |t|
  {
    if t[i] > t[i + 1] then t[i := t[i + 1]][i + 1 := t[i]] else t
  }

  /** The rest of a pass from position `i`: compare-and-swap the pairs at
      `i`, `i + 1`, ..., up to the last pair, left to right. */
  function Sweep(t: seq<int>, i: nat): (u: seq<int>)
    requires i < |t|
    ensures |u| == |t|
    decreases |t| - i
  {
    if i == |t| - 1 then t else Sweep(CompareSwap(t, i), i + 1)
  }

  /** One full pass: every adjacent pair, from the left end to the right. */
  function Pass(t: seq<int>): (u: seq<int>)
    ensures |u| == |t|
  {
    if |t| == 0 then t else Sweep(t, 0)
  }

  /** `k` passes in a row. */
  function Passes(t: seq<int>, k: nat): (u: seq<int>)
    ensures |u| == |t|
    decreases k
  {
    if k == 0 then t else Passes(Pass(t), k - 1)
  }

  /** A compare-and-swap only rearranges the list. */
  lemma CompareSwapPermutes(t: seq<int>, i: int)
    requires 0 <= i < |t| - 1
    ensures multiset(CompareSwap(t, i)) == multiset(t)
  {
    assert t[i := t[i + 1]][i + 1] == t[i + 1];
  }

  /** A pass only rearranges the list. */
  lemma {:induction false} SweepPermutes(t: seq<int>, i: nat)
    requires i < |t|
    ensures multiset(Sweep(t, i)) == multiset(t)
    decreases |t| - i
  {
    if i < |t| - 1 {
      CompareSwapPermutes(t, i);
      SweepPermutes(CompareSwap(t, i), i + 1);
    }
  }

  lemma PassPermutes(t: seq<int>)
    ensures multiset(Pass(t)) == multiset(t)
  {
    if |t| != 0 {
      SweepPermutes(t, 0);
    }
  }

  /** Any number of passes only rearranges the list. */
  lemma {:induction false} PassesPermute(t: seq<int>, k: nat)
    ensures multiset(Passes(t, k)) == multiset(t)
    decreases k
  {
    if k > 0 {
      PassPermutes(t);
      PassesPermute(Pass(t), k - 1);
    }
  }

  /** The positions from `lo` on hold the largest elements of `t` in their
      final order: they are sorted, and nothing before them is larger. */
  ghost predicate SettledFrom(t: seq<int>, lo: int)
    requires 0 <= lo <= |t|
  {
    (forall p, q :: lo <= p < q < |t| ==> t[p] <= t[q]) &&
    (forall p, q :: 0 <= p < lo <= q < |t| ==> t[p] <= t[q])
  }

  /** Where a pass stands when it reaches position `i`: `t[i]` is the
      largest of `t[..i + 1]`, and once the pass has reached `lo - 1` that
      position holds the largest element of the unsettled prefix. */
  ghost predicate SweptTo(t: seq<int>, lo: int, i: int)
    requires 1 <= lo <= |t| && 0 <= i < |t|
  {
    (forall k :: 0 <= k <= i ==> t[k] <= t[i]) &&
    (i >= lo - 1 ==> forall k :: 0 <= k < lo ==> t[k] <= t[lo - 1])
  }

  /** A compare-and-swap moves the pass forward by one position and leaves
      the settled suffix alone: only an unsettled pair is ever swapped. */
  lemma SweepStep(t: seq<int>, lo: int, i: int)
    requires 1 <= lo <= |t| && 0 <= i < |t| - 1
    requires SettledFrom(t, lo) && SweptTo(t, lo, i)
    ensures SettledFrom(CompareSwap(t, i), lo) && SweptTo(CompareSwap(t, i), lo, i + 1)
  {
    if t[i] > t[i + 1] {
      assert i + 1 < lo;
    }
  }

  /** Along a pass over a list settled from `lo`, the suffix stays settled
      and the largest element seen so far travels with the pass to the
      right end. */
  lemma {:induction false} SweepKeepsSettled(t: seq<int>, lo: int, i: nat)
    requires 1 <= lo <= |t| && i < |t|
    requires SettledFrom(t, lo) && SweptTo(t, lo, i)
    ensures SettledFrom(Sweep(t, i), lo) && SweptTo(Sweep(t, i), lo, |t| - 1)
    decreases |t| - i
  {
    if i < |t| - 1 {
      SweepStep(t, lo, i);
      SweepKeepsSettled(CompareSwap(t, i), lo, i + 1);
    }
  }

  /** A full pass settles one more position. */
  lemma PassSettlesOneMore(t: seq<int>, lo: int)
    requires 1 <= lo <= |t|
    requires SettledFrom(t, lo)
    ensures SettledFrom(Pass(t), lo - 1)
  {
    SweepKeepsSettled(t, lo, 0);
  }

  /** Each pass settles one more position: `k` passes over a list settled
      from `lo` leave it settled from `lo - k`. */
  lemma {:induction false} PassesSettle(t: seq<int>, lo: int, k: nat)
    requires k <= lo <= |t|
    requires SettledFrom(t, lo)
    ensures SettledFrom(Passes(t, k), lo - k)
    decreases k
  {
    if k > 0 {
      PassSettlesOneMore(t, lo);
      PassesSettle(Pass(t), lo - 1, k - 1);
    }
  }

  /** `|t|` passes sort `t`. */
  lemma BubblePassesSort(t: seq<int>)
    ensures IsSortOf(Passes(t, |t|), t)
  {
    PassesSettle(t, |t|, |t|);
    PassesPermute(t, |t|);
  }

  /** Exactly `a.Length` passes, each comparing every adjacent pair from
      the left end to the right end and swapping the pair when the left
      element is larger; there is no early exit, so `comparisons` (a ghost
      count of the pair comparisons made) is always `n * (n - 1)`. The
      array itself is sorted and is returned. */
  method BubbleSort(a: array<int>) returns (r: array<int>, ghost comparisons: nat)
    modifies a
    ensures r == a
    ensures a[..] == Passes(old(a[..]), a.Length)
    ensures Sorted(a[..]) && multiset(a[..]) == multiset(old(a[..]))
    ensures comparisons == a.Length * (a.Length - 1)
  {
    var n := a.Length;
    comparisons := 0;
    for pass := 0 to n
      invariant Passes(a[..], n - pass) == Passes(old(a[..]), n)
      invariant comparisons == pass * (n - 1)
    {
      ghost var start, before := a[..], comparisons;
      for i := 0 to n - 1
        invariant Sweep(a[..], i) == Sweep(start, 0)
        invariant comparisons == before + i
      {
        comparisons := comparisons + 1;
        ghost var t := a[..];
        if a[i] > a[i + 1] {
          a[i], a[i + 1] := a[i + 1], a[i];
        }
        assert a[..] == CompareSwap(t, i);
      }
      assert a[..] == Pass(start);
      assert comparisons == pass * (n - 1) + (n - 1) == (pass + 1) * (n - 1);
    }
    BubblePassesSort(old(a[..]));
    r := a;
  }
}
