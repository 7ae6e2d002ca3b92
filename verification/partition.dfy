/** The partition engine of quicksort and quickselect (CLRS chapter 7):
    Lomuto's last-element scheme, its randomized variant and Hoare's
    two-pointer scheme. Each rearranges `a[p..r]` (inclusive bounds) in place
    and returns the split index. */
module Partition {
  import opened SortSpec

  /** Exchanging two positions inside `[p, r]` permutes `a[p..r]` and leaves
      every other position alone. */
  method SwapIn(a: array<int>, p: int, r: int, x: int, y: int)
    requires 0 <= p <= x <= r < a.Length && p <= y <= r
    modifies a
    ensures a[x] == old(a[y]) && a[y] == old(a[x])
    ensures forall k :: 0 <= k < a.Length && k != x && k != y ==> a[k] == old(a[k])
    ensures multiset(a[p..r + 1]) == old(multiset(a[p..r + 1]))
  {
    ghost var before := a[p..r + 1];
    a[x], a[y] := a[y], a[x];
    assert a[p..r + 1] == before[x - p := before[y - p]][y - p := before[x - p]];
  }

  /** Lomuto partition around the pivot `a[r]`. On return `a[q]` is the old
      `a[r]`, everything in `[p, q)` is at most it and everything in
      `(q, r]` is greater; `a[p..r]` is a permutation of its old contents and
      nothing outside `[p, r]` moved. */
  method Lomuto(a: array<int>, p: int, r: int) returns (q: int)
    requires 0 <= p <= r < a.Length
    modifies a
    ensures p <= q <= r
    ensures a[q] == old(a[r])
    ensures forall k :: p <= k < q ==> a[k] <= a[q]
    ensures forall k :: q < k <= r ==> a[k] > a[q]
    ensures multiset(a[p..r + 1]) == old(multiset(a[p..r + 1]))
    ensures forall k :: 0 <= k < a.Length && !(p <= k <= r) ==> a[k] == old(a[k])
  {
    var pivot := a[r];
    var i := p - 1;
    for j := p to r
      // the three regions: [p, i] at most the pivot, (i, j) above it, a[r] the pivot
      invariant p - 1 <= i < j
      invariant forall k :: p <= k <= i ==> a[k] <= pivot
      invariant forall k :: i < k < j ==> a[k] > pivot
      invariant a[r] == pivot
      invariant multiset(a[p..r + 1]) == old(multiset(a[p..r + 1]))
      invariant forall k :: 0 <= k < a.Length && !(p <= k <= r) ==> a[k] == old(a[k])
    {
      if a[j] <= pivot {
        i := i + 1;
        SwapIn(a, p, r, i, j);
      }
    }
    SwapIn(a, p, r, i + 1, r);
    q := i + 1;
  }

  /** Randomized partition: the random draw of the source is the argument
      `k`, any index in `[p, r]`; its element is swapped to `r` and becomes
      the pivot. */
  method Randomized(a: array<int>, p: int, r: int, k: int) returns (q: int)
    requires 0 <= p <= k <= r < a.Length
    modifies a
    ensures p <= q <= r
    ensures a[q] == old(a[k])
    ensures forall m :: p <= m < q ==> a[m] <= a[q]
    ensures forall m :: q < m <= r ==> a[m] > a[q]
    ensures multiset(a[p..r + 1]) == old(multiset(a[p..r + 1]))
    ensures forall m :: 0 <= m < a.Length && !(p <= m <= r) ==> a[m] == old(a[m])
  {
    SwapIn(a, p, r, k, r);
    q := Lomuto(a, p, r);
  }

  /** Hoare partition (CLRS problem 7-1) around `x = a[p]`. It never reads
      outside `[p, r]`; it returns `j` with `p <= j <= r`, and `j < r` when the
      range has two or more elements; every element of `[p, j]` is at most
      every element of `(j, r]`. */
  method Hoare(a: array<int>, p: int, r: int) returns (j: int)
    requires 0 <= p <= r < a.Length
    modifies a
    ensures p <= j <= r
    ensures p < r ==> j < r
    ensures forall s, t :: p <= s <= j < t <= r ==> a[s] <= a[t]
    ensures multiset(a[p..r + 1]) == old(multiset(a[p..r + 1]))
    ensures forall k :: 0 <= k < a.Length && !(p <= k <= r) ==> a[k] == old(a[k])
  {
    var x := a[p];
    var i := p - 1;
    j := r + 1;
    while true
      invariant p - 1 <= i < j <= r + 1
      invariant (i == p - 1) == (j == r + 1)
      invariant i == p - 1 ==> a[p] == x
      invariant forall k :: p <= k <= i ==> a[k] <= x
      invariant forall k :: j <= k <= r ==> a[k] >= x
      invariant multiset(a[p..r + 1]) == old(multiset(a[p..r + 1]))
      invariant forall k :: 0 <= k < a.Length && !(p <= k <= r) ==> a[k] == old(a[k])
      decreases j - i
    {
      ghost var i0, j0 := i, j;
      // scan down: a[max(i, p)] <= x stops the scan at the latest there
      j := j - 1;
      while a[j] > x
        invariant (if i0 < p then p else i0) <= j < j0
        invariant forall k :: j < k < j0 ==> a[k] > x
        decreases j
      {
        j := j - 1;
      }
      // scan up: a[p] on the first round, a[j0] afterwards, stops it
      ghost var upper := if i0 == p - 1 then p else j0;
      i := i + 1;
      while a[i] < x
        invariant i0 < i <= upper
        invariant forall k :: i0 < k < i ==> a[k] < x
        decreases upper - i
      {
        i := i + 1;
      }
      if i < j {
        SwapIn(a, p, r, i, j);
      } else {
        return;
      }
    }
  }
}
