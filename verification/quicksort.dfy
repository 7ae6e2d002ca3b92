/** The quicksort drivers of CLRS chapter 7. The partition routine is an
    injectable argument, but only the top-level split uses it: every
    recursive call falls back to the default last-element partition, exactly
    as the recursion in the drivers is written. */
module Quicksort {
  import opened SortSpec
  import Partition

  /** The `partition` argument of the drivers. */
  datatype Strategy = LastElement | RandomPivot | TwoPointer

  /** One split of `a[p..r]` by the chosen strategy. The random draw of
      `RandomPivot` is an arbitrary index of the range. */
  method Split(a: array<int>, p: int, r: int, strategy: Strategy) returns (q: int)
    requires 0 <= p < r < a.Length
    modifies a
    ensures p <= q <= r
    ensures strategy != TwoPointer ==>
      AllAtMost(a[p..q], a[q]) && AllAbove(a[q + 1..r + 1], a[q])
    ensures strategy == TwoPointer ==>
      q < r && forall s, t :: p <= s <= q < t <= r ==> a[s] <= a[t]
    ensures multiset(a[p..r + 1]) == old(multiset(a[p..r + 1]))
    ensures forall k :: 0 <= k < a.Length && !(p <= k <= r) ==> a[k] == old(a[k])
  {
    match strategy
    case LastElement =>
      q := Partition.Lomuto(a, p, r);
    case RandomPivot =>
      var k :| p <= k <= r;
      q := Partition.Randomized(a, p, r, k);
    case TwoPointer =>
      q := Partition.Hoare(a, p, r);
  }

  /** After a split at `q`, sorting `[p, q)` and then `(q, r]` leaves
      `a[p..r]` a permutation of the split's result, with nothing outside
      `[p, r]` moved; when the split was Lomuto-style (the left side at most
      the pivot, the right side above it), `a[p..r]` is sorted. */
  lemma Combine(split: seq<int>, after: seq<int>, p: int, q: int, r: int)
    requires Sides(split, after, p, q, r)
    ensures forall k :: 0 <= k < |split| && !(p <= k <= r) ==> after[k] == split[k]
    ensures multiset(after[p..r + 1]) == multiset(split[p..r + 1])
    ensures AllAtMost(split[p..q], split[q]) && AllAbove(split[q + 1..r + 1], split[q]) ==>
      Sorted(after[p..r + 1])
  {
    assert after[p..r + 1] == after[p..q] + [after[q]] + after[q + 1..r + 1];
    assert split[p..r + 1] == split[p..q] + [split[q]] + split[q + 1..r + 1];
    if AllAtMost(split[p..q], split[q]) && AllAbove(split[q + 1..r + 1], split[q]) {
      PermAtMost(split[p..q], after[p..q], split[q]);
      PermAbove(split[q + 1..r + 1], after[q + 1..r + 1], split[q]);
      SortedAroundPivot(after[p..q], after[q], after[q + 1..r + 1]);
    }
  }

  /** `quicksort(collection, p, r, partition)`: a no-op when `p >= r`;
      otherwise `a[p..r]` ends a permutation of its old contents, sorted
      whenever the top-level split is a Lomuto-style one, and nothing
      outside `[p, r]` moves. (The source's defaults are `p = 0`,
      `r = len - 1`.) */
  method Quicksort(a: array<int>, p: int, r: int, strategy: Strategy)
    requires p < r ==> 0 <= p && r < a.Length
    modifies a
    ensures p >= r ==> a[..] == old(a[..])
    ensures forall k :: 0 <= k < a.Length && !(p <= k <= r) ==> a[k] == old(a[k])
    ensures 0 <= p <= r + 1 <= a.Length ==> multiset(a[p..r + 1]) == old(multiset(a[p..r + 1]))
    ensures 0 <= p <= r + 1 <= a.Length && strategy != TwoPointer ==> Sorted(a[p..r + 1])
    decreases r - p, 1
  {
    if p < r {
      var q := Split(a, p, r, strategy);
      ghost var split := a[..];
      SortSides(a, p, q, r);
      Combine(split, a[..], p, q, r);
    }
  }

  /** The two recursive calls of `quicksort` after a split at `q`: each
      side ends sorted and a permutation of itself, and nothing else
      moves. */
  method SortSides(a: array<int>, p: int, q: int, r: int)
    requires 0 <= p <= q <= r < a.Length
    modifies a
    ensures Sides(old(a[..]), a[..], p, q, r)
    decreases r - p, 0
  {
    ghost var split := a[..];
    Quicksort(a, p, q - 1, LastElement);
    ghost var middle := a[..];
    Quicksort(a, q + 1, r, LastElement);
    BothSides(split, middle, a[..], p, q, r);
  }

  /** `after` is `split` with each side of the pivot position `q` sorted
      within `[p, r]`, and nothing else moved. */
  ghost predicate Sides(split: seq<int>, after: seq<int>, p: int, q: int, r: int)
  {
    0 <= p <= q <= r < |split| == |after| &&
    (forall k :: 0 <= k < |split| && !(p <= k < q) && !(q < k <= r) ==> after[k] == split[k]) &&
    multiset(after[p..q]) == multiset(split[p..q]) && Sorted(after[p..q]) &&
    multiset(after[q + 1..r + 1]) == multiset(split[q + 1..r + 1]) && Sorted(after[q + 1..r + 1])
  }

  /** The two recursive calls, each on its own side, together give
      `Sides`. */
  lemma BothSides(split: seq<int>, middle: seq<int>, after: seq<int>, p: int, q: int, r: int)
    requires 0 <= p <= q <= r < |split| == |middle| == |after|
    requires forall k :: 0 <= k < |split| && !(p <= k <= q - 1) ==> middle[k] == split[k]
    requires multiset(middle[p..q - 1 + 1]) == multiset(split[p..q - 1 + 1]) && Sorted(middle[p..q - 1 + 1])
    requires forall k :: 0 <= k < |split| && !(q + 1 <= k <= r) ==> after[k] == middle[k]
    requires multiset(after[q + 1..r + 1]) == multiset(middle[q + 1..r + 1])
    requires Sorted(after[q + 1..r + 1])
    ensures Sides(split, after, p, q, r)
  {
    assert after[p..q] == middle[p..q];
    assert middle[q + 1..r + 1] == split[q + 1..r + 1];
  }

  /** `randomize_quicksort`: the driver with the randomized partition
      injected, which randomizes the top-level split only. */
  method RandomizeQuicksort(a: array<int>, p: int, r: int)
    requires p < r ==> 0 <= p && r < a.Length
    modifies a
    ensures p >= r ==> a[..] == old(a[..])
    ensures forall k :: 0 <= k < a.Length && !(p <= k <= r) ==> a[k] == old(a[k])
    ensures 0 <= p <= r + 1 <= a.Length ==> multiset(a[p..r + 1]) == old(multiset(a[p..r + 1]))
    ensures 0 <= p <= r + 1 <= a.Length ==> Sorted(a[p..r + 1])
  {
    Quicksort(a, p, r, RandomPivot);
  }

  /** `quicksort_tailrecursion`: recurses on the left side and loops on the
      right side, always (no smaller-side choice). The loop's splits use the
      injected strategy; the recursive calls use the default. */
  method QuicksortTailRecursion(a: array<int>, p: int, r: int, strategy: Strategy)
    requires p < r ==> 0 <= p && r < a.Length
    modifies a
    ensures p >= r ==> a[..] == old(a[..])
    ensures forall k :: 0 <= k < a.Length && !(p <= k <= r) ==> a[k] == old(a[k])
    ensures 0 <= p <= r + 1 <= a.Length ==> multiset(a[p..r + 1]) == old(multiset(a[p..r + 1]))
    ensures 0 <= p <= r + 1 <= a.Length && strategy != TwoPointer ==> Sorted(a[p..r + 1])
    decreases r - p, 1
  {
    if p >= r {
      return;
    }
    var lo := p;
    while lo < r
      invariant p <= lo <= r + 1
      invariant forall k :: 0 <= k < a.Length && !(p <= k <= r) ==> a[k] == old(a[k])
      invariant multiset(a[p..r + 1]) == old(multiset(a[p..r + 1]))
      invariant strategy != TwoPointer ==> Sorted(a[p..lo]) && AllLeq(a[p..lo], a[lo..r + 1])
      decreases r - lo
    {
      lo := TailStep(a, p, lo, r, strategy);
    }
  }

  /** One round of the loop of `quicksort_tailrecursion`: split `a[lo..r]`
      at `q`, sort the left side by recursion and move on past the pivot.
      The round permutes `a[lo..r]` only, and for Lomuto-style splits it
      extends the sorted prefix `a[p..]` through the pivot. */
  method TailStep(a: array<int>, p: int, lo: int, r: int, strategy: Strategy) returns (next: int)
    requires 0 <= p <= lo < r < a.Length
    modifies a
    ensures lo < next <= r + 1
    ensures forall k :: 0 <= k < a.Length && !(lo <= k <= r) ==> a[k] == old(a[k])
    ensures multiset(a[p..r + 1]) == old(multiset(a[p..r + 1]))
    ensures strategy != TwoPointer && old(Sorted(a[p..lo]) && AllLeq(a[p..lo], a[lo..r + 1])) ==>
      Sorted(a[p..next]) && AllLeq(a[p..next], a[next..r + 1])
    decreases r - lo, 0
  {
    ghost var start := a[..];
    var q := Split(a, lo, r, strategy);
    ghost var split := a[..];
    QuicksortTailRecursion(a, lo, q - 1, LastElement);
    TailStepPerm(start, split, a[..], p, lo, q, r);
    if strategy != TwoPointer && Sorted(start[p..lo]) && AllLeq(start[p..lo], start[lo..r + 1]) {
      TailStepSorted(start, split, a[..], p, lo, q, r);
    }
    next := q + 1;
  }

  /** The loop step of the tail-recursive driver keeps `a[p..r]` a
      permutation: the split permutes `[lo, r]` and the recursive call
      permutes `[lo, q)`. */
  lemma TailStepPerm(start: seq<int>, split: seq<int>, after: seq<int>, p: int, lo: int, q: int, r: int)
    requires 0 <= p <= lo <= q <= r < |start| == |split| == |after|
    requires multiset(split[lo..r + 1]) == multiset(start[lo..r + 1])
    requires forall k :: 0 <= k < |start| && !(lo <= k <= r) ==> split[k] == start[k]
    requires multiset(after[lo..q - 1 + 1]) == multiset(split[lo..q - 1 + 1])
    requires forall k :: 0 <= k < |start| && !(lo <= k <= q - 1) ==> after[k] == split[k]
    ensures multiset(after[p..r + 1]) == multiset(start[p..r + 1])
    ensures forall k :: 0 <= k < |start| && !(lo <= k <= r) ==> after[k] == start[k]
  {
    assert after[p..lo] == split[p..lo] == start[p..lo];
    assert after[q..r + 1] == split[q..r + 1];
    assert after[p..r + 1] == after[p..lo] + after[lo..q] + after[q..r + 1];
    assert split[lo..r + 1] == split[lo..q] + split[q..r + 1];
    assert start[p..r + 1] == start[p..lo] + start[lo..r + 1];
  }

  /** The loop step of the tail-recursive driver, for Lomuto-style splits:
      a sorted prefix `[p, lo)` at most everything after it, a split of
      `[lo, r]` at `q` and a sorted `[lo, q)` give a sorted prefix `[p, q]`
      at most everything after it. */
  lemma TailStepSorted(start: seq<int>, split: seq<int>, after: seq<int>, p: int, lo: int, q: int, r: int)
    requires 0 <= p <= lo <= q <= r < |start| == |split| == |after|
    requires Sorted(start[p..lo]) && AllLeq(start[p..lo], start[lo..r + 1])
    requires multiset(split[lo..r + 1]) == multiset(start[lo..r + 1])
    requires forall k :: 0 <= k < |start| && !(lo <= k <= r) ==> split[k] == start[k]
    requires AllAtMost(split[lo..q], split[q]) && AllAbove(split[q + 1..r + 1], split[q])
    requires multiset(after[lo..q - 1 + 1]) == multiset(split[lo..q - 1 + 1]) && Sorted(after[lo..q - 1 + 1])
    requires forall k :: 0 <= k < |start| && !(lo <= k <= q - 1) ==> after[k] == split[k]
    ensures Sorted(after[p..q + 1]) && AllLeq(after[p..q + 1], after[q + 1..r + 1])
  {
    var prefix, mid, pivot, high := start[p..lo], after[lo..q], split[q], split[q + 1..r + 1];
    TailSlices(start, split, after, p, lo, q, r);
    assert multiset(after[lo..r + 1]) == multiset(split[lo..r + 1]);
    PermLeq(prefix, prefix, start[lo..r + 1], after[lo..r + 1]);
    PermAtMost(split[lo..q], mid, pivot);
    PivotBlock(mid, pivot, high);
    assert after[lo..r + 1] == (mid + [pivot]) + high;
    ExtendPrefix(prefix, mid + [pivot], high);
  }

  /** How the slices of the three snapshots of a tail-recursive round line
      up: the prefix before `lo` and the part after the pivot are untouched
      by the recursive call. */
  lemma TailSlices(start: seq<int>, split: seq<int>, after: seq<int>, p: int, lo: int, q: int, r: int)
    requires 0 <= p <= lo <= q <= r < |start| == |split| == |after|
    requires forall k :: 0 <= k < |start| && !(lo <= k <= r) ==> split[k] == start[k]
    requires forall k :: 0 <= k < |start| && !(lo <= k < q) ==> after[k] == split[k]
    ensures after[p..lo] == start[p..lo]
    ensures after[q + 1..r + 1] == split[q + 1..r + 1] && after[q] == split[q]
    ensures after[lo..r + 1] == after[lo..q] + [split[q]] + split[q + 1..r + 1]
    ensures after[p..q + 1] == start[p..lo] + (after[lo..q] + [split[q]])
    ensures split[lo..r + 1] == split[lo..q] + [split[q]] + split[q + 1..r + 1]
  {
    forall k | p <= k < lo
      ensures after[k] == start[k]
    {
    }
    SameSlice(after, start, p, lo);
    forall k | q < k <= r
      ensures after[k] == split[k]
    {
    }
    SameSlice(after, split, q + 1, r + 1);
    AroundIndex(after, lo, q, r + 1);
    AroundIndex(split, lo, q, r + 1);
    UpToIndex(after, p, lo, q);
  }

  /** Two sequences that agree on `[lo, hi)` have equal slices there. */
  lemma SameSlice(s: seq<int>, t: seq<int>, lo: int, hi: int)
    requires 0 <= lo <= hi <= |s| && hi <= |t|
    requires forall k :: lo <= k < hi ==> s[k] == t[k]
    ensures s[lo..hi] == t[lo..hi]
  {
  }

  /** A slice cut around one of its indices. */
  lemma AroundIndex(s: seq<int>, lo: int, q: int, hi: int)
    requires 0 <= lo <= q < hi <= |s|
    ensures s[lo..hi] == s[lo..q] + [s[q]] + s[q + 1..hi]
  {
  }

  /** A slice cut before `lo` and ending with the element at `q`. */
  lemma UpToIndex(s: seq<int>, p: int, lo: int, q: int)
    requires 0 <= p <= lo <= q < |s|
    ensures s[p..q + 1] == s[p..lo] + (s[lo..q] + [s[q]])
  {
    assert s[p..q + 1] == s[p..lo] + s[lo..q] + [s[q]];
  }

  /** A sorted run at most the pivot, then the pivot, is sorted and at most
      every element above the pivot. */
  lemma PivotBlock(mid: seq<int>, pivot: int, high: seq<int>)
    requires Sorted(mid) && AllAtMost(mid, pivot) && AllAbove(high, pivot)
    ensures Sorted(mid + [pivot]) && AllLeq(mid + [pivot], high)
  {
    SortedAroundPivot(mid, pivot, []);
    assert mid + [pivot] + [] == mid + [pivot];
    var left := mid + [pivot];
    forall x, y | 0 <= x < |left| && 0 <= y < |high|
      ensures left[x] <= high[y]
    {
      if x < |mid| {
        assert left[x] == mid[x];
      }
    }
  }

  /** A sorted prefix at most every later element, followed by a sorted part
      whose every element is at most every element of the remainder, can be
      joined into one sorted prefix at most the remainder. */
  lemma ExtendPrefix(prefix: seq<int>, left: seq<int>, right: seq<int>)
    requires Sorted(prefix) && Sorted(left)
    requires AllLeq(prefix, left + right) && AllLeq(left, right)
    ensures Sorted(prefix + left) && AllLeq(prefix + left, right)
  {
    assert AllLeq(prefix, left) by {
      forall x, y | 0 <= x < |prefix| && 0 <= y < |left|
        ensures prefix[x] <= left[y]
      {
        assert left[y] == (left + right)[y];
      }
    }
    SortedConcat(prefix, left);
    var joined := prefix + left;
    forall x, y | 0 <= x < |joined| && 0 <= y < |right|
      ensures joined[x] <= right[y]
    {
      assert right[y] == (left + right)[|left| + y];
      if x >= |prefix| {
        assert joined[x] == left[x - |prefix|];
      }
    }
  }
}
