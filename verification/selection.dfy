/** Order statistics (CLRS chapter 9): the linear scans for the minimum and
    the maximum, the paired scan that finds both with three comparisons per
    two elements, and randomized quickselect. */
module Selection {
  import opened SortSpec
  import Partition

  /** `m` is an element of `s` at most every element of `s`. */
  ghost predicate IsMinimum(s: seq<int>, m: int)
  {
    m in s && forall k :: 0 <= k < |s| ==> m <= s[k]
  }

  /** `m` is an element of `s` at least every element of `s`. */
  ghost predicate IsMaximum(s: seq<int>, m: int)
  {
    m in s && forall k :: 0 <= k < |s| ==> s[k] <= m
  }

  /** `minimum`: the scan that keeps the smallest element seen so far. The
      source reads `collection[0]` first, so an empty collection is outside
      its domain. */
  method Minimum(s: seq<int>) returns (m: int)
    requires |s| > 0
    ensures IsMinimum(s, m)
  {
    m := s[0];
    for i := 1 to |s|
      invariant m in s[..i]
      invariant forall k :: 0 <= k < i ==> m <= s[k]
    {
      if m > s[i] {
        m := s[i];
      }
    }
    assert s[..|s|] == s;
  }

  /** `maximum`: the scan that keeps the largest element seen so far. */
  method Maximum(s: seq<int>) returns (m: int)
    requires |s| > 0
    ensures IsMaximum(s, m)
  {
    m := s[0];
    for i := 1 to |s|
      invariant m in s[..i]
      invariant forall k :: 0 <= k < i ==> s[k] <= m
    {
      if m < s[i] {
        m := s[i];
      }
    }
    assert s[..|s|] == s;
  }

  /** `minimum_maximum`: both extremes in one pass over pairs. An even
      length starts from the ordered first pair, an odd one from the first
      element; the pairs `s[i], s[i + 1]` then never reach past the end.
      The pair returned is the one `minimum` and `maximum` return, since
      `IsMinimum` and `IsMaximum` each admit one value. */
  method MinimumMaximum(s: seq<int>) returns (mn: int, mx: int)
    requires |s| > 0
    ensures IsMinimum(s, mn) && IsMaximum(s, mx)
  {
    var n := |s|;
    var i;
    if n % 2 == 0 {
      if s[0] < s[1] {
        mn, mx := s[0], s[1];
      } else {
        mn, mx := s[1], s[0];
      }
      i := 2;
    } else {
      mn, mx := s[0], s[0];
      i := 1;
    }
    while i < n
      invariant 1 <= i <= n && (n - i) % 2 == 0
      invariant mn in s[..i] && mx in s[..i]
      invariant forall k :: 0 <= k < i ==> mn <= s[k] <= mx
    {
      if s[i] < s[i + 1] {
        if mn > s[i] {
          mn := s[i];
        }
        if mx < s[i + 1] {
          mx := s[i + 1];
        }
      } else {
        if mn > s[i + 1] {
          mn := s[i + 1];
        }
        if mx < s[i] {
          mx := s[i];
        }
      }
      i := i + 2;
    }
    assert s[..n] == s;
  }

  /** The two characterizations of an extreme admit a single value. */
  lemma ExtremesUnique(s: seq<int>, m: int, m': int)
    ensures IsMinimum(s, m) && IsMinimum(s, m') ==> m == m'
    ensures IsMaximum(s, m) && IsMaximum(s, m') ==> m == m'
  {
  }

  /** The number of elements of `s` below `v`. */
  function CountLess(s: seq<int>, v: int): nat
  {
    Count(s, x => x < v)
  }

  /** The number of elements of `s` at most `v`. */
  function CountAtMost(s: seq<int>, v: int): nat
  {
    Count(s, x => x <= v)
  }

  /** `v` has rank `i` in the multiset of `s` (rank 1 is the smallest):
      fewer than `i` elements are below it and at least `i` are at most it.
      Such a `v` is an element of `s` (`RankMember`). */
  ghost predicate IsRank(s: seq<int>, i: int, v: int)
  {
    CountLess(s, v) < i <= CountAtMost(s, v)
  }

  /** A value with a rank in `s` occurs in `s`: otherwise the elements below
      it and the elements at most it would be the same ones. */
  lemma {:induction false} RankMember(s: seq<int>, i: int, v: int)
    requires IsRank(s, i, v)
    ensures v in s
  {
    if v !in s {
      NotMemberCounts(s, v);
    }
  }

  /** Without `v` in `s`, being at most `v` and being below it coincide. */
  lemma {:induction false} NotMemberCounts(s: seq<int>, v: int)
    requires v !in s
    ensures CountLess(s, v) == CountAtMost(s, v)
  {
    if s != [] {
      assert v !in s[1..];
      NotMemberCounts(s[1..], v);
    }
  }

  /** Rank depends only on the multiset of the sequence. */
  lemma RankPerm(s: seq<int>, t: seq<int>, i: int, v: int)
    requires multiset(s) == multiset(t)
    ensures IsRank(s, i, v) <==> IsRank(t, i, v)
  {
    CountPerm(s, t, x => x < v);
    CountPerm(s, t, x => x <= v);
  }

  /** Splitting `low + [pivot] + high` by counts: `low` at most the pivot,
      `high` above it. */
  lemma CountsAroundPivot(low: seq<int>, pivot: int, high: seq<int>, v: int)
    requires AllAtMost(low, pivot) && AllAbove(high, pivot)
    ensures v <= pivot ==> CountLess(low + [pivot] + high, v) == CountLess(low, v)
    ensures v <= pivot ==>
      CountAtMost(low + [pivot] + high, v) == CountAtMost(low, v) + (if v == pivot then 1 else 0)
    ensures v > pivot ==> CountLess(low + [pivot] + high, v) == |low| + 1 + CountLess(high, v)
    ensures v > pivot ==> CountAtMost(low + [pivot] + high, v) == |low| + 1 + CountAtMost(high, v)
  {
    var less: int -> bool := x => x < v;
    var atMost: int -> bool := x => x <= v;
    CountConcat(low + [pivot], high, less);
    CountConcat(low, [pivot], less);
    CountConcat(low + [pivot], high, atMost);
    CountConcat(low, [pivot], atMost);
    assert [pivot][1..] == [];
    if v <= pivot {
      CountAllOrNone(high, less);
      CountAllOrNone(high, atMost);
    } else {
      CountAllOrNone(low, less);
      CountAllOrNone(low, atMost);
    }
  }

  /** The three outcomes of a quickselect step: the pivot at position
      `k = |low| + 1` has rank `k`, a rank below `k` is found in `low`, a rank
      above `k` is found in `high` at rank `i - k`. */
  lemma RankAroundPivot(low: seq<int>, pivot: int, high: seq<int>, i: int, v: int)
    requires AllAtMost(low, pivot) && AllAbove(high, pivot)
    ensures i == |low| + 1 ==> IsRank(low + [pivot] + high, i, pivot)
    ensures i < |low| + 1 && IsRank(low, i, v) ==> IsRank(low + [pivot] + high, i, v)
    ensures i > |low| + 1 && IsRank(high, i - |low| - 1, v) ==> IsRank(low + [pivot] + high, i, v)
  {
    var s := low + [pivot] + high;
    assert s[|low|] == pivot;
    if i == |low| + 1 {
      CountsAroundPivot(low, pivot, high, pivot);
      CountAllOrNone(low, x => x <= pivot);
    }
    if i < |low| + 1 && IsRank(low, i, v) {
      RankMember(low, i, v);
      assert v <= pivot;
      CountsAroundPivot(low, pivot, high, v);
    }
    if i > |low| + 1 && IsRank(high, i - |low| - 1, v) {
      RankMember(high, i - |low| - 1, v);
      assert v > pivot;
      CountsAroundPivot(low, pivot, high, v);
    }
  }

  /** One quickselect step, stated on values: `before` was permuted into
      `low + [pivot] + high`; `v` is the pivot when `i` is its rank, and
      otherwise the value of the matching rank in the side that holds it. */
  lemma StepRank(before: seq<int>, low: seq<int>, pivot: int, high: seq<int>, i: int, v: int)
    requires multiset(before) == multiset(low + [pivot] + high)
    requires AllAtMost(low, pivot) && AllAbove(high, pivot)
    requires i == |low| + 1 ==> v == pivot
    requires i < |low| + 1 ==> IsRank(low, i, v)
    requires i > |low| + 1 ==> IsRank(high, i - |low| - 1, v)
    ensures IsRank(before, i, v)
  {
    RankAroundPivot(low, pivot, high, i, v);
    RankPerm(before, low + [pivot] + high, i, v);
  }

  /** In a sorted sequence the element at index `i - 1` has rank `i`: the
      selected value is what sorting would put at position `i`. */
  lemma SortedRank(s: seq<int>, i: int)
    requires Sorted(s) && 1 <= i <= |s|
    ensures IsRank(s, i, s[i - 1])
  {
    var v := s[i - 1];
    assert s == s[..i - 1] + s[i - 1..];
    assert s == s[..i] + s[i..];
    CountConcat(s[..i - 1], s[i - 1..], x => x < v);
    CountAllOrNone(s[i - 1..], x => x < v);
    CountConcat(s[..i], s[i..], x => x <= v);
    CountAllOrNone(s[..i], x => x <= v);
  }

  /** Two values with the same rank are equal. */
  lemma RankUnique(s: seq<int>, i: int, v: int, w: int)
    requires IsRank(s, i, v) && IsRank(s, i, w)
    ensures v == w
  {
    if v < w {
      CountMonotone(s, v, w);
    } else if w < v {
      CountMonotone(s, w, v);
    }
  }

  /** For `v < w`, every element at most `v` is below `w`. */
  lemma {:induction false} CountMonotone(s: seq<int>, v: int, w: int)
    requires v < w
    ensures CountAtMost(s, v) <= CountLess(s, w)
  {
    if s != [] {
      CountMonotone(s[1..], v, w);
    }
  }

  /** One quickselect step on sequences: `split` permuted `before` into
      `a[p..q)`, the pivot `split[q]` and `a(q..r]`; `after` is `split` with
      at most the side holding rank `i` permuted, and `v` is the rank found
      there (or the pivot). Then `v` has rank `i` in `before`, and `after`
      permutes `before` inside `[p, r]` only. */
  lemma SelectStep(before: seq<int>, split: seq<int>, after: seq<int>, p: int, q: int, r: int, i: int, v: int)
    requires 0 <= p <= q <= r < |split| == |after|
    requires multiset(split[p..r + 1]) == multiset(before)
    requires AllAtMost(split[p..q], split[q]) && AllAbove(split[q + 1..r + 1], split[q])
    requires i == q - p + 1 ==> v == split[q] && after == split
    requires i < q - p + 1 ==>
      IsRank(split[p..q], i, v) && multiset(after[p..q]) == multiset(split[p..q]) &&
      forall k :: 0 <= k < |split| && !(p <= k < q) ==> after[k] == split[k]
    requires i > q - p + 1 ==>
      IsRank(split[q + 1..r + 1], i - (q - p + 1), v) &&
      multiset(after[q + 1..r + 1]) == multiset(split[q + 1..r + 1]) &&
      forall k :: 0 <= k < |split| && !(q < k <= r) ==> after[k] == split[k]
    ensures IsRank(before, i, v)
    ensures multiset(after[p..r + 1]) == multiset(before)
    ensures forall k :: 0 <= k < |split| && !(p <= k <= r) ==> after[k] == split[k]
  {
    if i < q - p + 1 {
      SelectBelow(before, split, after, p, q, r, i, v);
    } else if i > q - p + 1 {
      SelectAbove(before, split, after, p, q, r, i, v);
    } else {
      SelectPivot(before, split, p, q, r, i);
    }
  }

  /** The quickselect step that stops at the pivot. */
  lemma SelectPivot(before: seq<int>, split: seq<int>, p: int, q: int, r: int, i: int)
    requires 0 <= p <= q <= r < |split|
    requires multiset(split[p..r + 1]) == multiset(before)
    requires AllAtMost(split[p..q], split[q]) && AllAbove(split[q + 1..r + 1], split[q])
    requires i == q - p + 1
    ensures IsRank(before, i, split[q])
  {
    var low, pivot, high := split[p..q], split[q], split[q + 1..r + 1];
    assert split[p..r + 1] == low + [pivot] + high;
    StepRank(before, low, pivot, high, i, pivot);
  }

  /** The quickselect step that recurses into the part below the pivot. */
  lemma SelectBelow(before: seq<int>, split: seq<int>, after: seq<int>, p: int, q: int, r: int, i: int, v: int)
    requires 0 <= p <= q <= r < |split| == |after|
    requires multiset(split[p..r + 1]) == multiset(before)
    requires AllAtMost(split[p..q], split[q]) && AllAbove(split[q + 1..r + 1], split[q])
    requires i < q - p + 1 && IsRank(split[p..q], i, v)
    requires multiset(after[p..q]) == multiset(split[p..q])
    requires forall k :: 0 <= k < |split| && !(p <= k < q) ==> after[k] == split[k]
    ensures IsRank(before, i, v)
    ensures multiset(after[p..r + 1]) == multiset(before)
  {
    var low, pivot, high := split[p..q], split[q], split[q + 1..r + 1];
    assert split[p..r + 1] == low + [pivot] + high;
    StepRank(before, low, pivot, high, i, v);
    PermInside(split, after, p, p, q, r + 1);
  }

  /** The quickselect step that recurses into the part above the pivot. */
  lemma SelectAbove(before: seq<int>, split: seq<int>, after: seq<int>, p: int, q: int, r: int, i: int, v: int)
    requires 0 <= p <= q <= r < |split| == |after|
    requires multiset(split[p..r + 1]) == multiset(before)
    requires AllAtMost(split[p..q], split[q]) && AllAbove(split[q + 1..r + 1], split[q])
    requires i > q - p + 1 && IsRank(split[q + 1..r + 1], i - (q - p + 1), v)
    requires multiset(after[q + 1..r + 1]) == multiset(split[q + 1..r + 1])
    requires forall k :: 0 <= k < |split| && !(q < k <= r) ==> after[k] == split[k]
    ensures IsRank(before, i, v)
    ensures multiset(after[p..r + 1]) == multiset(before)
  {
    var low, pivot, high := split[p..q], split[q], split[q + 1..r + 1];
    assert split[p..r + 1] == low + [pivot] + high;
    StepRank(before, low, pivot, high, i, v);
    PermInside(split, after, p, q + 1, r + 1, r + 1);
  }

  /** `randomized_select(collection, p, r, i)`: the value of rank `i` of
      the old `a[p..r]`; when `p == r` it is `a[p]` itself. Each step
      partitions around an arbitrary pivot index, so only `a[p..r]` is
      permuted and every other position keeps its value. */
  method RandomizedSelect(a: array<int>, p: int, r: int, i: int) returns (v: int)
    requires 0 <= p <= r < a.Length
    requires 1 <= i <= r - p + 1
    modifies a
    ensures IsRank(old(a[p..r + 1]), i, v)
    ensures p == r ==> v == old(a[p])
    ensures multiset(a[p..r + 1]) == old(multiset(a[p..r + 1]))
    ensures forall m :: 0 <= m < a.Length && !(p <= m <= r) ==> a[m] == old(a[m])
    decreases r - p
  {
    if p == r {
      v := a[p];
      assert a[p..r + 1] == [] + [v] + [];
      RankAroundPivot([], v, [], 1, v);
      return;
    }
    ghost var before := a[p..r + 1];
    var pick :| p <= pick <= r;
    var q := Partition.Randomized(a, p, r, pick);
    ghost var split := a[..];
    var k := q - p + 1;
    if i == k {
      v := a[q];
    } else if i < k {
      v := RandomizedSelect(a, p, q - 1, i);
    } else {
      v := RandomizedSelect(a, q + 1, r, i - k);
    }
    SelectStep(before, split, a[..], p, q, r, i, v);
  }
}
