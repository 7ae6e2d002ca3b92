/** The two quadratic in-place comparison sorts of CLRS chapter 2:
    insertion sort, which shifts each new element left into the sorted
    prefix, and bubble sort, which floats the minimum of the unsorted
    suffix down to its front. */
module Elementary {
  import opened SortSpec

  /** `post` is `s` with the element at `j` moved left to slot `i` and the
      elements `s[i..j]` shifted one slot to the right. */
  ghost predicate Inserted(s: seq<int>, post: seq<int>, i: int, j: int)
  {
    0 <= i <= j < |s| == |post| &&
    (forall t :: 0 <= t < i ==> post[t] == s[t]) &&
    post[i] == s[j] &&
    (forall t :: i < t <= j ==> post[t] == s[t - 1]) &&
    (forall t :: j < t < |s| ==> post[t] == s[t])
  }

  /** Moving one element keeps the multiset. */
  lemma InsertedPerm(s: seq<int>, post: seq<int>, i: int, j: int)
    requires Inserted(s, post, i, j)
    ensures multiset(post) == multiset(s)
  {
    assert post[..i] == s[..i];
    assert post[i + 1..j + 1] == s[i..j];
    assert post[j + 1..] == s[j + 1..];
    assert post == post[..i] + [post[i]] + post[i + 1..j + 1] + post[j + 1..];
    assert s == s[..i] + s[i..j] + [s[j]] + s[j + 1..];
  }

  /** When `s[..j]` was sorted and `s[j]` is at least the element before
      slot `i` and below every element it passes, moving it to slot `i`
      leaves `[..j + 1]` sorted. */
  lemma InsertedSorted(s: seq<int>, post: seq<int>, i: int, j: int)
    requires Inserted(s, post, i, j)
    requires Sorted(s[..j])
    requires i > 0 ==> s[i - 1] <= s[j]
    requires forall t :: i <= t < j ==> s[t] > s[j]
    ensures Sorted(post[..j + 1])
  {
    assert forall x, y :: 0 <= x < y < j ==> s[x] <= s[y] by {
      forall x, y | 0 <= x < y < j
        ensures s[x] <= s[y]
      {
        assert s[..j][x] == s[x] && s[..j][y] == s[y];
      }
    }
    forall x, y | 0 <= x < y <= j
      ensures post[x] <= post[y]
    {
      if y < i {
      } else if y == i {
        if x < i - 1 {
          assert s[x] <= s[i - 1];
        }
      } else if x < i {
        assert s[x] <= s[y - 1];
      } else if x == i {
        assert post[y] == s[y - 1];
      } else {
        assert post[x] == s[x - 1] && post[y] == s[y - 1];
      }
    }
  }

  /** `insertion_sort`: for each `j` from the second slot on, the element at
      `j` is lifted out and the larger elements of the sorted prefix shift
      right until its slot is found. The array ends sorted and a permutation
      of what it held. */
  method InsertionSort(a: array<int>)
    modifies a
    ensures Sorted(a[..])
    ensures multiset(a[..]) == old(multiset(a[..]))
  {
    if a.Length == 0 {
      return;
    }
    var j := 1;
    while j < a.Length
      invariant 1 <= j <= a.Length
      invariant Sorted(a[..j])
      invariant multiset(a[..]) == old(multiset(a[..]))
    {
      ghost var prev := a[..];
      var slot := InsertKey(a, j);
      InsertedPerm(prev, a[..], slot, j);
      InsertedSorted(prev, a[..], slot, j);
      j := j + 1;
    }
    assert a[..j] == a[..];
  }

  /** One round of `insertion_sort`'s outer loop: `key = collection[j]`,
      then the `while` loop shifts the larger elements before `j` one slot
      right and `key` drops into the gap at `slot`. */
  method InsertKey(a: array<int>, j: int) returns (slot: int)
    requires 1 <= j < a.Length
    modifies a
    ensures Inserted(old(a[..]), a[..], slot, j)
    ensures slot > 0 ==> old(a[slot - 1]) <= old(a[j])
    ensures forall t :: slot <= t < j ==> old(a[t]) > old(a[j])
  {
    ghost var prev := a[..];
    var key := a[j];
    var i := j - 1;
    while i >= 0 && a[i] > key
      invariant -1 <= i < j
      invariant forall t :: 0 <= t <= i ==> a[t] == prev[t]
      invariant forall t :: i + 2 <= t <= j ==> a[t] == prev[t - 1]
      invariant forall t :: j < t < a.Length ==> a[t] == prev[t]
      invariant forall t :: i < t < j ==> prev[t] > key
    {
      a[i + 1] := a[i];
      i := i - 1;
    }
    a[i + 1] := key;
    slot := i + 1;
  }

  /** Every element before `i` is at most every element after it. */
  ghost predicate Settled(s: seq<int>, i: int)
  {
    forall x, y :: 0 <= x < i && x < y < |s| ==> s[x] <= s[y]
  }

  /** `s[j]` is the minimum of `s[j..]`. */
  ghost predicate MinFrom(s: seq<int>, j: int)
  {
    forall t :: 0 <= j <= t < |s| ==> s[j] <= s[t]
  }

  /** One step of a bubble pass: the conditional swap of `s[j - 1]` and
      `s[j]` carries the minimum of `s[j..]` down to `j - 1`, keeps the
      settled prefix and the multiset. */
  lemma BubbleStep(s: seq<int>, post: seq<int>, i: int, j: int)
    requires 0 <= i < j < |s| && Settled(s, i) && MinFrom(s, j)
    requires post == if s[j] < s[j - 1] then s[j := s[j - 1]][j - 1 := s[j]] else s
    ensures Settled(post, i) && MinFrom(post, j - 1)
    ensures multiset(post) == multiset(s)
  {
    if s[j] < s[j - 1] {
      forall x, y | 0 <= x < i && x < y < |post|
        ensures post[x] <= post[y]
      {
        assert post[y] == s[y] || post[y] == s[j] || post[y] == s[j - 1];
      }
    }
  }

  /** `bubble_sort`: pass `i` brings the minimum of `a[i..]` to slot `i`,
      which settles one more slot. The array ends sorted and a permutation
      of what it held. */
  method BubbleSort(a: array<int>)
    modifies a
    ensures Sorted(a[..])
    ensures multiset(a[..]) == old(multiset(a[..]))
  {
    var i := 0;
    while i < a.Length
      invariant 0 <= i <= a.Length
      invariant Settled(a[..], i)
      invariant multiset(a[..]) == old(multiset(a[..]))
    {
      BubblePass(a, i);
      i := i + 1;
    }
  }

  /** The inner loop of `bubble_sort`: `j` walks down from the last slot to
      `i + 1`, swapping adjacent elements that are out of order. */
  method BubblePass(a: array<int>, i: int)
    requires 0 <= i < a.Length && Settled(a[..], i)
    modifies a
    ensures Settled(a[..], i + 1)
    ensures multiset(a[..]) == old(multiset(a[..]))
  {
    var j := a.Length - 1;
    while j > i
      invariant i <= j < a.Length
      invariant Settled(a[..], i) && MinFrom(a[..], j)
      invariant multiset(a[..]) == old(multiset(a[..]))
    {
      ghost var s := a[..];
      if a[j] < a[j - 1] {
        a[j], a[j - 1] := a[j - 1], a[j];
      }
      BubbleStep(s, a[..], i, j);
      j := j - 1;
    }
  }
}
