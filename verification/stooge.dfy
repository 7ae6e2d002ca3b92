/** Stooge sort (CLRS problem 7-3): order the two ends of `[i, j]`, then
    sort the first two thirds, the last two thirds and the first two
    thirds again. */
module Stooge {
  import opened SortSpec

  /** After the second recursive call: `s` is a range of `n` elements whose
      first `n - k` were sorted by the first call (`b`), after which the last
      `n - k` were sorted. Because the middle part that both calls cover has
      at least `k` elements, the last `k` of `s` are sorted and at least
      everything before them. */
  lemma LargestAtEnd(b: seq<int>, s: seq<int>, k: int)
    requires |b| == |s| >= 3 && k == |s| / 3
    requires Sorted(b[..|b| - k])
    requires s[..k] == b[..k]
    requires multiset(s[k..]) == multiset(b[k..]) && Sorted(s[k..])
    ensures Sorted(s[|s| - k..]) && AllLeq(s[..|s| - k], s[|s| - k..])
  {
    var n := |s|;
    var tail := s[k..];
    var last := s[n - k..];
    assert Sorted(last) by {
      forall x, y | 0 <= x < y < k
        ensures last[x] <= last[y]
      {
        assert last[x] == tail[n - 2 * k + x] && last[y] == tail[n - 2 * k + y];
      }
    }
    forall x, y | 0 <= x < n - k && n - k <= y < n
      ensures s[x] <= s[y]
    {
      if x >= k {
        assert s[x] == tail[x - k] && s[y] == tail[y - k];
      } else {
        AboveFirstThird(b, s, k, x, y);
      }
    }
    var first := s[..n - k];
    assert AllLeq(first, last) by {
      forall x, y | 0 <= x < n - k && 0 <= y < k
        ensures first[x] <= last[y]
      {
        assert first[x] == s[x] && last[y] == s[n - k + y];
      }
    }
  }

  /** The counting step of `LargestAtEnd`: an element `s[x]` of the first
      third, untouched by the second call, is at most an element `s[y]` of
      the last third. Otherwise every element of the middle part `b[k..n - k]`
      (each at least `s[x]` by the first call) would exceed `s[y]`; that is
      `n - 2k >= k` elements above `s[y]` in the sorted `s[k..]`, where only
      the fewer than `k` elements after `y` can be. */
  lemma AboveFirstThird(b: seq<int>, s: seq<int>, k: int, x: int, y: int)
    requires |b| == |s| >= 3 && k == |s| / 3
    requires Sorted(b[..|b| - k])
    requires s[..k] == b[..k]
    requires multiset(s[k..]) == multiset(b[k..]) && Sorted(s[k..])
    requires 0 <= x < k && |s| - k <= y < |s|
    ensures s[x] <= s[y]
  {
    if s[y] < s[x] {
      var above := (v: int) => v > s[y];
      AboveInTail(s, k, y, above);
      AboveInMid(b, s, k, x, above);
      assert false;
    }
  }

  /** In the sorted `s[k..]`, only the elements after `y` can exceed
      `s[y]`. */
  lemma AboveInTail(s: seq<int>, k: int, y: int, above: int -> bool)
    requires 0 <= k <= y < |s| && Sorted(s[k..])
    requires forall v :: above(v) <==> v > s[y]
    ensures Count(s[k..], above) <= |s| - 1 - y
  {
    var tail := s[k..];
    var cut := y - k + 1;
    assert tail == tail[..cut] + tail[cut..];
    forall t | 0 <= t < cut
      ensures !above(tail[..cut][t])
    {
      assert tail[..cut][t] == tail[t] && tail[t] <= tail[y - k];
    }
    CountAllOrNone(tail[..cut], above);
    CountConcat(tail[..cut], tail[cut..], above);
  }

  /** The middle part `b[k..n - k]` lies in `s[k..]` and, sorted after the
      first-third element `s[x]`, holds `n - 2k` elements that are at least
      `s[x]`. */
  lemma AboveInMid(b: seq<int>, s: seq<int>, k: int, x: int, above: int -> bool)
    requires |b| == |s| >= 3 && k == |s| / 3
    requires Sorted(b[..|b| - k])
    requires s[..k] == b[..k]
    requires multiset(s[k..]) == multiset(b[k..])
    requires 0 <= x < k
    requires forall v :: v >= s[x] ==> above(v)
    ensures Count(s[k..], above) >= |s| - 2 * k
  {
    var n := |s|;
    var mid, last := b[k..n - k], b[n - k..];
    assert b[k..] == mid + last;
    forall t | 0 <= t < |mid|
      ensures above(mid[t])
    {
      assert b[x] == b[..n - k][x] && mid[t] == b[..n - k][k + t];
      assert s[x] == b[x];
    }
    CountAllOrNone(mid, above);
    CountConcat(mid, last, above);
    CountPerm(b[k..], s[k..], above);
  }

  /** The last recursive call re-sorts `[lo, m)`, whose elements are all at
      most those of the sorted `[m, hi)`, which it leaves in place: the whole
      of `[lo, hi)` is then sorted. */
  lemma SortedAfterThird(s: seq<int>, u: seq<int>, lo: int, m: int, hi: int)
    requires 0 <= lo <= m <= hi <= |s| == |u|
    requires Sorted(s[m..hi]) && AllLeq(s[lo..m], s[m..hi])
    requires multiset(u[lo..m]) == multiset(s[lo..m]) && Sorted(u[lo..m])
    requires u[m..hi] == s[m..hi]
    ensures Sorted(u[lo..hi])
  {
    PermLeq(s[lo..m], u[lo..m], s[m..hi], u[m..hi]);
    SortedConcat(u[lo..m], u[m..hi]);
    assert u[lo..hi] == u[lo..m] + u[m..hi];
  }

  /** `after` is `before` with `[lo, hi]` permuted and nothing else
      changed. */
  ghost predicate PermutesRange(before: seq<int>, after: seq<int>, lo: int, hi: int)
  {
    0 <= lo <= hi + 1 <= |before| == |after| &&
    (forall t :: 0 <= t < |before| && !(lo <= t <= hi) ==> after[t] == before[t]) &&
    multiset(after[lo..hi + 1]) == multiset(before[lo..hi + 1])
  }

  /** `after` is `before` with `[lo, hi]` permuted into sorted order and
      nothing else changed. */
  ghost predicate SortsRange(before: seq<int>, after: seq<int>, lo: int, hi: int)
  {
    PermutesRange(before, after, lo, hi) && Sorted(after[lo..hi + 1])
  }

  /** Permuting `[lo, hi]`, and nothing else, permutes every enclosing
      range `[p, r]`. */
  lemma Widen(s: seq<int>, t: seq<int>, lo: int, hi: int, p: int, r: int)
    requires PermutesRange(s, t, lo, hi) && 0 <= p <= lo && hi <= r < |s|
    ensures PermutesRange(s, t, p, r)
  {
    PermInside(s, t, p, lo, hi + 1, r + 1);
  }

  /** The first two recursive calls of `stooge_sort` leave the largest
      `k` elements of `[i, j]`, sorted, at its end. */
  lemma TopThirdPlaced(s1: seq<int>, s2: seq<int>, s3: seq<int>, i: int, j: int, k: int)
    requires 0 <= i && i + 1 < j && k == (j - i + 1) / 3
    requires SortsRange(s1, s2, i, j - k)
    requires SortsRange(s2, s3, i + k, j)
    ensures Sorted(s3[j - k + 1..j + 1]) && AllLeq(s3[i..j - k + 1], s3[j - k + 1..j + 1])
  {
    var n := j - i + 1;
    var b, s := s2[i..j + 1], s3[i..j + 1];
    assert b[..n - k] == s2[i..j - k + 1];
    assert s[..k] == b[..k];
    assert s[k..] == s3[i + k..j + 1] && b[k..] == s2[i + k..j + 1];
    LargestAtEnd(b, s, k);
    assert s[n - k..] == s3[j - k + 1..j + 1] && s[..n - k] == s3[i..j - k + 1];
  }

  /** The third recursive call of `stooge_sort` sorts the rest of `[i, j]`
      below its sorted top third, so the whole range is sorted. */
  lemma StoogeSorted(s3: seq<int>, after: seq<int>, i: int, j: int, k: int)
    requires 0 <= i && i + 1 < j < |s3| && k == (j - i + 1) / 3
    requires Sorted(s3[j - k + 1..j + 1]) && AllLeq(s3[i..j - k + 1], s3[j - k + 1..j + 1])
    requires SortsRange(s3, after, i, j - k)
    ensures Sorted(after[i..j + 1])
  {
    assert after[j - k + 1..j + 1] == s3[j - k + 1..j + 1];
    SortedAfterThird(s3, after, i, j - k + 1, j + 1);
  }

  /** Swapping the two ends of `[i, j]` permutes the range. */
  lemma SwapEnds(s0: seq<int>, s1: seq<int>, i: int, j: int)
    requires 0 <= i < j < |s0| && s1 == s0[i := s0[j]][j := s0[i]]
    ensures PermutesRange(s0, s1, i, j)
  {
    assert s1[i..j + 1] == [s0[j]] + s0[i + 1..j] + [s0[i]];
    assert s0[i..j + 1] == [s0[i]] + s0[i + 1..j] + [s0[j]];
  }

  /** The opening step of `stooge_sort`: swapping the ends of `[i, j]`
      when they are out of order permutes the range and leaves its ends
      ordered; a range of at most two elements is then sorted. */
  lemma EndsOrdered(s0: seq<int>, s1: seq<int>, i: int, j: int)
    requires 0 <= i <= j < |s0|
    requires s1 == (if s0[i] > s0[j] then s0[i := s0[j]][j := s0[i]] else s0)
    ensures PermutesRange(s0, s1, i, j) && s1[i] <= s1[j]
    ensures i + 1 >= j ==> Sorted(s1[i..j + 1])
  {
    if s0[i] > s0[j] {
      SwapEnds(s0, s1, i, j);
    }
    if i + 1 >= j {
      var r := s1[i..j + 1];
      forall x, y | 0 <= x < y < |r|
        ensures r[x] <= r[y]
      {
        assert r[x] == s1[i] && r[y] == s1[j];
      }
    }
  }

  /** The first two recursive calls of `stooge_sort` permute `[i, j]`
      only. */
  lemma TwoPassFrame(s1: seq<int>, s2: seq<int>, s3: seq<int>, i: int, j: int, k: int)
    requires 0 <= i && i + 1 < j && k == (j - i + 1) / 3
    requires PermutesRange(s1, s2, i, j - k)
    requires PermutesRange(s2, s3, i + k, j)
    ensures PermutesRange(s1, s3, i, j)
  {
    Widen(s1, s2, i, j - k, i, j);
    Widen(s2, s3, i + k, j, i, j);
    Chain(s1, s2, s3, i, j);
  }

  /** The third recursive call of `stooge_sort` completes the sort of
      `[i, j]`. */
  lemma ThirdPass(s1: seq<int>, s3: seq<int>, after: seq<int>, i: int, j: int, k: int)
    requires 0 <= i && i + 1 < j && k == (j - i + 1) / 3
    requires PermutesRange(s1, s3, i, j)
    requires Sorted(s3[j - k + 1..j + 1]) && AllLeq(s3[i..j - k + 1], s3[j - k + 1..j + 1])
    requires SortsRange(s3, after, i, j - k)
    ensures SortsRange(s1, after, i, j)
  {
    Widen(s3, after, i, j - k, i, j);
    Chain(s1, s3, after, i, j);
    StoogeSorted(s3, after, i, j, k);
  }

  /** Permuting `[i, j]` twice, and nothing else, permutes it once. */
  lemma Chain(s0: seq<int>, s1: seq<int>, s2: seq<int>, i: int, j: int)
    requires PermutesRange(s0, s1, i, j) && PermutesRange(s1, s2, i, j)
    ensures PermutesRange(s0, s2, i, j)
  {
  }

  /** `stooge_sort(collection, i, j)`: swap the ends of `[i, j]` when they
      are out of order; stop when the range has at most two elements;
      otherwise recurse on the thirds (`SortThirds`).
      `a[i..j]` ends sorted and a permutation of what it held, and nothing
      outside `[i, j]` moves. */
  method StoogeSort(a: array<int>, i: int, j: int)
    requires 0 <= i <= j < a.Length
    modifies a
    ensures SortsRange(old(a[..]), a[..], i, j)
    decreases j - i, 2
  {
    ghost var s0 := a[..];
    if a[i] > a[j] {
      a[i], a[j] := a[j], a[i];
    }
    ghost var s1 := a[..];
    EndsOrdered(s0, s1, i, j);
    if i + 1 >= j {
      return;
    }
    SortThirds(a, i, j);
    Chain(s0, s1, a[..], i, j);
  }

  /** The recursive case of `stooge_sort` on a range of at least three
      elements: sort the first two thirds, the last two thirds and the first
      two thirds again, a third being `floor((j - i + 1) / 3)`. */
  method SortThirds(a: array<int>, i: int, j: int)
    requires 0 <= i && i + 1 < j < a.Length
    modifies a
    ensures SortsRange(old(a[..]), a[..], i, j)
    decreases j - i, 1
  {
    ghost var s1 := a[..];
    var k := (j - i + 1) / 3;
    TopThird(a, i, j, k);
    ghost var s3 := a[..];
    StoogeSort(a, i, j - k);
    ThirdPass(s1, s3, a[..], i, j, k);
  }

  /** The first two recursive calls of the recursive case: afterwards the
      largest `k` elements of `[i, j]` lie sorted at its end. */
  method TopThird(a: array<int>, i: int, j: int, k: int)
    requires 0 <= i && i + 1 < j < a.Length && k == (j - i + 1) / 3
    modifies a
    ensures PermutesRange(old(a[..]), a[..], i, j)
    ensures Sorted(a[..][j - k + 1..j + 1]) && AllLeq(a[..][i..j - k + 1], a[..][j - k + 1..j + 1])
    decreases j - i, 0
  {
    ghost var s1 := a[..];
    StoogeSort(a, i, j - k);
    ghost var s2 := a[..];
    StoogeSort(a, i + k, j);
    TopThirdPlaced(s1, s2, a[..], i, j, k);
    TwoPassFrame(s1, s2, a[..], i, j, k);
  }
}
