/** Merge sort of CLRS chapter 2: sort both halves of `[p, r]`, then merge
    them through two scratch arrays, each closed by a sentinel that is
    larger than every value. */
module MergeSort {
  import opened SortSpec

  /** A slot of a scratch array: a value, or the sentinel (Python's `None`)
      that counts as larger than any value. */
  datatype Cell = Num(v: int) | Infinite

  /** What `merge` produces from its two runs once `xs[..i]` and `ys[..j]`
      have been consumed: at each step the left head is taken when the
      right run is exhausted, or when the left run is not and its head is
      at most the right head; otherwise the right head. */
  function MergedFrom(xs: seq<int>, ys: seq<int>, i: nat, j: nat): (r: seq<int>)
    requires i <= |xs| && j <= |ys|
    ensures |r| == |xs| - i + |ys| - j
    decreases |xs| - i + |ys| - j
  {
    if j == |ys| then xs[i..]
    else if i < |xs| && xs[i] <= ys[j] then [xs[i]] + MergedFrom(xs, ys, i + 1, j)
    else [ys[j]] + MergedFrom(xs, ys, i, j + 1)
  }

  /** The whole output of `merge` on two runs. */
  function Merged(xs: seq<int>, ys: seq<int>): (r: seq<int>)
    ensures |r| == |xs| + |ys|
  {
    MergedFrom(xs, ys, 0, 0)
  }

  /** The rest of a merge holds exactly the unconsumed elements. */
  lemma {:induction false} MergedFromPerm(xs: seq<int>, ys: seq<int>, i: nat, j: nat)
    requires i <= |xs| && j <= |ys|
    ensures multiset(MergedFrom(xs, ys, i, j)) == multiset(xs[i..]) + multiset(ys[j..])
    decreases |xs| - i + |ys| - j
  {
    if j == |ys| {
      assert ys[j..] == [];
    } else if i < |xs| && xs[i] <= ys[j] {
      var rest := MergedFrom(xs, ys, i + 1, j);
      MergedFromPerm(xs, ys, i + 1, j);
      assert MergedFrom(xs, ys, i, j) == [xs[i]] + rest;
      assert xs[i..] == [xs[i]] + xs[i + 1..];
      assert multiset([xs[i]] + rest) == multiset{xs[i]} + multiset(rest);
      assert multiset(xs[i..]) == multiset{xs[i]} + multiset(xs[i + 1..]);
    } else {
      var rest := MergedFrom(xs, ys, i, j + 1);
      MergedFromPerm(xs, ys, i, j + 1);
      assert MergedFrom(xs, ys, i, j) == [ys[j]] + rest;
      assert ys[j..] == [ys[j]] + ys[j + 1..];
      assert multiset([ys[j]] + rest) == multiset{ys[j]} + multiset(rest);
      assert multiset(ys[j..]) == multiset{ys[j]} + multiset(ys[j + 1..]);
    }
  }

  /** The merge of two runs holds exactly their elements. */
  lemma MergedPerm(xs: seq<int>, ys: seq<int>)
    ensures multiset(Merged(xs, ys)) == multiset(xs) + multiset(ys)
  {
    MergedFromPerm(xs, ys, 0, 0);
    assert xs[0..] == xs && ys[0..] == ys;
  }

  /** A bound below the heads of both unconsumed sorted runs is below every
      element of the rest of their merge. */
  lemma MergedFromAbove(xs: seq<int>, ys: seq<int>, i: nat, j: nat, b: int)
    requires i <= |xs| && j <= |ys| && Sorted(xs) && Sorted(ys)
    requires i < |xs| ==> b <= xs[i]
    requires j < |ys| ==> b <= ys[j]
    ensures forall k :: 0 <= k < |MergedFrom(xs, ys, i, j)| ==> b <= MergedFrom(xs, ys, i, j)[k]
  {
    var r := MergedFrom(xs, ys, i, j);
    MergedFromPerm(xs, ys, i, j);
    forall k | 0 <= k < |r|
      ensures b <= r[k]
    {
      assert r[k] in multiset(xs[i..]) + multiset(ys[j..]);
      if r[k] in multiset(xs[i..]) {
        var m :| 0 <= m < |xs[i..]| && xs[i..][m] == r[k];
        assert xs[i] <= xs[i + m];
      } else {
        var m :| 0 <= m < |ys[j..]| && ys[j..][m] == r[k];
        assert ys[j] <= ys[j + m];
      }
    }
  }

  /** Merging two sorted runs gives a sorted run. */
  lemma {:induction false} MergedFromSorted(xs: seq<int>, ys: seq<int>, i: nat, j: nat)
    requires i <= |xs| && j <= |ys| && Sorted(xs) && Sorted(ys)
    ensures Sorted(MergedFrom(xs, ys, i, j))
    decreases |xs| - i + |ys| - j
  {
    if j == |ys| {
      assert forall x, y :: 0 <= x < y < |xs| - i ==> xs[i..][x] == xs[i + x] && xs[i..][y] == xs[i + y];
    } else if i < |xs| && xs[i] <= ys[j] {
      MergedFromSorted(xs, ys, i + 1, j);
      MergedFromAbove(xs, ys, i + 1, j, xs[i]);
      SortedCons(xs[i], MergedFrom(xs, ys, i + 1, j));
    } else {
      MergedFromSorted(xs, ys, i, j + 1);
      MergedFromAbove(xs, ys, i, j + 1, ys[j]);
      SortedCons(ys[j], MergedFrom(xs, ys, i, j + 1));
    }
  }

  /** A sorted run behind an element at most all of it is sorted. */
  lemma SortedCons(b: int, s: seq<int>)
    requires Sorted(s) && forall k :: 0 <= k < |s| ==> b <= s[k]
    ensures Sorted([b] + s)
  {
    var t := [b] + s;
    forall x, y | 0 <= x < y < |t|
      ensures t[x] <= t[y]
    {
      if x > 0 {
        assert t[x] == s[x - 1] && t[y] == s[y - 1];
      } else {
        assert t[y] == s[y - 1];
      }
    }
  }

  /** `c` holds the run `xs` closed by the sentinel. */
  ghost predicate Scratch(c: seq<Cell>, xs: seq<int>)
  {
    |c| == |xs| + 1 && c[|xs|] == Infinite &&
    forall t :: 0 <= t < |xs| ==> c[t] == Num(xs[t])
  }

  /** The scratch array `merge` fills: the `n` values from `lo` on, then
      the sentinel. */
  method CopyRun(a: array<int>, lo: int, n: int) returns (c: array<Cell>)
    requires 0 <= lo && 0 <= n && lo + n <= a.Length
    ensures fresh(c) && Scratch(c[..], a[lo..lo + n])
  {
    c := new Cell[n + 1](_ => Infinite);
    for i := 0 to n
      invariant forall t :: 0 <= t < i ==> c[t] == Num(a[lo + t])
      invariant c[n] == Infinite
    {
      c[i] := Num(a[lo + i]);
    }
  }

  /** `merge(collection, p, q, r)`: the runs `[p, q]` and `[q + 1, r]` are
      copied into scratch arrays closed by the sentinel, then written back
      in `Merged` order. Nothing outside `[p, r]` changes. */
  method Merge(a: array<int>, p: int, q: int, r: int)
    requires 0 <= p <= q < r < a.Length
    modifies a
    ensures a[p..r + 1] == Merged(old(a[p..q + 1]), old(a[q + 1..r + 1]))
    ensures forall k :: 0 <= k < a.Length && !(p <= k <= r) ==> a[k] == old(a[k])
  {
    var n1 := q - p + 1;
    var n2 := r - q;
    ghost var xs, ys := a[p..q + 1], a[q + 1..r + 1];
    var left := CopyRun(a, p, n1);
    var right := CopyRun(a, q + 1, n2);
    // The scratch arrays are only read from here on.
    var L, R := left[..], right[..];
    ghost var a0 := a[..];
    MergeRuns(a, p, L, R, xs, ys);
    Spliced(a0, p, r, Merged(xs, ys), a[..]);
  }

  /** The merging loop of `merge`: for each `k` from `p`, write the smaller
      head of the two scratch runs, the sentinel counting as larger than
      any value, and advance in that run. */
  method MergeRuns(a: array<int>, p: int, L: seq<Cell>, R: seq<Cell>, ghost xs: seq<int>, ghost ys: seq<int>)
    requires Scratch(L, xs) && Scratch(R, ys)
    requires 0 <= p && p + |xs| + |ys| <= a.Length
    modifies a
    ensures a[..] == old(a[..p]) + Merged(xs, ys) + old(a[p + |xs| + |ys|..])
  {
    var i, j := 0, 0;
    ghost var a0, out := a[..], [];
    for k := p to p + |L| + |R| - 2
      invariant 0 <= i <= |xs| && 0 <= j <= |ys| && i + j == k - p == |out|
      invariant out + MergedFrom(xs, ys, i, j) == Merged(xs, ys)
      invariant a[..] == a0[..p] + out + a0[k..]
    {
      var v;
      v, i, j := TakeSmaller(L, R, i, j, xs, ys);
      assert (out + [v]) + MergedFrom(xs, ys, i, j) == out + ([v] + MergedFrom(xs, ys, i, j));
      WriteNext(a0, p, k, out, v);
      ghost var before := a[..];
      a[k] := v;
      assert a[..] == before[k := v];
      out := out + [v];
    }
  }

  /** One comparison of the merging loop: the head of the left run is
      taken when the right head is the sentinel or the left head is a value
      at most the right head; otherwise the right head. That value is the
      next one of the merge, and its run advances. */
  method TakeSmaller(L: seq<Cell>, R: seq<Cell>, i: nat, j: nat, ghost xs: seq<int>, ghost ys: seq<int>)
    returns (v: int, i': nat, j': nat)
    requires Scratch(L, xs) && Scratch(R, ys)
    requires i <= |xs| && j <= |ys| && i + j < |xs| + |ys|
    ensures i' <= |xs| && j' <= |ys| && i' + j' == i + j + 1
    ensures MergedFrom(xs, ys, i, j) == [v] + MergedFrom(xs, ys, i', j')
  {
    if R[j].Infinite? || (L[i].Num? && L[i].v <= R[j].v) {
      if j == |ys| {
        assert xs[i..] == [xs[i]] + xs[i + 1..];
      }
      v, i', j' := L[i].v, i + 1, j;
    } else {
      v, i', j' := R[j].v, i, j + 1;
    }
  }

  /** Writing the next merged value at `k` extends the merged part. */
  lemma WriteNext(a0: seq<int>, p: int, k: int, out: seq<int>, v: int)
    requires 0 <= p <= k < |a0| && |out| == k - p
    ensures (a0[..p] + out + a0[k..])[k := v] == a0[..p] + (out + [v]) + a0[k + 1..]
  {
  }

  /** Splicing `out` over `[p, r]` of `a0` leaves the rest of `a0` as it
      was. */
  lemma Spliced(a0: seq<int>, p: int, r: int, out: seq<int>, s: seq<int>)
    requires 0 <= p <= r < |a0| && |out| == r + 1 - p
    requires s == a0[..p] + out + a0[r + 1..]
    ensures s[p..r + 1] == out
    ensures forall k :: 0 <= k < |s| && !(p <= k <= r) ==> s[k] == a0[k]
  {
  }

  /** `merge_sort(collection, p, r)`: a no-op when `p >= r`; otherwise
      both halves around `floor((p + r) / 2)` are sorted and merged.
      `a[p..r]` ends sorted and a permutation of what it held, and nothing
      outside `[p, r]` moves. */
  method MergeSort(a: array<int>, p: int, r: int)
    requires p < r ==> 0 <= p && r < a.Length
    modifies a
    ensures p >= r ==> a[..] == old(a[..])
    ensures forall k :: 0 <= k < a.Length && !(p <= k <= r) ==> a[k] == old(a[k])
    ensures 0 <= p <= r + 1 <= a.Length ==> multiset(a[p..r + 1]) == old(multiset(a[p..r + 1]))
    ensures 0 <= p <= r + 1 <= a.Length ==> Sorted(a[p..r + 1])
    decreases r - p, 1
  {
    if p < r {
      var q := (p + r) / 2;
      ghost var start := a[..];
      SortHalves(a, p, q, r);
      ghost var halves := a[..];
      Merge(a, p, q, r);
      MergeHalves(start, halves, a[..], p, q, r);
    } else if 0 <= p <= r + 1 <= a.Length {
      assert a[p..r + 1] == [] || a[p..r + 1] == [a[p]];
    }
  }

  /** The two recursive calls of `merge_sort`: each half of `[p, r]` ends
      sorted and a permutation of itself, and nothing outside moves. */
  method SortHalves(a: array<int>, p: int, q: int, r: int)
    requires 0 <= p <= q < r < a.Length
    modifies a
    ensures Halves(old(a[..]), a[..], p, q, r)
    decreases r - p, 0
  {
    ghost var start := a[..];
    MergeSort(a, p, q);
    ghost var middle := a[..];
    MergeSort(a, q + 1, r);
    BothHalves(start, middle, a[..], p, q, r);
  }

  /** `halves` is `start` with `[p, q]` and `[q + 1, r]` each permuted into
      sorted order, and nothing else changed. */
  ghost predicate Halves(start: seq<int>, halves: seq<int>, p: int, q: int, r: int)
  {
    0 <= p <= q < r < |start| == |halves| &&
    (forall k :: 0 <= k < |start| && !(p <= k <= r) ==> halves[k] == start[k]) &&
    multiset(halves[p..q + 1]) == multiset(start[p..q + 1]) && Sorted(halves[p..q + 1]) &&
    multiset(halves[q + 1..r + 1]) == multiset(start[q + 1..r + 1]) && Sorted(halves[q + 1..r + 1])
  }

  /** The frames of the two recursive calls: the first changed only
      `[p, q]` and the second only `[q + 1, r]`, so the second half of
      `start` went into the second call and the first call's result
      survives it. */
  lemma BothHalves(start: seq<int>, middle: seq<int>, halves: seq<int>, p: int, q: int, r: int)
    requires 0 <= p <= q < r < |start| == |middle| == |halves|
    requires forall k :: 0 <= k < |start| && !(p <= k <= q) ==> middle[k] == start[k]
    requires multiset(middle[p..q + 1]) == multiset(start[p..q + 1]) && Sorted(middle[p..q + 1])
    requires forall k :: 0 <= k < |middle| && !(q + 1 <= k <= r) ==> halves[k] == middle[k]
    requires multiset(halves[q + 1..r + 1]) == multiset(middle[q + 1..r + 1]) && Sorted(halves[q + 1..r + 1])
    ensures Halves(start, halves, p, q, r)
  {
    assert halves[p..q + 1] == middle[p..q + 1];
    assert middle[q + 1..r + 1] == start[q + 1..r + 1];
  }

  /** The merge of the recursive case: merging two sorted halves in place
      leaves `[p, r]` sorted and a permutation of `start[p..r]`, and
      nothing outside `[p, r]` moved. */
  lemma MergeHalves(start: seq<int>, halves: seq<int>, after: seq<int>, p: int, q: int, r: int)
    requires Halves(start, halves, p, q, r) && |after| == |halves|
    requires after[p..r + 1] == Merged(halves[p..q + 1], halves[q + 1..r + 1])
    requires forall k :: 0 <= k < |after| && !(p <= k <= r) ==> after[k] == halves[k]
    ensures forall k :: 0 <= k < |after| && !(p <= k <= r) ==> after[k] == start[k]
    ensures multiset(after[p..r + 1]) == multiset(start[p..r + 1])
    ensures Sorted(after[p..r + 1])
  {
    assert start[p..r + 1] == start[p..q + 1] + start[q + 1..r + 1];
    MergedPerm(halves[p..q + 1], halves[q + 1..r + 1]);
    MergedFromSorted(halves[p..q + 1], halves[q + 1..r + 1], 0, 0);
  }
}
