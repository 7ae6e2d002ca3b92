/** Shared vocabulary of the in-place array algorithms: sortedness of a
    sequence, and facts about permutations that the sorting and selection
    proofs use. */
module SortSpec {

  /** `s` is in non-decreasing order. */
  ghost predicate Sorted(s: seq<int>)
  {
    forall x, y :: 0 <= x < y < |s| ==> s[x] <= s[y]
  }

  /** Every element of `s` is at most `bound`. */
  ghost predicate AllAtMost(s: seq<int>, bound: int)
  {
    forall k :: 0 <= k < |s| ==> s[k] <= bound
  }

  /** Every element of `s` is greater than `bound`. */
  ghost predicate AllAbove(s: seq<int>, bound: int)
  {
    forall k :: 0 <= k < |s| ==> s[k] > bound
  }

  /** Every element of `lo` is at most every element of `hi`. */
  ghost predicate AllLeq(lo: seq<int>, hi: seq<int>)
  {
    forall x, y :: 0 <= x < |lo| && 0 <= y < |hi| ==> lo[x] <= hi[y]
  }

  /** An element of a permutation of `s` is an element of `s`. */
  lemma PermMember(s: seq<int>, t: seq<int>, k: int)
    requires multiset(s) == multiset(t)
    requires 0 <= k < |t|
    ensures exists m :: 0 <= m < |s| && s[m] == t[k]
  {
    assert t[k] in multiset(t);
    assert t[k] in s;
  }

  /** Permuting a sequence keeps an upper bound on its elements. */
  lemma PermAtMost(s: seq<int>, t: seq<int>, bound: int)
    requires multiset(s) == multiset(t)
    requires AllAtMost(s, bound)
    ensures AllAtMost(t, bound)
  {
    forall k | 0 <= k < |t|
      ensures t[k] <= bound
    {
      PermMember(s, t, k);
    }
  }

  /** Permuting a sequence keeps a strict lower bound on its elements. */
  lemma PermAbove(s: seq<int>, t: seq<int>, bound: int)
    requires multiset(s) == multiset(t)
    requires AllAbove(s, bound)
    ensures AllAbove(t, bound)
  {
    forall k | 0 <= k < |t|
      ensures t[k] > bound
    {
      PermMember(s, t, k);
    }
  }

  /** Permuting either side keeps "everything on the left is at most
      everything on the right". */
  lemma PermLeq(lo: seq<int>, lo': seq<int>, hi: seq<int>, hi': seq<int>)
    requires multiset(lo) == multiset(lo') && multiset(hi) == multiset(hi')
    requires AllLeq(lo, hi)
    ensures AllLeq(lo', hi')
  {
    forall x, y | 0 <= x < |lo'| && 0 <= y < |hi'|
      ensures lo'[x] <= hi'[y]
    {
      PermMember(lo, lo', x);
      PermMember(hi, hi', y);
    }
  }

  /** A sorted left part, a pivot and a sorted right part, with the left part
      at most the pivot and the right part above it, form a sorted sequence. */
  lemma SortedAroundPivot(lo: seq<int>, pivot: int, hi: seq<int>)
    requires Sorted(lo) && Sorted(hi)
    requires AllAtMost(lo, pivot) && AllAbove(hi, pivot)
    ensures Sorted(lo + [pivot] + hi)
  {
    var s := lo + [pivot] + hi;
    forall x, y | 0 <= x < y < |s|
      ensures s[x] <= s[y]
    {
      if y < |lo| {
      } else if y == |lo| {
      } else if x > |lo| {
        assert s[x] == hi[x - |lo| - 1] && s[y] == hi[y - |lo| - 1];
      } else if x == |lo| {
        assert s[y] == hi[y - |lo| - 1];
      } else {
        assert s[y] == hi[y - |lo| - 1];
      }
    }
  }

  /** Two sorted parts, the left one at most the right one, form a sorted
      sequence. */
  lemma SortedConcat(lo: seq<int>, hi: seq<int>)
    requires Sorted(lo) && Sorted(hi) && AllLeq(lo, hi)
    ensures Sorted(lo + hi)
  {
    var s := lo + hi;
    forall x, y | 0 <= x < y < |s|
      ensures s[x] <= s[y]
    {
      if y < |lo| {
      } else if x >= |lo| {
        assert s[x] == hi[x - |lo|] && s[y] == hi[y - |lo|];
      } else {
        assert s[y] == hi[y - |lo|];
      }
    }
  }

  /** The number of elements of `s` that satisfy `keep`. */
  function Count(s: seq<int>, keep: int -> bool): (n: nat)
    ensures n <= |s|
  {
    if s == [] then 0 else (if keep(s[0]) then 1 else 0) + Count(s[1..], keep)
  }

  /** Counting distributes over concatenation. */
  lemma {:induction false} CountConcat(s: seq<int>, t: seq<int>, keep: int -> bool)
    ensures Count(s + t, keep) == Count(s, keep) + Count(t, keep)
  {
    if s == [] {
      assert s + t == t;
    } else {
      assert (s + t)[1..] == s[1..] + t;
      CountConcat(s[1..], t, keep);
    }
  }

  /** Removing the element at `m` lowers the count by that element's share. */
  lemma {:induction false} CountRemove(t: seq<int>, m: int, keep: int -> bool)
    requires 0 <= m < |t|
    ensures Count(t, keep) == (if keep(t[m]) then 1 else 0) + Count(t[..m] + t[m + 1..], keep)
  {
    var tail := [t[m]] + t[m + 1..];
    assert t == t[..m] + tail;
    assert tail[1..] == t[m + 1..];
    assert Count(tail, keep) == (if keep(t[m]) then 1 else 0) + Count(t[m + 1..], keep);
    CountConcat(t[..m], tail, keep);
    CountConcat(t[..m], t[m + 1..], keep);
  }

  /** Removing the element at `m` removes one copy of it from the multiset. */
  lemma MultisetRemove(t: seq<int>, m: int)
    requires 0 <= m < |t|
    ensures multiset(t[..m] + t[m + 1..]) == multiset(t) - multiset{t[m]}
  {
    assert t == t[..m] + [t[m]] + t[m + 1..];
  }

  /** A count depends only on the multiset of elements. */
  lemma {:induction false} CountPerm(s: seq<int>, t: seq<int>, keep: int -> bool)
    requires multiset(s) == multiset(t)
    ensures Count(s, keep) == Count(t, keep)
    decreases |s|
  {
    if s == [] {
      assert |t| == |multiset(t)| == 0;
    } else {
      var m := RemoveMatching(s, t);
      var s', t' := s[1..], t[..m] + t[m + 1..];
      CountPerm(s', t', keep);
      CountRemove(t, m, keep);
      assert Count(s, keep) == (if keep(s[0]) then 1 else 0) + Count(s', keep);
    }
  }

  /** The first element of `s` occurs in its permutation `t` at some `m`;
      without them the rests are still permutations of each other. */
  lemma RemoveMatching(s: seq<int>, t: seq<int>) returns (m: int)
    requires s != [] && multiset(s) == multiset(t)
    ensures 0 <= m < |t| && t[m] == s[0]
    ensures multiset(s[1..]) == multiset(t[..m] + t[m + 1..])
  {
    assert s[0] in multiset(t);
    m :| 0 <= m < |t| && t[m] == s[0];
    MultisetRemove(t, m);
    assert s == [s[0]] + s[1..];
    assert multiset(s) == multiset{s[0]} + multiset(s[1..]);
  }

  /** When every element satisfies `keep`, the count is the length; when none
      does, it is zero. */
  lemma {:induction false} CountAllOrNone(s: seq<int>, keep: int -> bool)
    ensures (forall k :: 0 <= k < |s| ==> keep(s[k])) ==> Count(s, keep) == |s|
    ensures (forall k :: 0 <= k < |s| ==> !keep(s[k])) ==> Count(s, keep) == 0
  {
    if s != [] {
      CountAllOrNone(s[1..], keep);
      assert forall k :: 1 <= k < |s| ==> s[1..][k - 1] == s[k];
    }
  }

  /** Permuting the slice `[lo, hi)` of `s`, and nothing else, permutes every
      enclosing slice `[p, r)`. */
  lemma PermInside(s: seq<int>, t: seq<int>, p: int, lo: int, hi: int, r: int)
    requires 0 <= p <= lo <= hi <= r <= |s| == |t|
    requires forall k :: 0 <= k < |s| && !(lo <= k < hi) ==> t[k] == s[k]
    requires multiset(t[lo..hi]) == multiset(s[lo..hi])
    ensures multiset(t[p..r]) == multiset(s[p..r])
  {
    assert t[p..r] == t[p..lo] + t[lo..hi] + t[hi..r];
    assert s[p..r] == s[p..lo] + s[lo..hi] + s[hi..r];
    assert t[p..lo] == s[p..lo] && t[hi..r] == s[hi..r];
  }
}
