/** Counting sort and radix sort (CLRS chapter 8). Counting sort places
    every element of `collection` into `B` by the number of elements with a
    smaller key and the number of equal keys seen so far; radix sort runs it
    once per decimal digit, least significant first. */
module Counting {
  import opened SortSpec

  datatype Option<T> = None | Some(value: T)

  /** The exceptions `counting_sort` and `radix_sort` raise. */
  datatype CountError =
    | SizeMismatch  // `collection` and `B` differ in length
    | EmptyMax      // `max` of an empty list, Python's ValueError

  datatype Result<T> = Success(value: T) | Failure(error: CountError)

  /** The largest element of a non-empty sequence. */
  function Max(s: seq<int>): (m: int)
    requires |s| > 0
    ensures m in s && forall x :: x in s ==> x <= m
  {
    if |s| == 1 then s[0]
    else
      var m := Max(s[..|s| - 1]);
      assert forall x :: x in s ==> x in s[..|s| - 1] || x == s[|s| - 1];
      if s[|s| - 1] > m then s[|s| - 1] else m
  }

  /** The keys of the elements of `s`, in order: the list comprehension
      over `modifier`. */
  function Keys(s: seq<int>, key: int -> int): (r: seq<int>)
    ensures |r| == |s| && forall i :: 0 <= i < |s| ==> r[i] == key(s[i])
  {
    seq(|s|, i requires 0 <= i < |s| => key(s[i]))
  }

  /** The elements of `s` whose key is `v`, in their order in `s`. */
  function Filter(s: seq<int>, key: int -> int, v: int): (r: seq<int>)
    ensures |r| <= |s|
  {
    if s == [] then []
    else
      var x := s[|s| - 1];
      Filter(s[..|s| - 1], key, v) + (if key(x) == v then [x] else [])
  }

  /** The number of elements of `s` whose key is below `v`. */
  function CountBelow(s: seq<int>, key: int -> int, v: int): (n: nat)
    ensures n <= |s|
  {
    if s == [] then 0
    else CountBelow(s[..|s| - 1], key, v) + (if key(s[|s| - 1]) < v then 1 else 0)
  }

  /** What counting sort produces for keys in `[v, k)`: the elements with
      key `v` in their input order, then those with key `v + 1`, and so on. */
  function Buckets(s: seq<int>, key: int -> int, v: int, k: int): (r: seq<int>)
    decreases k - v
  {
    if v >= k then [] else Filter(s, key, v) + Buckets(s, key, v + 1, k)
  }

  /** Every key of `s` lies in `[0, k)`. */
  ghost predicate KeysIn(s: seq<int>, key: int -> int, k: int)
  {
    forall x :: x in s ==> 0 <= key(x) < k
  }

  /** `s` is ordered by `f`. */
  ghost predicate SortedBy(s: seq<int>, f: int -> int)
  {
    forall p, q :: 0 <= p < q < |s| ==> f(s[p]) <= f(s[q])
  }

  /** `s` is ordered by `key`, and by `f` among equal keys. */
  ghost predicate SortedByThen(s: seq<int>, key: int -> int, f: int -> int)
  {
    forall p, q :: 0 <= p < q < |s| ==>
      key(s[p]) < key(s[q]) || (key(s[p]) == key(s[q]) && f(s[p]) <= f(s[q]))
  }

  /** The filter keeps elements of `s`, all of key `v`. */
  lemma {:induction false} FilterIn(s: seq<int>, key: int -> int, v: int)
    ensures forall x :: x in Filter(s, key, v) ==> x in s && key(x) == v
  {
    if s != [] {
      var s' := s[..|s| - 1];
      FilterIn(s', key, v);
      assert forall x :: x in s' ==> x in s;
    }
  }

  /** The buckets for `[v, k)` hold elements of `s` with keys in `[v, k)`. */
  lemma {:induction false} BucketsIn(s: seq<int>, key: int -> int, v: int, k: int)
    ensures forall x :: x in Buckets(s, key, v, k) ==> x in s && v <= key(x) < k
    decreases k - v
  {
    if v < k {
      FilterIn(s, key, v);
      BucketsIn(s, key, v + 1, k);
    }
  }

  /** Filtering a concatenation filters each part. */
  lemma {:induction false} FilterConcat(a: seq<int>, b: seq<int>, key: int -> int, v: int)
    ensures Filter(a + b, key, v) == Filter(a, key, v) + Filter(b, key, v)
    decreases |b|
  {
    if b == [] {
      assert a + b == a;
    } else {
      var b' := b[..|b| - 1];
      assert (a + b)[..|a + b| - 1] == a + b';
      FilterConcat(a, b', key, v);
    }
  }

  /** Filtering the elements of key `u` again by key `v` keeps them all when
      `u == v` and none otherwise. */
  lemma {:induction false} FilterTwice(s: seq<int>, key: int -> int, u: int, v: int)
    ensures Filter(Filter(s, key, u), key, v) == if u == v then Filter(s, key, u) else []
  {
    if s != [] {
      var x := s[|s| - 1];
      var s' := s[..|s| - 1];
      FilterTwice(s', key, u, v);
      var tail := if key(x) == u then [x] else [];
      FilterConcat(Filter(s', key, u), tail, key, v);
      if key(x) == u {
        assert Filter(tail, key, v) == (if u == v then [x] else []) by {
          assert tail[..0] == [];
        }
      }
    }
  }

  /** Counting the keys below `v + 1` adds the elements of key `v`. */
  lemma {:induction false} CountBelowStep(s: seq<int>, key: int -> int, v: int)
    ensures CountBelow(s, key, v + 1) == CountBelow(s, key, v) + |Filter(s, key, v)|
  {
    if s != [] {
      CountBelowStep(s[..|s| - 1], key, v);
    }
  }

  /** `CountBelow` grows with its bound. */
  lemma {:induction false} CountBelowMono(s: seq<int>, key: int -> int, v: int, w: int)
    requires v <= w
    ensures CountBelow(s, key, v) <= CountBelow(s, key, w)
  {
    if s != [] {
      CountBelowMono(s[..|s| - 1], key, v, w);
    }
  }

  /** With every key in `[0, k)`, no key is below 0 and all are below `k`. */
  lemma {:induction false} CountBelowEnds(s: seq<int>, key: int -> int, k: int)
    requires KeysIn(s, key, k)
    ensures CountBelow(s, key, 0) == 0 && CountBelow(s, key, k) == |s|
  {
    if s != [] {
      var s' := s[..|s| - 1];
      assert forall x :: x in s' ==> x in s;
      var x := s[|s| - 1];
      assert x in s;
      CountBelowEnds(s', key, k);
      assert CountBelow(s, key, 0) == CountBelow(s', key, 0) + (if key(x) < 0 then 1 else 0);
      assert CountBelow(s, key, k) == CountBelow(s', key, k) + (if key(x) < k then 1 else 0);
    }
  }

  /** The length of a run of buckets: the number of keys in `[v, k)`. */
  lemma {:induction false} BucketsLength(s: seq<int>, key: int -> int, v: int, k: int)
    requires v <= k
    ensures |Buckets(s, key, v, k)| == CountBelow(s, key, k) - CountBelow(s, key, v)
    decreases k - v
  {
    if v < k {
      CountBelowStep(s, key, v);
      BucketsLength(s, key, v + 1, k);
    }
  }

  /** The `t`-th element of key `v` sits in `Buckets(s, key, lo, k)` after
      the elements whose keys lie in `[lo, v)`, at position `p`. */
  lemma {:induction false} BucketsAt(s: seq<int>, key: int -> int, lo: int, k: int, v: int, t: int, p: int)
    requires lo <= v < k && 0 <= t < |Filter(s, key, v)|
    requires p == CountBelow(s, key, v) - CountBelow(s, key, lo) + t
    ensures 0 <= p < |Buckets(s, key, lo, k)|
    ensures Buckets(s, key, lo, k)[p] == Filter(s, key, v)[t]
    decreases v - lo
  {
    CountBelowStep(s, key, lo);
    var f, rest := Filter(s, key, lo), Buckets(s, key, lo + 1, k);
    assert Buckets(s, key, lo, k) == f + rest;
    if v > lo {
      BucketsAt(s, key, lo + 1, k, v, t, p - |f|);
      assert (f + rest)[p] == rest[p - |f|];
    } else {
      assert (f + rest)[p] == f[p];
    }
  }

  /** Every position below the number of keys in `[lo, k)` belongs to the
      bucket of one key `v` in `[lo, k)`. */
  lemma {:induction false} Cover(s: seq<int>, key: int -> int, lo: int, k: int, p: int) returns (v: int)
    requires CountBelow(s, key, lo) <= p < CountBelow(s, key, k)
    ensures lo <= v < k
    ensures CountBelow(s, key, v) <= p < CountBelow(s, key, v) + |Filter(s, key, v)|
    decreases k - lo
  {
    if k <= lo {
      CountBelowMono(s, key, k, lo);
      assert false;
    }
    CountBelowStep(s, key, lo);
    if p < CountBelow(s, key, lo + 1) {
      v := lo;
    } else {
      v := Cover(s, key, lo + 1, k, p);
    }
  }

  /** The elements with key `v` keep their input order in the buckets: the
      arrangement is stable. */
  lemma {:induction false} BucketsStable(s: seq<int>, key: int -> int, lo: int, k: int, v: int)
    requires lo <= v < k
    ensures Filter(Buckets(s, key, lo, k), key, v) == Filter(s, key, v)
    decreases k - lo
  {
    var rest := Buckets(s, key, lo + 1, k);
    FilterConcat(Filter(s, key, lo), rest, key, v);
    FilterTwice(s, key, lo, v);
    if v == lo {
      BucketsIn(s, key, lo + 1, k);
      NoneFiltered(rest, key, v);
    } else {
      BucketsStable(s, key, lo + 1, k, v);
    }
  }

  /** Filtering by a key no element has leaves nothing. */
  lemma {:induction false} NoneFiltered(s: seq<int>, key: int -> int, v: int)
    requires forall x :: x in s ==> key(x) != v
    ensures Filter(s, key, v) == []
  {
    if s != [] {
      var s' := s[..|s| - 1];
      assert forall x :: x in s' ==> x in s;
      NoneFiltered(s', key, v);
    }
  }

  /** Adding one element to the input adds it to the buckets when its key
      is in range. */
  lemma {:induction false} BucketsSnoc(s: seq<int>, x: int, key: int -> int, lo: int, k: int)
    ensures multiset(Buckets(s + [x], key, lo, k)) ==
      multiset(Buckets(s, key, lo, k)) + (if lo <= key(x) < k then multiset{x} else multiset{})
    decreases k - lo
  {
    if lo < k {
      var s' := s + [x];
      assert s'[..|s'| - 1] == s && s'[|s'| - 1] == x;
      var f := Filter(s, key, lo);
      assert Filter(s', key, lo) == f + (if key(x) == lo then [x] else []);
      BucketsSnoc(s, x, key, lo + 1, k);
      var b, b' := Buckets(s, key, lo + 1, k), Buckets(s', key, lo + 1, k);
      assert Buckets(s, key, lo, k) == f + b;
      assert Buckets(s', key, lo, k) == Filter(s', key, lo) + b';
      assert multiset(Buckets(s', key, lo, k)) == multiset(Filter(s', key, lo)) + multiset(b');
    }
  }

  /** With every key in `[0, k)`, the buckets are a permutation of the
      input. */
  lemma {:induction false} BucketsPerm(s: seq<int>, key: int -> int, k: int)
    requires KeysIn(s, key, k)
    ensures multiset(Buckets(s, key, 0, k)) == multiset(s)
  {
    if s != [] {
      var s', x := s[..|s| - 1], s[|s| - 1];
      assert s == s' + [x];
      assert forall y :: y in s' ==> y in s;
      assert x in s;
      BucketsPerm(s', key, k);
      BucketsSnoc(s', x, key, 0, k);
    } else if 0 <= k {
      BucketsLength(s, key, 0, k);
    }
  }

  /** Filtering keeps an order by `f`. */
  lemma {:induction false} FilterSortedBy(s: seq<int>, key: int -> int, v: int, f: int -> int)
    requires SortedBy(s, f)
    ensures SortedBy(Filter(s, key, v), f)
  {
    if s != [] {
      var s', x := s[..|s| - 1], s[|s| - 1];
      FilterSortedBy(s', key, v, f);
      var r := Filter(s', key, v);
      FilterIn(s', key, v);
      forall y | y in r
        ensures f(y) <= f(x)
      {
        var p :| 0 <= p < |s'| && s'[p] == y;
        assert s[p] == y;
      }
    }
  }

  /** An input ordered by `f` comes out ordered by key and, among equal
      keys, still by `f`: the step that makes radix sort work. */
  lemma {:induction false} BucketsSortedByThen(s: seq<int>, key: int -> int, f: int -> int, lo: int, k: int)
    requires SortedBy(s, f)
    ensures SortedByThen(Buckets(s, key, lo, k), key, f)
    decreases k - lo
  {
    if lo < k {
      var first, rest := Filter(s, key, lo), Buckets(s, key, lo + 1, k);
      FilterSortedBy(s, key, lo, f);
      BucketsSortedByThen(s, key, f, lo + 1, k);
      FilterIn(s, key, lo);
      BucketsIn(s, key, lo + 1, k);
      var r := first + rest;
      forall p, q | 0 <= p < q < |r|
        ensures key(r[p]) < key(r[q]) || (key(r[p]) == key(r[q]) && f(r[p]) <= f(r[q]))
      {
        if q < |first| {
          assert r[p] == first[p] && r[q] == first[q];
          assert r[p] in first && r[q] in first;
          assert key(r[p]) == lo && key(r[q]) == lo;
          assert f(first[p]) <= f(first[q]);
        } else if p < |first| {
          assert r[p] == first[p] && r[q] == rest[q - |first|];
          assert r[p] in first && r[q] in rest;
          assert key(r[p]) == lo < key(r[q]);
        } else {
          var p', q' := p - |first|, q - |first|;
          assert r[p] == rest[p'] && r[q] == rest[q'];
          assert key(rest[p']) < key(rest[q']) || (key(rest[p']) == key(rest[q']) && f(rest[p']) <= f(rest[q']));
        }
      }
    }
  }

  /** The key bound `counting_sort` uses: `k` when given, otherwise one more
      than the largest key. */
  function Bound(s: seq<int>, key: int -> int, k: Option<int>): int
    requires k.Some? || s != []
  {
    if k.Some? then k.value else Max(Keys(s, key)) + 1
  }

  /** With non-negative keys, below `k` when it is given, every key lies in
      `[0, Bound(s, key, k))`. */
  lemma {:induction false} BoundCovers(s: seq<int>, key: int -> int, k: Option<int>)
    requires k.Some? || s != []
    requires forall x :: x in s ==> 0 <= key(x)
    requires k.Some? ==> KeysIn(s, key, k.value)
    ensures KeysIn(s, key, Bound(s, key, k))
  {
    if k.None? {
      var ks := Keys(s, key);
      forall x | x in s
        ensures key(x) < Bound(s, key, k)
      {
        var i :| 0 <= i < |s| && s[i] == x;
        assert ks[i] in ks;
      }
    }
  }

  /** Extending a prefix by one element extends each of its filters by that
      element or by nothing. */
  lemma {:induction false} FilterPrefixStep(s: seq<int>, key: int -> int, i: int, j: int)
    requires 0 <= i < |s| && j == i + 1
    ensures forall u ::
              Filter(s[..j], key, u) == Filter(s[..i], key, u) + (if key(s[i]) == u then [s[i]] else [])
  {
    assert s[..j][..i] == s[..i];
  }

  /** `s[i]` is the element of its key that comes after the
      `|Filter(s[..i], key, key(s[i]))|` earlier ones. */
  lemma {:induction false} FilterAt(s: seq<int>, key: int -> int, i: int)
    requires 0 <= i < |s|
    ensures |Filter(s[..i], key, key(s[i]))| < |Filter(s, key, key(s[i]))|
    ensures Filter(s, key, key(s[i]))[|Filter(s[..i], key, key(s[i]))|] == s[i]
  {
    assert s == s[..i + 1] + s[i + 1..];
    FilterConcat(s[..i + 1], s[i + 1..], key, key(s[i]));
    FilterPrefixStep(s, key, i, i + 1);
  }

  /** After the placing loop of `counting_sort` has visited `s[j..]`, every
      element of each key `v` from the `|Filter(s[..j], key, v)|`-th on sits
      at its final position in `b`. */
  ghost predicate PlacedFrom(s: seq<int>, key: int -> int, k: int, j: int, b: seq<int>)
  {
    0 <= j <= |s| && |b| == |s| &&
    forall v, t :: 0 <= v < k && |Filter(s[..j], key, v)| <= t < |Filter(s, key, v)| ==>
      HasAt(b, CountBelow(s, key, v) + t, Filter(s, key, v)[t])
  }

  /** `b` holds `x` at position `i`. */
  ghost predicate HasAt(b: seq<int>, i: int, x: int)
  {
    0 <= i < |b| && b[i] == x
  }

  /** Each element of key `u` sits before every element of a larger key. */
  lemma {:induction false} SlotBefore(s: seq<int>, key: int -> int, u: int, t: int, v: int)
    requires 0 <= t < |Filter(s, key, u)| && u < v
    ensures CountBelow(s, key, u) + t < CountBelow(s, key, v)
  {
    CountBelowStep(s, key, u);
    CountBelowMono(s, key, u + 1, v);
  }

  /** The final positions of two different elements differ. */
  lemma {:induction false} SlotsApart(s: seq<int>, key: int -> int, u: int, t: int, v: int, t2: int)
    requires 0 <= t < |Filter(s, key, u)| && 0 <= t2 < |Filter(s, key, v)|
    requires u != v || t != t2
    ensures CountBelow(s, key, u) + t != CountBelow(s, key, v) + t2
  {
    if u < v {
      SlotBefore(s, key, u, t, v);
    } else if u > v {
      SlotBefore(s, key, v, t2, u);
    }
  }

  /** The final position of every element lies inside the output. */
  lemma {:induction false} SlotInside(s: seq<int>, key: int -> int, k: int, v: int, t: int)
    requires KeysIn(s, key, k) && 0 <= t < |Filter(s, key, v)| && v < k
    ensures CountBelow(s, key, v) + t < |s|
  {
    SlotBefore(s, key, v, t, k);
    CountBelowEnds(s, key, k);
  }

  /** One round of the placing loop: `s[j - 1]` goes to the slot below the
      running count of its key, which is its final position. */
  lemma {:induction false} PlaceStep(s: seq<int>, key: int -> int, k: int, j: int, b: seq<int>)
    requires KeysIn(s, key, k) && 1 <= j && PlacedFrom(s, key, k, j, b)
    ensures var v := key(s[j - 1]);
      var c := CountBelow(s, key, v) + |Filter(s[..j - 1], key, v)|;
      c < |s| && PlacedFrom(s, key, k, j - 1, b[c := s[j - 1]])
  {
    var v := key(s[j - 1]);
    var c0 := |Filter(s[..j - 1], key, v)|;
    var c := CountBelow(s, key, v) + c0;
    FilterPrefixStep(s, key, j - 1, j);
    FilterAt(s, key, j - 1);
    assert s[j - 1] in s;
    SlotInside(s, key, k, v, c0);
    var b' := b[c := s[j - 1]];
    forall u, t | 0 <= u < k && |Filter(s[..j - 1], key, u)| <= t < |Filter(s, key, u)|
      ensures HasAt(b', CountBelow(s, key, u) + t, Filter(s, key, u)[t])
    {
      if u != v || t != c0 {
        SlotsApart(s, key, u, t, v, c0);
        assert |Filter(s[..j], key, u)| <= t;
      }
    }
  }

  /** When the placing loop has visited all of `s`, `b` holds the buckets. */
  lemma {:induction false} PlacedAll(s: seq<int>, key: int -> int, k: int, b: seq<int>)
    requires KeysIn(s, key, k) && PlacedFrom(s, key, k, 0, b)
    ensures b == Buckets(s, key, 0, k)
  {
    CountBelowEnds(s, key, k);
    if 0 <= k {
      BucketsLength(s, key, 0, k);
    }
    forall p | 0 <= p < |s|
      ensures b[p] == Buckets(s, key, 0, k)[p]
    {
      PlacedAt(s, key, k, b, p);
    }
  }

  /** Position `p` of a finished placement holds what the buckets hold
      there. */
  lemma {:induction false} PlacedAt(s: seq<int>, key: int -> int, k: int, b: seq<int>, p: int)
    requires KeysIn(s, key, k) && PlacedFrom(s, key, k, 0, b) && 0 <= p < |s|
    ensures p < |Buckets(s, key, 0, k)| && b[p] == Buckets(s, key, 0, k)[p]
  {
    CountBelowEnds(s, key, k);
    var v := Cover(s, key, 0, k, p);
    var t := p - CountBelow(s, key, v);
    assert HasAt(b, p, Filter(s, key, v)[t]) by {
      assert s[..0] == [];
      assert Filter(s[..0], key, v) == [];
    }
    BucketsAt(s, key, 0, k, v, t, p);
  }

  /** `c` holds the number of elements of `prefix` with each key. */
  ghost predicate CountsOf(prefix: seq<int>, key: int -> int, c: seq<int>)
  {
    forall v :: 0 <= v < |c| ==> c[v] == |Filter(prefix, key, v)|
  }

  /** One round of the counting loop. */
  lemma {:induction false} CountRound(s: seq<int>, key: int -> int, j: int, c: seq<int>)
    requires 0 <= j < |s| && 0 <= key(s[j]) < |c| && CountsOf(s[..j], key, c)
    ensures CountsOf(s[..j + 1], key, c[key(s[j]) := c[key(s[j])] + 1])
  {
    FilterPrefixStep(s, key, j, j + 1);
  }

  /** Part way through the running-total loop: the counters below `i` hold
      the number of keys up to and including their own, the rest still the
      number of keys equal to their own. */
  ghost predicate RunningTotals(s: seq<int>, key: int -> int, i: int, c: seq<int>)
  {
    (forall v :: 0 <= v < i && v < |c| ==> c[v] == CountBelow(s, key, v + 1)) &&
    (forall v :: 0 <= v < |c| && i <= v ==> c[v] == |Filter(s, key, v)|)
  }

  /** The counts are running totals up to the first counter. */
  lemma {:induction false} TotalsStart(s: seq<int>, key: int -> int, c: seq<int>)
    requires (forall x :: x in s ==> 0 <= key(x)) && CountsOf(s, key, c)
    ensures RunningTotals(s, key, 1, c)
  {
    if |c| > 0 {
      CountBelowStep(s, key, 0);
      CountBelowNone(s, key);
    }
  }

  /** No key of `s` is negative, so none is below 0. */
  lemma {:induction false} CountBelowNone(s: seq<int>, key: int -> int)
    requires forall x :: x in s ==> 0 <= key(x)
    ensures CountBelow(s, key, 0) == 0
  {
    if s != [] {
      var s' := s[..|s| - 1];
      assert forall x :: x in s' ==> x in s;
      var x := s[|s| - 1];
      assert x in s;
      CountBelowNone(s', key);
      assert CountBelow(s, key, 0) == CountBelow(s', key, 0) + (if key(x) < 0 then 1 else 0);
    }
  }

  /** One round of the running-total loop. */
  lemma {:induction false} TotalRound(s: seq<int>, key: int -> int, i: int, c: seq<int>)
    requires 1 <= i < |c| && RunningTotals(s, key, i, c)
    ensures RunningTotals(s, key, i + 1, c[i := c[i] + c[i - 1]])
  {
    CountBelowStep(s, key, i);
  }

  /** Part way through the placing loop, which has visited `s[j..]`: each
      counter holds the final position just after the last element of its
      key still to be placed. */
  ghost predicate Counters(s: seq<int>, key: int -> int, j: int, c: seq<int>)
    requires 0 <= j <= |s|
  {
    forall v :: 0 <= v < |c| ==> c[v] == CountBelow(s, key, v) + |Filter(s[..j], key, v)|
  }

  /** The running totals are the counters before the first placement. */
  lemma {:induction false} PlaceStart(s: seq<int>, key: int -> int, i: int, c: seq<int>)
    requires i >= |c| && RunningTotals(s, key, i, c)
    ensures Counters(s, key, |s|, c)
  {
    assert s[..|s|] == s;
    forall v | 0 <= v < |c|
      ensures c[v] == CountBelow(s, key, v) + |Filter(s, key, v)|
    {
      CountBelowStep(s, key, v);
    }
  }

  /** One round of the placing loop, counters included. */
  lemma {:induction false} PlaceRound(s: seq<int>, key: int -> int, k: int, j: int, b: seq<int>, c: seq<int>)
    requires KeysIn(s, key, k) && |c| == k && 1 <= j
    requires PlacedFrom(s, key, k, j, b) && Counters(s, key, j, c)
    ensures var v := key(s[j - 1]);
      0 <= v < |c| && 1 <= c[v] <= |s| &&
      PlacedFrom(s, key, k, j - 1, b[c[v] - 1 := s[j - 1]]) &&
      Counters(s, key, j - 1, c[v := c[v] - 1])
  {
    assert s[j - 1] in s;
    PlaceStep(s, key, k, j, b);
    FilterPrefixStep(s, key, j - 1, j);
  }

  /** An element's key lies in the range `KeysIn` gives. */
  lemma KeyAt(s: seq<int>, key: int -> int, k: int, j: int)
    requires KeysIn(s, key, k) && 0 <= j < |s|
    ensures 0 <= key(s[j]) < k
  {
    var x := s[j];
    assert x in s;
    assert 0 <= key(x) < k;
  }

  /** The counting loop: `C[v]` ends holding the number of elements of
      `collection` with key `v`. */
  method CountKeys(collection: seq<int>, key: int -> int, C: array<int>)
    requires KeysIn(collection, key, C.Length)
    requires forall v :: 0 <= v < C.Length ==> C[v] == 0
    modifies C
    ensures CountsOf(collection, key, C[..])
  {
    for j := 0 to |collection|
      invariant CountsOf(collection[..j], key, C[..])
    {
      KeyAt(collection, key, C.Length, j);
      var v := key(collection[j]);
      ghost var cs := C[..];
      CountRound(collection, key, j, cs);
      C[v] := C[v] + 1;
      assert C[..] == cs[v := cs[v] + 1];
    }
    assert collection[..|collection|] == collection;
  }

  /** The running-total loop: each counter ends holding the number of
      elements whose key is at most its own. */
  method Accumulate(collection: seq<int>, key: int -> int, C: array<int>)
    requires forall x :: x in collection ==> 0 <= key(x)
    requires CountsOf(collection, key, C[..])
    modifies C
    ensures Counters(collection, key, |collection|, C[..])
  {
    TotalsStart(collection, key, C[..]);
    var i := 1;
    while i < C.Length
      invariant 1 <= i && (i <= C.Length || C.Length < 1)
      invariant RunningTotals(collection, key, i, C[..])
    {
      ghost var cs := C[..];
      TotalRound(collection, key, i, cs);
      C[i] := C[i] + C[i - 1];
      assert C[..] == cs[i := cs[i] + cs[i - 1]];
      i := i + 1;
    }
    PlaceStart(collection, key, i, C[..]);
  }

  /** One step of the placing loop: `x` goes to the slot just below the
      running total of key `v`, and that total drops by one. */
  method Place(B: array<int>, C: array<int>, v: int, x: int)
    requires B != C && 0 <= v < C.Length && 1 <= C[v] <= B.Length
    modifies B, C
    ensures B[..] == old(B[..])[old(C[..])[v] - 1 := x]
    ensures C[..] == old(C[..])[v := old(C[..])[v] - 1]
  {
    B[C[v] - 1] := x;
    C[v] := C[v] - 1;
  }

  /** The placing loop: walking `collection` backwards, each element goes
      just below the running total of its key, so `B` ends holding the
      elements grouped by key in increasing order, stable within a key. */
  method PlaceAll(collection: seq<int>, key: int -> int, k: int, B: array<int>, C: array<int>)
    requires B != C && |collection| == B.Length
    requires KeysIn(collection, key, k) && (collection != [] ==> C.Length == k)
    requires Counters(collection, key, |collection|, C[..])
    modifies B, C
    ensures B[..] == Buckets(collection, key, 0, k)
  {
    var j := |collection|;
    assert collection[..j] == collection;
    while j > 0
      modifies B, C
      invariant 0 <= j <= |collection|
      invariant Counters(collection, key, j, C[..])
      invariant PlacedFrom(collection, key, k, j, B[..])
    {
      PlaceNext(collection, key, k, j, B, C);
      j := j - 1;
    }
    PlacedAll(collection, key, k, B[..]);
  }

  /** One round of the placing loop: `collection[j - 1]` goes below the
      running total of its key, which drops by one. */
  method PlaceNext(collection: seq<int>, key: int -> int, k: int, j: int, B: array<int>, C: array<int>)
    requires B != C && |collection| == B.Length && 1 <= j <= |collection|
    requires KeysIn(collection, key, k) && C.Length == k
    requires Counters(collection, key, j, C[..]) && PlacedFrom(collection, key, k, j, B[..])
    modifies B, C
    ensures Counters(collection, key, j - 1, C[..]) && PlacedFrom(collection, key, k, j - 1, B[..])
  {
    var v := key(collection[j - 1]);
    ghost var bs, cs := B[..], C[..];
    PlaceRound(collection, key, k, j, bs, cs);
    Place(B, C, v, collection[j - 1]);
    assert B[..] == bs[cs[v] - 1 := collection[j - 1]];
    assert C[..] == cs[v := cs[v] - 1];
  }

  /** `counting_sort(collection, B, k, modifier)`, with `modifier` as `key`:
      raise when `collection` and `B` differ in length; take `k` as one more
      than the largest key when it is not given (raising on an empty
      collection); count each key, turn the counts into running totals, then
      walk `collection` backwards placing each element below the running
      total of its key. `B` ends holding the elements ordered by key, equal
      keys in their input order. */
  method CountingSort(collection: seq<int>, B: array<int>, k: Option<int>, key: int -> int) returns (r: Result<()>)
    requires forall x :: x in collection ==> 0 <= key(x)
    requires k.Some? ==> KeysIn(collection, key, k.value)
    modifies B
    ensures |collection| != B.Length ==> r == Failure(SizeMismatch) && B[..] == old(B[..])
    ensures |collection| == B.Length && k.None? && collection == [] ==>
      r == Failure(EmptyMax) && B[..] == old(B[..])
    ensures |collection| == B.Length && (k.Some? || collection != []) ==>
      r == Success(()) && B[..] == Buckets(collection, key, 0, Bound(collection, key, k))
  {
    if |collection| != B.Length {
      return Failure(SizeMismatch);
    }
    var bound: int;
    if k.None? {
      if |collection| == 0 {
        return Failure(EmptyMax);
      }
      bound := Max(Keys(collection, key)) + 1;
    } else {
      bound := k.value;
    }
    assert bound == Bound(collection, key, k);
    BoundCovers(collection, key, k);
    var C := new int[if bound < 0 then 0 else bound](_ => 0);
    assert KeysIn(collection, key, C.Length) && (collection != [] ==> C.Length == bound) by {
      if collection != [] {
        KeyAt(collection, key, C.Length, 0);
      }
    }
    CountKeys(collection, key, C);
    Accumulate(collection, key, C);
    PlaceAll(collection, key, bound, B, C);
    return Success(());
  }
}
