/** CLRS chapter 8 radix sort over decimal digits: one stable counting-sort
    pass per digit, least significant first. */
module Radix {
  import opened SortSpec
  import opened Counting

  /** `10` to the power `i`. */
  function Pow10(i: nat): (r: nat)
    ensures r >= 1
  {
    if i == 0 then 1 else 10 * Pow10(i - 1)
  }

  /** Decimal digit `i` of `x`, counted from the least significant:
      `(x // 10 ** i) % 10`, where Python's floor division and modulo agree
      with Dafny's on a positive divisor. */
  function Digit(x: int, i: nat): (r: int)
    ensures 0 <= r < 10
  {
    (x / Pow10(i)) % 10
  }

  /** The number of decimal digits of `n`. */
  function DigitCount(n: nat): (r: nat)
    ensures r >= 1
  {
    if n < 10 then 1 else 1 + DigitCount(n / 10)
  }

  /** `len(str(x))`: the digits of `x`, plus one for the sign of a negative
      number. A non-negative `x` has exactly `r` digits: it lies below
      `10^r` and, unless it is a single digit, at or above `10^(r - 1)`; a
      negative `x` has the minus sign and `r - 1` digits. */
  function DecimalLength(x: int): (r: nat)
    ensures r >= 1
    ensures x >= 0 ==> x < Pow10(r) && (r == 1 || Pow10(r - 1) <= x)
    ensures x < 0 ==> r >= 2 && -x < Pow10(r - 1) && (r == 2 || Pow10(r - 2) <= -x)
  {
    if x < 0 then DigitCountBound(-x); 1 + DigitCount(-x)
    else DigitCountBound(x); DigitCount(x)
  }

  /** `DigitCount(n)` digits are just enough for `n`. */
  lemma {:induction false} DigitCountBound(n: nat)
    ensures n < Pow10(DigitCount(n))
    ensures DigitCount(n) == 1 || Pow10(DigitCount(n) - 1) <= n
  {
    if n >= 10 {
      DigitCountBound(n / 10);
    }
  }

  /** `s` is ordered by the remainder of its elements modulo `m`: after `i`
      passes radix sort has ordered its input by the last `i` digits. */
  ghost predicate SortedMod(s: seq<int>, m: int)
    requires m > 0
  {
    forall p, q :: 0 <= p < q < |s| ==> s[p] % m <= s[q] % m
  }

  /** The remainder modulo `10 ** (i + 1)` splits into digit `i` and the
      remainder modulo `10 ** i`. */
  lemma ModStep(x: int, i: nat)
    ensures x % Pow10(i + 1) == Digit(x, i) * Pow10(i) + x % Pow10(i)
  {
    var p := Pow10(i);
    var q, r := x / p, x % p;
    assert x == q * p + r;
    var d, e := q / 10, q % 10;
    assert q == d * 10 + e;
    assert q * p == d * (10 * p) + e * p by {
      assert (d * 10 + e) * p == d * 10 * p + e * p;
    }
    assert Pow10(i + 1) == 10 * p;
    assert 0 <= e * p + r < 10 * p by {
      MulLe(e, 9, p);
    }
    DivModUnique(x, 10 * p, d, e * p + r);
  }

  /** Multiplying by a non-negative factor keeps an order. */
  lemma {:induction false} MulLe(a: int, b: int, m: nat)
    requires a <= b
    ensures a * m <= b * m
  {
    if m > 0 {
      MulLe(a, b, m - 1);
      assert a * m == a * (m - 1) + a && b * m == b * (m - 1) + b;
    }
  }

  /** The remainder of a division is the one value in range. */
  lemma DivModUnique(x: int, m: int, d: int, r: int)
    requires m > 0 && x == d * m + r && 0 <= r < m
    ensures x % m == r
  {
    var d' := x / m;
    if d' < d {
      MulLe(d' + 1, d, m);
    } else if d' > d {
      MulLe(d + 1, d', m);
    }
  }

  /** Two elements compare modulo `10 ** (i + 1)` by digit `i` first, then
      modulo `10 ** i`. */
  lemma DigitOrder(x: int, y: int, i: nat)
    requires Digit(x, i) < Digit(y, i) ||
      (Digit(x, i) == Digit(y, i) && x % Pow10(i) <= y % Pow10(i))
    ensures x % Pow10(i + 1) <= y % Pow10(i + 1)
  {
    ModStep(x, i);
    ModStep(y, i);
    var p := Pow10(i);
    if Digit(x, i) < Digit(y, i) {
      MulLe(Digit(x, i) + 1, Digit(y, i), p);
      assert (Digit(x, i) + 1) * p == Digit(x, i) * p + p;
    }
  }

  /** Ordered by digit `i` and, on equal digits, by the remainder modulo
      `10 ** i`, is ordered by the remainder modulo `10 ** (i + 1)`. */
  lemma NextDigitSorted(s: seq<int>, key: int -> int, f: int -> int, i: nat)
    requires forall x :: key(x) == Digit(x, i)
    requires forall x :: f(x) == x % Pow10(i)
    requires SortedByThen(s, key, f)
    ensures SortedMod(s, Pow10(i + 1))
  {
    forall p, q | 0 <= p < q < |s|
      ensures s[p] % Pow10(i + 1) <= s[q] % Pow10(i + 1)
    {
      var x, y := s[p], s[q];
      assert key(x) < key(y) || (key(x) == key(y) && f(x) <= f(y));
      DigitOrder(x, y, i);
    }
  }

  /** One pass: counting sort by digit `i` takes an input ordered modulo
      `10 ** i` to one ordered modulo `10 ** (i + 1)`. */
  lemma RadixPass(s: seq<int>, key: int -> int, i: nat, k: int)
    requires forall x :: key(x) == Digit(x, i)
    requires SortedMod(s, Pow10(i))
    ensures SortedMod(Buckets(s, key, 0, k), Pow10(i + 1))
  {
    var f := x => x % Pow10(i);
    assert SortedBy(s, f);
    BucketsSortedByThen(s, key, f, 0, k);
    NextDigitSorted(Buckets(s, key, 0, k), key, f, i);
  }

  /** Elements in `[0, m)` ordered modulo `m` are ordered. */
  lemma SortedModSorted(s: seq<int>, m: int)
    requires m > 0 && SortedMod(s, m)
    requires forall x :: x in s ==> 0 <= x < m
    ensures Sorted(s)
  {
    forall p, q | 0 <= p < q < |s|
      ensures s[p] <= s[q]
    {
      var x, y := s[p], s[q];
      assert x in s && y in s;
      DivModUnique(x, m, 0, x);
      DivModUnique(y, m, 0, y);
    }
  }

  /** The number of passes `radix_sort` makes: `d` when given (none when it
      is negative), otherwise the length of the largest element written in
      decimal. */
  function Passes(s: seq<int>, d: Option<int>): (r: nat)
    requires d.Some? || s != []
    ensures d.Some? ==> r == (if d.value < 0 then 0 else d.value)
  {
    if d.Some? then (if d.value < 0 then 0 else d.value)
    else DecimalLength(Max(s))
  }

  /** Without `d`, enough passes are made for every non-negative element. */
  lemma PassesCover(s: seq<int>)
    requires s != [] && forall x :: x in s ==> 0 <= x
    ensures forall x :: x in s ==> 0 <= x < Pow10(Passes(s, None))
  {
    var m := Max(s);
    DigitCountBound(m);
  }

  /** `radix_sort(collection, d)`: copy `collection` into `B`, then for each
      digit position `i` below `d` (by default the length of the largest
      element in decimal) counting-sort the current order by digit `i` into
      `B` and continue from a copy of `B`. An empty collection raises, as
      `max` of it does, unless no pass is made. The result is a permutation
      of the input ordered by the last `Passes` digits, so sorted when those
      digits cover every element. */
  method RadixSort(collection: seq<int>, d: Option<int>) returns (r: Result<seq<int>>)
    ensures r.Failure? <==> collection == [] && (d.None? || d.value > 0)
    ensures r.Failure? ==> r.error == EmptyMax
    ensures r.Success? ==> multiset(r.value) == multiset(collection)
    ensures r.Success? ==> SortedMod(r.value, Pow10(Passes(collection, d)))
    ensures r.Success? && d.None? && (forall x :: x in collection ==> 0 <= x) ==> Sorted(r.value)
    ensures r.Success? && d.Some? && (forall x :: x in collection ==> 0 <= x < Pow10(Passes(collection, d))) ==>
      Sorted(r.value)
  {
    var passes: int;
    if d.None? {
      if collection == [] {
        return Failure(EmptyMax);
      }
      passes := DecimalLength(Max(collection));
    } else {
      passes := d.value;
    }
    var passed := DigitPasses(collection, passes);
    if passed.Failure? {
      return passed;
    }
    var cur := passed.value;
    assert forall x :: x in cur ==> x in collection by {
      forall x | x in cur
        ensures x in collection
      {
        assert x in multiset(cur);
      }
    }
    if d.None? && (forall x :: x in collection ==> 0 <= x) {
      PassesCover(collection);
      SortedModSorted(cur, Pow10(Passes(collection, d)));
    } else if d.Some? && (forall x :: x in collection ==> 0 <= x < Pow10(Passes(collection, d))) {
      SortedModSorted(cur, Pow10(Passes(collection, d)));
    }
    return Success(cur);
  }

  /** The `for i in range(0, d)` loop of `radix_sort`: each pass
      counting-sorts the current order by digit `i` into `B` and continues
      from a copy of `B`. The first pass on an empty list raises, as `max`
      of it does; otherwise the result is a permutation ordered by its last
      `passes` digits. */
  method DigitPasses(collection: seq<int>, passes: int) returns (r: Result<seq<int>>)
    ensures r.Failure? <==> collection == [] && passes > 0
    ensures r.Failure? ==> r.error == EmptyMax
    ensures r.Success? ==> multiset(r.value) == multiset(collection)
    ensures r.Success? ==> SortedMod(r.value, Pow10(if passes < 0 then 0 else passes))
  {
    var B := new int[|collection|](p requires 0 <= p < |collection| => collection[p]);
    var cur := collection;
    var i := 0;
    while i < passes
      invariant 0 <= i <= (if passes < 0 then 0 else passes)
      invariant i > 0 ==> collection != []
      invariant |cur| == |collection| == B.Length
      invariant multiset(cur) == multiset(collection)
      invariant SortedMod(cur, Pow10(i))
    {
      var res := DigitPass(cur, B, i);
      if res.Failure? {
        return Failure(res.error);
      }
      cur := B[..];
      i := i + 1;
    }
    return Success(cur);
  }

  /** One pass of `radix_sort`: `counting_sort` of `cur` into `B` keyed by
      digit `i`. It raises on an empty list; otherwise `B` ends a
      permutation of `cur`, and an order by the last `i` digits becomes one
      by the last `i + 1`. */
  method DigitPass(cur: seq<int>, B: array<int>, i: nat) returns (res: Result<()>)
    requires |cur| == B.Length
    modifies B
    ensures res.Failure? <==> cur == []
    ensures res.Failure? ==> res.error == EmptyMax
    ensures res.Success? ==> multiset(B[..]) == multiset(cur)
    ensures res.Success? && SortedMod(cur, Pow10(i)) ==> SortedMod(B[..], Pow10(i + 1))
  {
    var digit := x => Digit(x, i);
    res := CountingSort(cur, B, None, digit);
    if res.Success? {
      BoundCovers(cur, digit, None);
      BucketsPerm(cur, digit, Bound(cur, digit, None));
      if SortedMod(cur, Pow10(i)) {
        RadixPass(cur, digit, i, Bound(cur, digit, None));
      }
    }
  }
}
