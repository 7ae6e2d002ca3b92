/** Values and index arithmetic of the one-based binary heap (CLRS chapter
    6). A heap node carries a key and a handle; the key is a finite value or
    the `None` placeholder, which the key-change loops treat as the lowest
    possible key of a max heap and the highest possible key of a min heap. */
module HeapOrder {

  /** Which dual the heap is: a parent is at least (`Max`) or at most
      (`Min`) each of its children. */
  datatype Kind = Max | Min

  /** A node value: `Sentinel` is the source's `None` placeholder. */
  datatype Key = Sentinel | Finite(v: int)

  /** A heap entry: its weight and the object associated with it. */
  datatype Node<H> = Node(key: Key, handle: H)

  /** The exceptions the heap raises. */
  datatype HeapError =
    | IndexError     // a position outside the list
    | EmptyHeap      // extraction from a heap without nodes
    | KeyRejected    // a key change in the wrong direction
    | InternalError  // `heap_size` ran more than one past the list

  datatype Result<T> = Success(value: T) | Failure(error: HeapError)

  /** `x` may sit above `y` in a heap of this kind: the sentinel is below
      every key, and two finite keys compare by `>=` (max) or `<=` (min). */
  predicate Above(kind: Kind, x: Key, y: Key)
  {
    y.Sentinel? || (x.Finite? && (if kind == Max then x.v >= y.v else x.v <= y.v))
  }

  /** `x` must move above `y`: the strict comparison the heap code makes
      (`>` for a max heap, `<` for a min heap, a sentinel losing to every
      finite key). */
  predicate Outranks(kind: Kind, x: Key, y: Key)
  {
    !Above(kind, y, x)
  }

  /** `Above` is a total preorder. */
  lemma AboveOrder(kind: Kind, x: Key, y: Key, z: Key)
    ensures Above(kind, x, x)
    ensures Above(kind, x, y) || Above(kind, y, x)
    ensures Above(kind, x, y) && Above(kind, y, z) ==> Above(kind, x, z)
    ensures Outranks(kind, x, y) ==> Above(kind, x, y) && x != y
  {
  }

  /** Python's list indexing: `k` names a slot of a list of length `len`
      when `-len <= k < len`, negative positions counting from the end. */
  function PyIndex(len: nat, k: int): (r: Option<nat>)
    ensures r.Some? <==> 0 <= k + len && k < len
    ensures r.Some? ==> r.value < len && r.value == k % len
  {
    if 0 <= k < len then Some(k) else if 0 <= k + len && k < 0 then Some(k + len) else None
  }

  datatype Option<T> = None | Some(value: T)

  /** `parent(i)`: the floor of `i / 2` (Dafny's `/` with a positive
      divisor is floor division). */
  function Parent(i: int): (p: int)
    ensures i >= 2 ==> 1 <= p < i
    ensures i == Left(p) || i == Right(p)
  {
    i / 2
  }

  /** `left(i)`. */
  function Left(i: int): int
  {
    2 * i
  }

  /** `right(i)`. */
  function Right(i: int): int
  {
    2 * i + 1
  }

  /** Both children of `i` have `i` as parent, so the three functions
      describe one tree. */
  lemma ParentOfChildren(i: int)
    ensures Parent(Left(i)) == i && Parent(Right(i)) == i
    ensures Left(i) < Right(i) && (i >= 1 ==> i < Left(i))
  {
  }

  /** The key at one-based position `j`. */
  function KeyAt<H>(s: seq<Node<H>>, j: int): Key
    requires 1 <= j <= |s|
  {
    s[j - 1].key
  }

  /** The edge from `j` to its parent respects the heap order. */
  ghost predicate EdgeOk<H>(kind: Kind, s: seq<Node<H>>, j: int)
  {
    2 <= j <= |s| ==> Above(kind, KeyAt(s, Parent(j)), KeyAt(s, j))
  }

  /** Positions `1..n` of `s` form a heap. */
  ghost predicate IsHeap<H>(kind: Kind, s: seq<Node<H>>, n: int)
  {
    0 <= n <= |s| && forall j :: 2 <= j <= n ==> EdgeOk(kind, s, j)
  }

  /** Position `j` lies in the subtree rooted at `i`. */
  ghost predicate InSubtree(j: int, i: int)
    decreases j
  {
    1 <= i <= j && (j == i || InSubtree(Parent(j), i))
  }

  /** Every position is in the subtree of the root. */
  lemma {:induction false} SubtreeOfRoot(j: int)
    requires j >= 1
    ensures InSubtree(j, 1)
    decreases j
  {
    if j > 1 {
      SubtreeOfRoot(Parent(j));
    }
  }

  /** A subtree of a subtree is a subtree. */
  lemma {:induction false} SubtreeTrans(j: int, m: int, i: int)
    requires InSubtree(j, m) && InSubtree(m, i)
    ensures InSubtree(j, i)
    decreases j
  {
    if j != m {
      SubtreeTrans(Parent(j), m, i);
    }
  }

  /** Below its root, a subtree is the union of its children's subtrees. */
  lemma {:induction false} SubtreeSplit(j: int, i: int)
    requires InSubtree(j, i) && j != i
    ensures InSubtree(j, Left(i)) || InSubtree(j, Right(i))
    decreases j
  {
    if Parent(j) != i {
      SubtreeSplit(Parent(j), i);
    }
  }

  /** The subtrees of the two children are disjoint. */
  lemma {:induction false} SubtreeDisjoint(j: int, i: int)
    requires i >= 1
    ensures !(InSubtree(j, Left(i)) && InSubtree(j, Right(i)))
    decreases j
  {
    if InSubtree(j, Left(i)) && InSubtree(j, Right(i)) && j != Left(i) && j != Right(i) {
      SubtreeDisjoint(Parent(j), i);
    }
  }

  /** In a heap the root is `Above` every node: the maximum of a max heap,
      the minimum of a min heap. */
  lemma {:induction false} RootAbove<H>(kind: Kind, s: seq<Node<H>>, n: int, j: int)
    requires IsHeap(kind, s, n) && 1 <= j <= n
    ensures Above(kind, KeyAt(s, 1), KeyAt(s, j))
    decreases j
  {
    AboveOrder(kind, KeyAt(s, 1), KeyAt(s, 1), KeyAt(s, 1));
    if j > 1 {
      RootAbove(kind, s, n, Parent(j));
      assert EdgeOk(kind, s, j);
      AboveOrder(kind, KeyAt(s, 1), KeyAt(s, Parent(j)), KeyAt(s, j));
    }
  }

  /** Positions `lo..|s|` hold keys in heap-sort order: each key is `Above`
      every earlier one (ascending for a max heap, descending for a min
      heap). */
  ghost predicate SortedFrom<H>(kind: Kind, s: seq<Node<H>>, lo: int)
  {
    forall x, y :: 1 <= lo <= x < y <= |s| ==> Above(kind, KeyAt(s, y), KeyAt(s, x))
  }

  /** Every edge among positions `1..n` whose parent lies in the subtree of
      `i` respects the order: that subtree is a heap. */
  ghost predicate SubtreeOk<H>(kind: Kind, s: seq<Node<H>>, n: int, i: int)
  {
    forall j :: 2 <= j <= n && InSubtree(Parent(j), i) ==> EdgeOk(kind, s, j)
  }

  /** The same, except for the edges from `i` to its children: both
      subtrees below `i` are heaps. */
  ghost predicate BelowOk<H>(kind: Kind, s: seq<Node<H>>, n: int, i: int)
  {
    forall j :: 2 <= j <= n && InSubtree(Parent(j), i) && Parent(j) != i ==> EdgeOk(kind, s, j)
  }

  /** The positions of a child's subtree belong to the parent's subtree;
      the parent itself and the child's sibling do not belong to the
      child's subtree. */
  lemma ChildSubtree(j: int, i: int, m: int)
    requires 1 <= i && (m == Left(i) || m == Right(i))
    ensures InSubtree(m, i)
    ensures InSubtree(j, m) ==> InSubtree(j, i) && j != i
  {
    ParentOfChildren(i);
    assert InSubtree(i, i);
    if InSubtree(j, m) {
      SubtreeTrans(j, m, i);
    }
  }

  /** One level of heapify: `s0` has the child `m` of `i` outranking `i`
      and `Above` its sibling; `s1` swaps `i` and `m`; `s2` heapified the
      subtree of `m` in `s1`, moving nothing outside it and leaving at `m`
      one of the three nodes that were at `m` and its children. Then the
      subtree of `i` is a heap whenever both subtrees below `i` were. */
  lemma HeapifyStep<H>(kind: Kind, s0: seq<Node<H>>, s1: seq<Node<H>>, s2: seq<Node<H>>, n: int, i: int, m: int)
    requires 1 <= i && n <= |s0| && (m == Left(i) || m == Right(i)) && m <= n
    requires s1 == Swapped(s0, i, m)
    requires Outranks(kind, KeyAt(s0, m), KeyAt(s0, i))
    requires Left(i) <= n ==> Above(kind, KeyAt(s0, m), KeyAt(s0, Left(i)))
    requires Right(i) <= n ==> Above(kind, KeyAt(s0, m), KeyAt(s0, Right(i)))
    requires |s2| == |s1|
    requires forall k :: 0 <= k < |s1| && !(k < n && InSubtree(k + 1, m)) ==> s2[k] == s1[k]
    requires s2[m - 1] == s1[m - 1] || (Left(m) <= n && s2[m - 1] == s1[Left(m) - 1]) ||
             (Right(m) <= n && s2[m - 1] == s1[Right(m) - 1])
    requires BelowOk(kind, s1, n, m) ==> SubtreeOk(kind, s2, n, m)
    ensures BelowOk(kind, s0, n, i) ==> SubtreeOk(kind, s2, n, i)
  {
    if BelowOk(kind, s0, n, i) {
      forall j | 2 <= j <= n && InSubtree(Parent(j), m) && Parent(j) != m
        ensures EdgeOk(kind, s1, j)
      {
        ChildSubtree(Parent(j), i, m);
        assert EdgeOk(kind, s0, j);
      }
      forall j | 2 <= j <= n && InSubtree(Parent(j), i)
        ensures EdgeOk(kind, s2, j)
      {
        HeapifyStepEdge(kind, s0, s1, s2, n, i, m, j);
      }
    }
  }

  /** One level of heapify moves only positions of the subtree of `i`, and
      leaves at `i` the node that was at the child `m`. */
  lemma HeapifyStepFrame<H>(s0: seq<Node<H>>, s1: seq<Node<H>>, s2: seq<Node<H>>, n: int, i: int, m: int)
    requires 1 <= i && n <= |s0| && (m == Left(i) || m == Right(i)) && m <= n
    requires s1 == Swapped(s0, i, m)
    requires |s2| == |s1|
    requires forall k :: 0 <= k < |s1| && !(k < n && InSubtree(k + 1, m)) ==> s2[k] == s1[k]
    ensures forall k :: 0 <= k < |s0| && !(k < n && InSubtree(k + 1, i)) ==> s2[k] == s0[k]
    ensures s2[i - 1] == s0[i - 1] || (Left(i) <= n && s2[i - 1] == s0[Left(i) - 1]) ||
            (Right(i) <= n && s2[i - 1] == s0[Right(i) - 1])
  {
    ChildSubtree(i, i, m);
    forall k | 0 <= k < |s0| && !(k < n && InSubtree(k + 1, i))
      ensures s2[k] == s0[k]
    {
      ChildSubtree(k + 1, i, m);
    }
    assert s2[i - 1] == s0[m - 1];
  }

  /** The edge at `j` after one level of heapify (see `HeapifyStep`). */
  lemma HeapifyStepEdge<H>(kind: Kind, s0: seq<Node<H>>, s1: seq<Node<H>>, s2: seq<Node<H>>, n: int, i: int, m: int, j: int)
    requires 1 <= i && n <= |s0| && (m == Left(i) || m == Right(i)) && m <= n
    requires s1 == s0[i - 1 := s0[m - 1]][m - 1 := s0[i - 1]]
    requires Outranks(kind, KeyAt(s0, m), KeyAt(s0, i))
    requires Left(i) <= n ==> Above(kind, KeyAt(s0, m), KeyAt(s0, Left(i)))
    requires Right(i) <= n ==> Above(kind, KeyAt(s0, m), KeyAt(s0, Right(i)))
    requires |s2| == |s1|
    requires forall k :: 0 <= k < |s1| && !(k < n && InSubtree(k + 1, m)) ==> s2[k] == s1[k]
    requires s2[m - 1] == s1[m - 1] || (Left(m) <= n && s2[m - 1] == s1[Left(m) - 1]) ||
             (Right(m) <= n && s2[m - 1] == s1[Right(m) - 1])
    requires BelowOk(kind, s0, n, i) && SubtreeOk(kind, s2, n, m)
    requires 2 <= j <= n && InSubtree(Parent(j), i)
    ensures EdgeOk(kind, s2, j)
  {
    var p := Parent(j);
    if p == i && j == m {
      ChildSubtree(i, i, m);
      assert s2[i - 1] == s0[m - 1];
      ChosenEdge(kind, s0, s2, n, i, m);
    } else if p == i {
      SiblingEdge(kind, s0, s1, s2, n, i, m, j);
    } else {
      SubtreeSplit(p, i);
      if !InSubtree(p, m) {
        OtherEdge(kind, s0, s1, s2, n, i, m, j);
      }
    }
  }

  /** The edge from `i` to the child it did not swap with: that child and
      its key stay put, and the node moved up to `i` is `Above` it. */
  lemma SiblingEdge<H>(kind: Kind, s0: seq<Node<H>>, s1: seq<Node<H>>, s2: seq<Node<H>>, n: int, i: int, m: int, j: int)
    requires 1 <= i && n <= |s0| && (m == Left(i) || m == Right(i)) && m <= n
    requires s1 == s0[i - 1 := s0[m - 1]][m - 1 := s0[i - 1]]
    requires Left(i) <= n ==> Above(kind, KeyAt(s0, m), KeyAt(s0, Left(i)))
    requires Right(i) <= n ==> Above(kind, KeyAt(s0, m), KeyAt(s0, Right(i)))
    requires |s2| == |s1|
    requires forall k :: 0 <= k < |s1| && !(k < n && InSubtree(k + 1, m)) ==> s2[k] == s1[k]
    requires 2 <= j <= n && Parent(j) == i && j != m
    ensures EdgeOk(kind, s2, j)
  {
    ParentOfChildren(i);
    ChildSubtree(i, i, m);
    SubtreeDisjoint(j, i);
    assert InSubtree(j, j);
    assert s2[j - 1] == s0[j - 1];
    assert s2[i - 1] == s0[m - 1];
  }

  /** An edge deeper in the subtree of the child `i` did not swap with:
      neither end moved. */
  lemma OtherEdge<H>(kind: Kind, s0: seq<Node<H>>, s1: seq<Node<H>>, s2: seq<Node<H>>, n: int, i: int, m: int, j: int)
    requires 1 <= i && n <= |s0| && (m == Left(i) || m == Right(i)) && m <= n
    requires s1 == s0[i - 1 := s0[m - 1]][m - 1 := s0[i - 1]]
    requires |s2| == |s1|
    requires forall k :: 0 <= k < |s1| && !(k < n && InSubtree(k + 1, m)) ==> s2[k] == s1[k]
    requires BelowOk(kind, s0, n, i)
    requires 2 <= j <= n && InSubtree(Parent(j), i) && Parent(j) != i && !InSubtree(Parent(j), m)
    ensures EdgeOk(kind, s2, j)
  {
    ChildSubtree(i, i, m);
    ChildSubtree(j, i, m);
    assert !InSubtree(j, m);
    assert EdgeOk(kind, s0, j);
    assert s2[j - 1] == s0[j - 1];
    assert s2[Parent(j) - 1] == s0[Parent(j) - 1];
  }

  /** The edge from `i` to the child `m` it swapped with: the node that
      moved up to `i` is `Above` the old node at `i` and both old children
      of `m`, so it is `Above` whichever of them heapify left at `m`. */
  lemma ChosenEdge<H>(kind: Kind, s0: seq<Node<H>>, s2: seq<Node<H>>, n: int, i: int, m: int)
    requires 1 <= i && n <= |s0| == |s2| && (m == Left(i) || m == Right(i)) && m <= n
    requires Outranks(kind, KeyAt(s0, m), KeyAt(s0, i))
    requires s2[i - 1] == s0[m - 1]
    requires s2[m - 1] == s0[i - 1] || (Left(m) <= n && s2[m - 1] == s0[Left(m) - 1]) ||
             (Right(m) <= n && s2[m - 1] == s0[Right(m) - 1])
    requires BelowOk(kind, s0, n, i)
    ensures EdgeOk(kind, s2, m)
  {
    ParentOfChildren(i);
    ParentOfChildren(m);
    AboveOrder(kind, KeyAt(s0, m), KeyAt(s0, i), KeyAt(s0, i));
    if Left(m) <= n {
      ChildSubtree(m, i, m);
      assert EdgeOk(kind, s0, Left(m));
    }
    if Right(m) <= n {
      ChildSubtree(m, i, m);
      assert EdgeOk(kind, s0, Right(m));
    }
  }

  /** `s` with one-based positions `x` and `y` exchanged: a permutation
      that moves nothing else. */
  function Swapped<H>(s: seq<Node<H>>, x: int, y: int): (r: seq<Node<H>>)
    requires 1 <= x <= |s| && 1 <= y <= |s|
    ensures |r| == |s| && r[x - 1] == s[y - 1] && r[y - 1] == s[x - 1]
    ensures forall k :: 0 <= k < |s| && k != x - 1 && k != y - 1 ==> r[k] == s[k]
    ensures multiset(r) == multiset(s)
  {
    s[x - 1 := s[y - 1]][y - 1 := s[x - 1]]
  }

  /** A swap inside the prefix `1..n` permutes that prefix and leaves the
      rest alone. */
  lemma SwappedPrefix<H>(s: seq<Node<H>>, x: int, y: int, n: int)
    requires 1 <= x <= n && 1 <= y <= n && n <= |s|
    ensures multiset(Swapped(s, x, y)[..n]) == multiset(s[..n])
    ensures Swapped(s, x, y)[n..] == s[n..]
  {
    assert Swapped(s, x, y)[..n] == Swapped(s[..n], x, y);
  }

  /** One step of building a heap bottom-up: edges whose parent lies after
      `i` were in order, and heapify at `i` made its subtree a heap while
      moving nothing outside it; now every edge whose parent is `i` or later
      is in order. */
  lemma BuildStep<H>(kind: Kind, s0: seq<Node<H>>, s1: seq<Node<H>>, n: int, i: int)
    requires 1 <= i && 0 <= n <= |s0| == |s1|
    requires forall j :: 2 <= j <= n && Parent(j) > i ==> EdgeOk(kind, s0, j)
    requires forall k :: 0 <= k < |s0| && !(k < n && InSubtree(k + 1, i)) ==> s1[k] == s0[k]
    requires SubtreeOk(kind, s1, n, i)
    ensures forall j :: 2 <= j <= n && Parent(j) >= i ==> EdgeOk(kind, s1, j)
  {
    forall j | 2 <= j <= n && Parent(j) >= i
      ensures EdgeOk(kind, s1, j)
    {
      if !InSubtree(Parent(j), i) {
        assert !InSubtree(j, i);
        assert EdgeOk(kind, s0, j);
      }
    }
  }

  /** The state heap sort keeps with `i` nodes left in the heap: positions
      `1..i` are a heap, the positions after `i` are in sorted order, and
      each of them is `Above` every heap node. */
  ghost predicate SortState<H>(kind: Kind, s: seq<Node<H>>, i: int)
  {
    IsHeap(kind, s, i) && SortedFrom(kind, s, i + 1) &&
    forall x, y :: 1 <= x <= i < y <= |s| ==> Above(kind, KeyAt(s, y), KeyAt(s, x))
  }

  /** A heap whose root subtree is in order is a heap. */
  lemma RootSubtreeHeap<H>(kind: Kind, s: seq<Node<H>>, n: int)
    requires 0 <= n <= |s| && SubtreeOk(kind, s, n, 1)
    ensures IsHeap(kind, s, n)
  {
    forall j | 2 <= j <= n
      ensures EdgeOk(kind, s, j)
    {
      SubtreeOfRoot(Parent(j));
    }
  }

  /** Moving the last heap node to the root and dropping the old root from
      the heap leaves both subtrees of the root heaps. */
  lemma RootReplacedBelowOk<H>(kind: Kind, s0: seq<Node<H>>, s1: seq<Node<H>>, i: int)
    requires 1 <= i <= |s0| == |s1| && IsHeap(kind, s0, i)
    requires forall k :: 1 <= k < i - 1 ==> s1[k] == s0[k]
    ensures BelowOk(kind, s1, i - 1, 1)
  {
    forall j | 2 <= j <= i - 1 && InSubtree(Parent(j), 1) && Parent(j) != 1
      ensures EdgeOk(kind, s1, j)
    {
      assert EdgeOk(kind, s0, j);
    }
  }

  /** A node of the first `i - 1` positions of `s2`, which permute those of
      `s0` swapped at `1` and `i`, is one of the first `i` nodes of `s0`. */
  lemma FromHeapPrefix<H>(s0: seq<Node<H>>, s2: seq<Node<H>>, i: int, x: int) returns (w: int)
    requires 2 <= i <= |s0| && i - 1 <= |s2|
    requires multiset(s2[..i - 1]) == multiset(Swapped(s0, 1, i)[..i - 1])
    requires 1 <= x <= i - 1
    ensures 1 <= w <= i && s2[x - 1] == s0[w - 1]
  {
    var s1 := Swapped(s0, 1, i);
    assert s2[x - 1] in multiset(s2[..i - 1]);
    assert s2[x - 1] in s1[..i - 1];
    var k :| 0 <= k < i - 1 && s1[k] == s2[x - 1];
    w := if k == 0 then i else k + 1;
  }

  /** One step of heap sort: the root, `Above` the whole heap, is swapped to
      position `i` and the shrunk heap is repaired; the sort state holds
      with `i - 1` nodes. */
  lemma SortStep<H>(kind: Kind, s0: seq<Node<H>>, s2: seq<Node<H>>, i: int)
    requires 2 <= i <= |s0| == |s2| && SortState(kind, s0, i)
    requires multiset(s2[..i - 1]) == multiset(Swapped(s0, 1, i)[..i - 1])
    requires s2[i - 1..] == Swapped(s0, 1, i)[i - 1..]
    requires IsHeap(kind, s2, i - 1)
    ensures SortState(kind, s2, i - 1)
  {
    assert s2[i - 1] == s0[0];
    forall y | i < y <= |s2|
      ensures KeyAt(s2, y) == KeyAt(s0, y)
    {
      assert s2[y - 1] == s2[i - 1..][y - i];
    }
    forall x, y | 1 <= x <= i - 1 < y <= |s2|
      ensures Above(kind, KeyAt(s2, y), KeyAt(s2, x))
    {
      var w := FromHeapPrefix(s0, s2, i, x);
      if y == i {
        RootAbove(kind, s0, i, w);
      } else {
        assert Above(kind, KeyAt(s0, y), KeyAt(s0, w));
      }
    }
    forall x, y | i <= x < y <= |s2|
      ensures Above(kind, KeyAt(s2, y), KeyAt(s2, x))
    {
      if x == i {
        assert Above(kind, KeyAt(s0, y), KeyAt(s0, 1));
      } else {
        assert Above(kind, KeyAt(s0, y), KeyAt(s0, x));
      }
    }
  }

  /** When at most one node is left in the heap, the whole list is in
      sorted order. */
  lemma SortDone<H>(kind: Kind, s: seq<Node<H>>, i: int)
    requires 0 <= i <= 1 && SortState(kind, s, i)
    ensures SortedFrom(kind, s, 1)
  {
  }

  /** Extraction's first move: the last heap node `h` overwrites the root
      and the heap shrinks by one; the shrunk prefix holds the old heap's
      nodes minus the old root. */
  lemma ExtractPerm<H>(s: seq<Node<H>>, t: seq<Node<H>>, h: int, n: int)
    requires 1 <= h <= |s| && n == h - 1 && t == s[0 := s[n]]
    ensures multiset(t[..n]) == multiset(s[..h]) - multiset{s[0]}
    ensures t[n..] == s[n..]
  {
    assert t[n..] == s[n..];
    if n > 0 {
      var mid := s[1..n];
      assert s[..h] == [s[0]] + (mid + [s[n]]);
      assert t[..n] == [s[n]] + mid;
      assert multiset(s[..h]) == multiset{s[0]} + multiset(mid + [s[n]]);
      assert multiset(t[..n]) == multiset(mid + [s[n]]);
    } else {
      assert s[..h] == [s[0]];
    }
  }

  /** `2` to the power `k`. */
  function Pow2(k: nat): (r: nat)
    ensures r >= 1
  {
    if k == 0 then 1 else 2 * Pow2(k - 1)
  }

  /** The value of `index` in `height(i)` after `k` rounds of its loop:
      `left` applied `k + 1` times to `i`. */
  function LeftChain(i: int, k: nat): (r: int)
    ensures i >= 1 ==> r == i * Pow2(k + 1)
  {
    if k == 0 then Left(i) else Left(LeftChain(i, k - 1))
  }

  /** From a position `i <= 0`, `index` never grows past `0`, so the loop
      guard `index <= len(self)` holds after every round and `height(i)`
      never returns. */
  lemma {:induction false} HeightNeverEnds(i: int, n: nat, k: nat)
    requires i <= 0
    ensures LeftChain(i, k) <= 0 <= n
  {
    if k > 0 {
      HeightNeverEnds(i, n, k - 1);
    }
  }

  /** `s` with the node at zero-based slot `k` given the finite key `key`,
      its handle kept: `self[i].value = key`. */
  function Rekeyed<H>(s: seq<Node<H>>, k: int, key: int): (r: seq<Node<H>>)
    requires 0 <= k < |s|
    ensures |r| == |s|
  {
    s[k := Node(Finite(key), s[k].handle)]
  }

  /** The state of the key-change loop at position `c`: every edge among
      `1..n` is in order except possibly the one from `c` up to its parent,
      and the parent of `c` is `Above` the children of `c`. */
  ghost predicate HeapExceptAt<H>(kind: Kind, s: seq<Node<H>>, n: int, c: int)
  {
    1 <= c <= n <= |s| &&
    (forall j :: 2 <= j <= n && j != c ==> EdgeOk(kind, s, j)) &&
    (2 <= c && Left(c) <= n ==> Above(kind, KeyAt(s, Parent(c)), KeyAt(s, Left(c)))) &&
    (2 <= c && Right(c) <= n ==> Above(kind, KeyAt(s, Parent(c)), KeyAt(s, Right(c))))
  }

  /** Raising a key (towards the root's end of the order) in a heap breaks
      at most the edge above it. */
  lemma SiftStart<H>(kind: Kind, s: seq<Node<H>>, n: int, c: int, key: int)
    requires IsHeap(kind, s, n) && 1 <= c <= n
    requires !Outranks(kind, KeyAt(s, c), Finite(key))
    ensures HeapExceptAt(kind, Rekeyed(s, c - 1, key), n, c)
  {
    var t := Rekeyed(s, c - 1, key);
    ParentOfChildren(c);
    AboveOrder(kind, Finite(key), KeyAt(s, c), KeyAt(s, c));
    forall j | 2 <= j <= n && j != c
      ensures EdgeOk(kind, t, j)
    {
      assert EdgeOk(kind, s, j);
      if Parent(j) == c {
        AboveOrder(kind, Finite(key), KeyAt(s, c), KeyAt(s, j));
      }
    }
    if 2 <= c {
      assert EdgeOk(kind, s, c);
      if Left(c) <= n {
        assert EdgeOk(kind, s, Left(c));
        AboveOrder(kind, KeyAt(s, Parent(c)), KeyAt(s, c), KeyAt(s, Left(c)));
      }
      if Right(c) <= n {
        assert EdgeOk(kind, s, Right(c));
        AboveOrder(kind, KeyAt(s, Parent(c)), KeyAt(s, c), KeyAt(s, Right(c)));
      }
    }
  }

  /** One step of the key-change loop: the node at `c` outranks its parent,
      so they swap and the broken edge moves one level up. */
  lemma SiftStep<H>(kind: Kind, s: seq<Node<H>>, n: int, c: int)
    requires HeapExceptAt(kind, s, n, c) && 2 <= c
    requires Outranks(kind, KeyAt(s, c), KeyAt(s, Parent(c)))
    ensures HeapExceptAt(kind, Swapped(s, c, Parent(c)), n, Parent(c))
  {
    var p := Parent(c);
    var t := Swapped(s, c, p);
    ParentOfChildren(c);
    ParentOfChildren(p);
    var sibling := if c == Left(p) then Right(p) else Left(p);
    AboveOrder(kind, KeyAt(s, c), KeyAt(s, p), KeyAt(s, p));
    forall j | 2 <= j <= n && j != p
      ensures EdgeOk(kind, t, j)
    {
      if j == c {
      } else if Parent(j) == c {
        assert EdgeOk(kind, s, j);
      } else if j == sibling {
        assert EdgeOk(kind, s, j);
        AboveOrder(kind, KeyAt(s, c), KeyAt(s, p), KeyAt(s, j));
      } else {
        assert EdgeOk(kind, s, j);
      }
    }
    if 2 <= p {
      assert EdgeOk(kind, s, p);
      if sibling <= n {
        assert EdgeOk(kind, s, sibling);
        AboveOrder(kind, KeyAt(s, Parent(p)), KeyAt(s, p), KeyAt(s, sibling));
      }
    }
  }

  /** The key-change loop stops at the root or below a parent that is
      `Above` the node: the heap is whole again. */
  lemma SiftDone<H>(kind: Kind, s: seq<Node<H>>, n: int, c: int)
    requires HeapExceptAt(kind, s, n, c)
    requires c == 1 || !Outranks(kind, KeyAt(s, c), KeyAt(s, Parent(c)))
    ensures IsHeap(kind, s, n)
  {
    if c >= 2 {
      AboveOrder(kind, KeyAt(s, c), KeyAt(s, Parent(c)), KeyAt(s, c));
    }
  }

  /** The checks key change makes before touching anything: position `i`
      must name a node (through Python's indexing, one-based), and that
      node's key must not outrank `key`. On success, the zero-based slot of
      the node. */
  function KeySlot<H>(kind: Kind, s: seq<Node<H>>, i: int, key: int): (r: Result<nat>)
    ensures r == Failure(IndexError) <==> !(-|s| < i <= |s|)
    ensures r.Failure? ==> r.error == IndexError || r.error == KeyRejected
    ensures r.Success? ==> r.value < |s| && !Outranks(kind, s[r.value].key, Finite(key))
    ensures 1 <= i <= |s| ==> (r.Success? <==> !Outranks(kind, KeyAt(s, i), Finite(key)))
    ensures 1 <= i <= |s| && r.Success? ==> r.value == i - 1
    ensures i < 1 && r.Success? ==> r.value == i - 1 + |s|
  {
    match PyIndex(|s|, i - 1)
    case None => Failure(IndexError)
    case Some(k) => if Outranks(kind, s[k].key, Finite(key)) then Failure(KeyRejected) else Success(k)
  }

  /** `t` differs from `s` at most at the positions on the path from `i` up
      to the root. */
  ghost predicate AncestorsOnly<H>(s: seq<Node<H>>, t: seq<Node<H>>, i: int)
  {
    |s| == |t| && forall k :: 0 <= k < |s| && !InSubtree(i, k + 1) ==> t[k] == s[k]
  }

  /** One climb of key change: swapping the node at `c` (an ancestor of
      `i`) with its parent keeps the list a permutation changed only on the
      path from `i`, and moves the one possibly broken edge up to the
      parent. */
  lemma SiftClimb<H>(kind: Kind, start: seq<Node<H>>, s: seq<Node<H>>, t: seq<Node<H>>, n: int, i: int, c: int, tracking: bool)
    requires 2 <= c <= i <= |s| && InSubtree(i, c)
    requires multiset(s) == multiset(start) && AncestorsOnly(start, s, i)
    requires tracking ==> HeapExceptAt(kind, s, n, c) && Outranks(kind, KeyAt(s, c), KeyAt(s, Parent(c)))
    requires t == Swapped(s, c, Parent(c))
    ensures InSubtree(i, Parent(c))
    ensures multiset(t) == multiset(start) && AncestorsOnly(start, t, i)
    ensures tracking ==> HeapExceptAt(kind, t, n, Parent(c))
  {
    assert InSubtree(c, Parent(c));
    SubtreeTrans(i, c, Parent(c));
    if tracking {
      SiftStep(kind, s, n, c);
    }
  }

  /** A sentinel node written into the slot just after a heap extends the
      heap by one position: nothing ranks below the sentinel. */
  lemma SentinelLeaf<H>(kind: Kind, s: seq<Node<H>>, n: int, handle: H)
    requires IsHeap(kind, s, n) && n < |s|
    ensures IsHeap(kind, s[n := Node(Sentinel, handle)], n + 1)
  {
    var t := s[n := Node(Sentinel, handle)];
    forall j | 2 <= j <= n + 1
      ensures EdgeOk(kind, t, j)
    {
      if j <= n {
        assert EdgeOk(kind, s, j);
        assert KeyAt(t, j) == KeyAt(s, j) && KeyAt(t, Parent(j)) == KeyAt(s, Parent(j));
      } else {
        assert KeyAt(t, j) == Sentinel;
      }
    }
  }

  /** Two lists that are permutations of each other and agree from slot `n`
      on have permuted prefixes of length `n`. */
  lemma PrefixPerm<H>(s: seq<Node<H>>, t: seq<Node<H>>, n: int)
    requires 0 <= n <= |s| == |t| && multiset(s) == multiset(t)
    requires forall k :: n <= k < |s| ==> s[k] == t[k]
    ensures multiset(s[..n]) == multiset(t[..n])
  {
    assert s[n..] == t[n..] by {
      forall k | 0 <= k < |s| - n
        ensures s[n..][k] == t[n..][k]
      {
        assert s[n..][k] == s[n + k] && t[n..][k] == t[n + k];
      }
    }
    assert s == s[..n] + s[n..] && t == t[..n] + t[n..];
    calc {
      multiset(s[..n]);
      multiset(s[..n]) + multiset(s[n..]) - multiset(s[n..]);
      multiset(s) - multiset(s[n..]);
      multiset(t) - multiset(t[n..]);
      multiset(t[..n]) + multiset(t[n..]) - multiset(t[n..]);
      multiset(t[..n]);
    }
  }

  /** The list of an intended insertion once the sentinel is in place: the
      sentinel carrying `handle` appended to a full list, or written into
      slot `n`, just after the heap part `1..n`. */
  function Placed<H>(s: seq<Node<H>>, n: int, handle: H): (r: seq<Node<H>>)
    requires 0 <= n <= |s|
    ensures |r| == (if n == |s| then |s| + 1 else |s|)
    ensures r[n] == Node(Sentinel, handle) && r[..n] == s[..n]
    ensures forall k :: n < k < |r| ==> r[k] == s[k]
  {
    if n == |s| then s + [Node(Sentinel, handle)] else s[n := Node(Sentinel, handle)]
  }

  /** Placing the sentinel right after a heap part of `n` nodes gives a heap
      part of `n + 1` nodes. */
  lemma PlacedHeap<H>(kind: Kind, s: seq<Node<H>>, n: int, handle: H)
    requires 0 <= n <= |s| && IsHeap(kind, s, n)
    ensures IsHeap(kind, Placed(s, n, handle), n + 1)
  {
    if n == |s| {
      AppendSentinel(kind, s, n, handle);
    } else {
      SentinelLeaf(kind, s, n, handle);
    }
  }

  /** An intended insertion as a whole: after the placed sentinel at
      position `n + 1` is rekeyed to `key` and climbs (changing only
      positions on its path to the root), the heap part of `n + 1` nodes
      holds the old heap part plus the new node, and every later node is
      where it was. */
  lemma PlacedRekeyed<H>(s: seq<Node<H>>, placed: seq<Node<H>>, after: seq<Node<H>>, n: int, i: int, slot: int, key: int, handle: H)
    requires 0 <= n <= |s| && placed == Placed(s, n, handle) && i == n + 1 && slot == n
    requires multiset(after) == multiset(Rekeyed(placed, slot, key))
    requires AncestorsOnly(Rekeyed(placed, slot, key), after, i)
    ensures multiset(after[..i]) == multiset(s[..n]) + multiset{Node(Finite(key), handle)}
    ensures forall k :: i <= k < |after| ==> after[k] == s[k]
  {
    var t := Rekeyed(placed, slot, key);
    forall k | n + 1 <= k < |after|
      ensures after[k] == t[k]
    {
      assert !InSubtree(n + 1, k + 1);
    }
    PrefixPerm(after, t, n + 1);
    assert t[..n + 1] == s[..n] + [Node(Finite(key), handle)];
  }

  /** A sentinel appended after a heap that fills the list extends it:
      nothing is below the sentinel's parent's key but the sentinel
      itself. */
  lemma AppendSentinel<H>(kind: Kind, s: seq<Node<H>>, n: int, handle: H)
    requires IsHeap(kind, s, n) && n == |s|
    ensures IsHeap(kind, s + [Node(Sentinel, handle)], n + 1)
  {
    var t := s + [Node(Sentinel, handle)];
    forall j | 2 <= j <= n + 1
      ensures EdgeOk(kind, t, j)
    {
      if j <= n {
        assert EdgeOk(kind, s, j);
      }
    }
  }

  /** Extraction as a whole: `s1` moved the last heap node `h` to the root
      of `s0`, and `s2` heapified the root of `s1` within `1..h - 1`. The
      shrunk heap part holds the old one minus the old root, the rest of the
      list is untouched, and a heap stays a heap whose removed root was
      `Above` all of it. */
  lemma ExtractDone<H>(kind: Kind, s0: seq<Node<H>>, s1: seq<Node<H>>, s2: seq<Node<H>>, h: int, n: int)
    requires 1 <= h <= |s0| == |s2| && n == h - 1 && s1 == s0[0 := s0[n]]
    requires multiset(s2[..n]) == multiset(s1[..n])
    requires forall k :: 0 <= k < |s1| && !(k < n && InSubtree(k + 1, 1)) ==> s2[k] == s1[k]
    requires BelowOk(kind, s1, n, 1) ==> SubtreeOk(kind, s2, n, 1)
    ensures multiset(s2[..n]) == multiset(s0[..h]) - multiset{s0[0]}
    ensures s2[n..] == s0[n..]
    ensures IsHeap(kind, s0, h) ==>
      IsHeap(kind, s2, n) && forall j :: 1 <= j <= h ==> Above(kind, s0[0].key, KeyAt(s0, j))
  {
    ExtractPerm(s0, s1, h, n);
    assert s2[n..] == s1[n..];
    if IsHeap(kind, s0, h) {
      RootReplacedBelowOk(kind, s0, s1, h);
      RootSubtreeHeap(kind, s2, n);
      forall j | 1 <= j <= h
        ensures Above(kind, s0[0].key, KeyAt(s0, j))
      {
        RootAbove(kind, s0, h, j);
      }
    }
  }

  /** One iteration of heap sort as a whole: `s1` swaps the root of `s0`
      to position `i`, and `s2` heapified the root of `s1` within
      `1..i - 1`. The sort state moves from `i` to `i - 1`, and `s2`
      permutes `s0`. */
  lemma SortIteration<H>(kind: Kind, s0: seq<Node<H>>, s1: seq<Node<H>>, s2: seq<Node<H>>, i: int, n: int)
    requires 2 <= i <= |s0| == |s2| && n == i - 1 && SortState(kind, s0, i)
    requires s1 == Swapped(s0, 1, i)
    requires multiset(s2[..n]) == multiset(s1[..n])
    requires forall k :: 0 <= k < |s1| && !(k < n && InSubtree(k + 1, 1)) ==> s2[k] == s1[k]
    requires BelowOk(kind, s1, n, 1) ==> SubtreeOk(kind, s2, n, 1)
    ensures SortState(kind, s2, n)
    ensures multiset(s2) == multiset(s0)
  {
    RootReplacedBelowOk(kind, s0, s1, i);
    assert s2[i - 1..] == s1[i - 1..];
    assert s2 == s2[..i - 1] + s2[i - 1..] && s1 == s1[..i - 1] + s1[i - 1..];
    RootSubtreeHeap(kind, s2, i - 1);
    SortStep(kind, s0, s2, i);
  }
}
