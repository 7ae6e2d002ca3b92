/** The one-based binary heap of CLRS chapter 6 as a stateful object: a
    list of nodes and the number of leading nodes that form the heap. One
    class covers both duals; `kind` says whether it is the max heap or the
    min heap, and every comparison goes through `Above`/`Outranks`. */
module Heaps {
  import opened HeapOrder

  /** The entries of a collection, each a `(value, handle)` pair, as
      nodes. */
  function Nodes<H>(collection: seq<(int, H)>): (r: seq<Node<H>>)
    ensures |r| == |collection|
    ensures forall k :: 0 <= k < |r| ==> r[k] == Node(Finite(collection[k].0), collection[k].1)
  {
    if collection == [] then [] else [Node(Finite(collection[0].0), collection[0].1)] + Nodes(collection[1..])
  }

  class Heap<H> {
    /** The nodes; one-based position `j` is `list[j - 1]`. */
    var list: seq<Node<H>>
    /** Positions `1..heapSize` form the heap. */
    var heapSize: nat
    /** Max heap or min heap. */
    const kind: Kind

    /** The heap part lies inside the list. Every operation keeps this; only
        a failed insertion on a list that already broke it goes past. */
    ghost predicate Valid()
      reads this
    {
      heapSize <= |list|
    }

    /** `MaxHeap(collection)` / `MinHeap(collection)`: one node per entry,
        then `build_max_heap` / `build_min_heap`. */
    constructor (kind: Kind, collection: seq<(int, H)>)
      ensures this.kind == kind
      ensures heapSize == |list| == |collection|
      ensures multiset(list) == multiset(Nodes(collection))
      ensures IsHeap(kind, list, heapSize)
    {
      this.kind := kind;
      list := Nodes(collection);
      heapSize := |collection|;
      new;
      Build();
    }

    /** `__getitem__`: one-based reading through Python's list indexing, so
        `0` and negative positions count from the end, and anything else
        outside the list raises `IndexError`. */
    function Get(i: int): (r: Result<Node<H>>)
      reads this
      ensures r.Success? <==> -|list| < i <= |list|
      ensures 1 <= i <= |list| ==> r == Success(list[i - 1])
      ensures r.Success? ==> r.value in list
    {
      match PyIndex(|list|, i - 1)
      case Some(k) => Success(list[k])
      case None => Failure(IndexError)
    }

    /** `__setitem__`: a one-based write, refused with `IndexError` outside
        `1..len`. */
    method Set(i: int, node: Node<H>) returns (r: Result<()>)
      modifies this
      ensures heapSize == old(heapSize)
      ensures r.Success? <==> 1 <= i <= old(|list|)
      ensures r.Success? ==> list == old(list)[i - 1 := node] && Get(i) == Success(node)
      ensures r.Failure? ==> r.error == IndexError && list == old(list)
    {
      if |list| < i {
        return Failure(IndexError);
      }
      if i < 1 {
        return Failure(IndexError);
      }
      list := list[i - 1 := node];
      r := Success(());
    }

    /** `self[x], self[y] = self[y], self[x]`: both values are read, then
        written back crosswise. */
    method Swap(x: int, y: int)
      requires 1 <= x <= |list| && 1 <= y <= |list|
      modifies this
      ensures list == Swapped(old(list), x, y)
      ensures heapSize == old(heapSize)
    {
      var atY, atX := list[y - 1], list[x - 1];
      var _ := Set(x, atY);
      var _ := Set(y, atX);
    }

    /** `max_heapify(i)` / `min_heapify(i)`: sift the node at `i` down,
        swapping it with the child that outranks it and its sibling. Only
        positions of the subtree of `i` within the heap move, and when both
        subtrees below `i` were heaps the whole subtree of `i` is one; the
        node left at `i` is one of those that were at `i` and its
        children. */
    method Heapify(i: int)
      requires 1 <= i && Valid()
      modifies this
      ensures heapSize == old(heapSize) && |list| == old(|list|)
      ensures multiset(list[..heapSize]) == old(multiset(list[..heapSize]))
      ensures forall k :: 0 <= k < |list| && !(k < heapSize && InSubtree(k + 1, i)) ==> list[k] == old(list[k])
      ensures i <= heapSize ==>
        list[i - 1] == old(list)[i - 1] ||
        (Left(i) <= heapSize && list[i - 1] == old(list)[Left(i) - 1]) ||
        (Right(i) <= heapSize && list[i - 1] == old(list)[Right(i) - 1])
      ensures old(BelowOk(kind, list, heapSize, i)) ==> SubtreeOk(kind, list, heapSize, i)
      decreases heapSize - i
    {
      var l, r := Left(i), Right(i);
      var largest;
      if l <= heapSize && Outranks(kind, list[l - 1].key, list[i - 1].key) {
        largest := l;
      } else {
        largest := i;
      }
      if r <= heapSize && Outranks(kind, list[r - 1].key, list[largest - 1].key) {
        largest := r;
      }
      if largest != i {
        ghost var s0 := list;
        AboveOrder(kind, list[l - 1].key, list[i - 1].key, list[largest - 1].key);
        AboveOrder(kind, list[largest - 1].key, list[l - 1].key, list[i - 1].key);
        assert Outranks(kind, KeyAt(s0, largest), KeyAt(s0, i));
        assert l <= heapSize ==> Above(kind, KeyAt(s0, largest), KeyAt(s0, l));
        assert r <= heapSize ==> Above(kind, KeyAt(s0, largest), KeyAt(s0, r));
        Swap(i, largest);
        ghost var s1 := list;
        SwappedPrefix(s0, i, largest, heapSize);
        Heapify(largest);
        HeapifyStepFrame(s0, s1, list, heapSize, i, largest);
        HeapifyStep(kind, s0, s1, list, heapSize, i, largest);
      } else {
        assert BelowOk(kind, list, heapSize, i) ==> SubtreeOk(kind, list, heapSize, i) by {
          ParentOfChildren(i);
          if l <= heapSize {
            AboveOrder(kind, list[i - 1].key, list[l - 1].key, list[l - 1].key);
          }
          if r <= heapSize {
            AboveOrder(kind, list[i - 1].key, list[r - 1].key, list[r - 1].key);
          }
        }
      }
    }

    /** `build_max_heap` / `build_min_heap`: the heap part becomes the whole
        list, heapified bottom-up from the last parent. */
    method Build()
      modifies this
      ensures heapSize == |list| == old(|list|)
      ensures multiset(list) == old(multiset(list))
      ensures IsHeap(kind, list, heapSize)
    {
      heapSize := |list|;
      var i := |list| / 2;
      while i > 0
        invariant 0 <= i <= |list| / 2
        invariant heapSize == |list| == old(|list|)
        invariant multiset(list) == old(multiset(list))
        invariant forall j :: 2 <= j <= heapSize && Parent(j) > i ==> EdgeOk(kind, list, j)
      {
        ghost var before := list;
        assert BelowOk(kind, list, heapSize, i);
        Heapify(i);
        BuildStep(kind, before, list, heapSize, i);
        assert list[..heapSize] == list && before[..heapSize] == before;
        i := i - 1;
      }
      assert forall j :: 2 <= j <= heapSize ==> Parent(j) > 0;
    }
 
    /** `heap_sort`: rebuild the heap, then repeatedly swap the root to the
        end of the shrinking heap and repair it. The list ends a permutation
        of its old nodes in the heap's sorted order (ascending for a max
        heap, descending for a min heap), with one node left in the heap
        part unless the list is empty. */
    method HeapSort()
      modifies this
      ensures |list| == old(|list|) && multiset(list) == old(multiset(list))
      ensures heapSize == (if |list| == 0 then 0 else 1)
      ensures SortedFrom(kind, list, 1)
    {
      Build();
      var i := |list|;
      while i >= 2
        invariant heapSize == i <= |list| && (|list| > 0 ==> 1 <= i)
        invariant |list| == old(|list|) && multiset(list) == old(multiset(list))
        invariant SortState(kind, list, i)
      {
        SortRound();
        i := i - 1;
      }
      SortDone(kind, list, i);
    }
 
    /** One round of `heap_sort`'s loop with `i = heapSize`: the root goes
        to position `i`, the heap shrinks by one and is repaired at the
        root. */
    method SortRound()
      requires 2 <= heapSize <= |list| && SortState(kind, list, heapSize)
      modifies this
      ensures heapSize == old(heapSize) - 1 && |list| == old(|list|)
      ensures multiset(list) == old(multiset(list))
      ensures SortState(kind, list, heapSize)
    {
      ghost var s0, i := list, heapSize;
      Swap(1, heapSize);
      heapSize := heapSize - 1;
      ghost var s1 := list;
      Heapify(1);
      SortIteration(kind, s0, s1, list, i, heapSize);
    }

    /** `heap_maximum` / `heap_minimum`: the node at position 1 (an
        `IndexError` on an empty list); in a heap its key is `Above` every
        heap key. */
    method Top() returns (r: Result<Node<H>>)
      ensures r.Success? <==> |list| >= 1
      ensures r.Success? ==> r.value == list[0]
      ensures r.Failure? ==> r.error == IndexError
      ensures IsHeap(kind, list, heapSize) && heapSize >= 1 ==>
        forall j :: 1 <= j <= heapSize ==> Above(kind, r.value.key, KeyAt(list, j))
    {
      r := Get(1);
      forall j | IsHeap(kind, list, heapSize) && 1 <= j <= heapSize
        ensures Above(kind, list[0].key, KeyAt(list, j))
      {
        RootAbove(kind, list, heapSize, j);
      }
    }

    /** `heap_extract_max` / `heap_extract_min`: raises on an empty heap;
        otherwise returns the root, moves the last heap node to the root,
        shrinks the heap by one and repairs it. The heap part loses exactly
        the returned node, the nodes after it stay put, and a heap stays a
        heap whose removed root was `Above` all of it. */
    method Extract() returns (r: Result<Node<H>>)
      requires Valid()
      modifies this
      ensures old(heapSize) < 1 ==> r == Failure(EmptyHeap) && list == old(list) && heapSize == old(heapSize)
      ensures old(heapSize) >= 1 ==>
        r == Success(old(list)[0]) && heapSize == old(heapSize) - 1 && |list| == old(|list|) &&
        multiset(list[..heapSize]) == old(multiset(list[..heapSize])) - multiset{old(list)[0]} &&
        list[heapSize..] == old(list)[heapSize..]
      ensures old(IsHeap(kind, list, heapSize)) && old(heapSize) >= 1 ==>
        IsHeap(kind, list, heapSize) &&
        forall j :: 1 <= j <= old(heapSize) ==> Above(kind, r.value.key, KeyAt(old(list), j))
    {
      if heapSize < 1 {
        return Failure(EmptyHeap);
      }
      ghost var s0, h := list, heapSize;
      var top := list[0];
      var _ := Set(1, list[heapSize - 1]);
      heapSize := heapSize - 1;
      ghost var s1 := list;
      Heapify(1);
      ExtractDone(kind, s0, s1, list, h, heapSize);
      r := Success(top);
    }

    /** `heap_increase_key` / `heap_decrease_key`: the node at position `i`
        (read through `__getitem__`, so `0` and negative positions count from
        the end) takes the finite key `key` unless its current key outranks
        `key`; the node then climbs while it outranks its parent. The list
        ends a permutation of the rekeyed one in which only ancestors of `i`
        moved, and a heap rekeyed inside its heap part is a heap again. */
    method ChangeKey(i: int, key: int) returns (r: Result<()>)
      modifies this
      ensures heapSize == old(heapSize) && |list| == old(|list|)
      ensures KeySlot(kind, old(list), i, key).Failure? ==>
        r == Failure(KeySlot(kind, old(list), i, key).error) && list == old(list)
      ensures KeySlot(kind, old(list), i, key).Success? ==>
        r == Success(()) &&
        multiset(list) == multiset(Rekeyed(old(list), KeySlot(kind, old(list), i, key).value, key)) &&
        AncestorsOnly(Rekeyed(old(list), KeySlot(kind, old(list), i, key).value, key), list, i)
      ensures r.Success? && 1 <= i <= heapSize && old(IsHeap(kind, list, heapSize)) ==>
        IsHeap(kind, list, heapSize)
    {
      var got := Get(i);
      if got.Failure? {
        return Failure(IndexError);
      }
      if Outranks(kind, got.value.key, Finite(key)) {
        return Failure(KeyRejected);
      }
      ghost var tracking := 1 <= i <= heapSize && IsHeap(kind, list, heapSize);
      if tracking {
        SiftStart(kind, list, heapSize, i, key);
      }
      var slot := PyIndex(|list|, i - 1).value;
      list := Rekeyed(list, slot, key);
      if i >= 1 {
        SiftUp(i);
      } else {
        assert AncestorsOnly(list, list, i);
      }
      r := Success(());
    }

    /** The climbing loop of key change, from position `c0`: while the node
        outranks its parent the two swap. Only positions on the path from
        `c0` to the root change, and a heap broken at most at `c0`'s edge
        to its parent becomes a heap. */
    method SiftUp(c0: int)
      requires 1 <= c0 <= |list|
      modifies this
      ensures heapSize == old(heapSize)
      ensures multiset(list) == old(multiset(list)) && AncestorsOnly(old(list), list, c0)
      ensures old(HeapExceptAt(kind, list, heapSize, c0)) ==> IsHeap(kind, list, heapSize)
    {
      ghost var start := list;
      ghost var tracking := HeapExceptAt(kind, list, heapSize, c0);
      var c := c0;
      while c > 1 && Outranks(kind, list[c - 1].key, list[Parent(c) - 1].key)
        invariant 1 <= c <= c0 <= |list| && InSubtree(c0, c) && heapSize == old(heapSize)
        invariant multiset(list) == multiset(start) && AncestorsOnly(start, list, c0)
        invariant tracking ==> HeapExceptAt(kind, list, heapSize, c)
        decreases c
      {
        ghost var s := list;
        Swap(c, Parent(c));
        SiftClimb(kind, start, s, list, heapSize, c0, c, tracking);
        c := Parent(c);
      }
      if tracking {
        SiftDone(kind, list, heapSize, c);
      }
    }

    /** `max_heap_insert` / `min_heap_insert` as written: the heap grows by
        one first. Past the end of the list a sentinel node carrying the
        handle is appended and rekeyed to `key`; that path keeps a heap a
        heap and adds exactly the new node. Otherwise the sentinel is written
        one slot too far, into zero-based slot `heapSize`: when that is the
        end of the list the write raises `IndexError`, and else the rekeying
        hits the node left at position `heapSize`, while the new handle stays
        at position `heapSize + 1`, outside the heap, with the sentinel
        key. */
    method Insert(key: int, handle: H) returns (r: Result<()>)
      modifies this
      ensures heapSize == old(heapSize) + 1
      ensures old(heapSize) > old(|list|) ==> r == Failure(InternalError) && list == old(list)
      ensures old(heapSize) == old(|list|) ==>
        r.Success? && multiset(list) == old(multiset(list)) + multiset{Node(Finite(key), handle)} &&
        (old(IsHeap(kind, list, heapSize)) ==> IsHeap(kind, list, heapSize))
      ensures old(heapSize) + 1 == old(|list|) ==> r == Failure(IndexError) && list == old(list)
      ensures old(heapSize) + 1 < old(|list|) ==>
        |list| == old(|list|) && list[heapSize] == Node(Sentinel, handle) &&
        (r.Failure? <==> Outranks(kind, old(list)[old(heapSize)].key, Finite(key))) &&
        (r.Failure? ==>
           r.error == KeyRejected && list == old(list)[old(heapSize) + 1 := Node(Sentinel, handle)]) &&
        (r.Success? ==>
           multiset(list) == multiset(Rekeyed(old(list)[old(heapSize) + 1 := Node(Sentinel, handle)], old(heapSize), key)) &&
           AncestorsOnly(Rekeyed(old(list)[old(heapSize) + 1 := Node(Sentinel, handle)], old(heapSize), key), list, heapSize))
    {
      var n := heapSize;
      heapSize := heapSize + 1;
      if heapSize > |list| {
        if heapSize != |list| + 1 {
          return Failure(InternalError);
        }
        ghost var before := list;
        list := list + [Node(Sentinel, handle)];
        ghost var placed := list;
        ghost var wasHeap := IsHeap(kind, before, n);
        if wasHeap {
          AppendSentinel(kind, before, n, handle);
          assert IsHeap(kind, list, heapSize);
        }
        assert KeySlot(kind, placed, heapSize, key) == Success(n);
        assert Rekeyed(placed, n, key) == before + [Node(Finite(key), handle)];
        r := ChangeKey(heapSize, key);
        assert wasHeap ==> IsHeap(kind, list, heapSize);
      } else {
        if heapSize == |list| {
          return Failure(IndexError);
        }
        list := list[heapSize := Node(Sentinel, handle)];
        ghost var placed := list;
        r := ChangeKey(heapSize, key);
        if r.Success? {
          assert !InSubtree(heapSize, heapSize + 1);
          assert list[heapSize] == Rekeyed(placed, n, key)[heapSize];
        }
      }
    }

    /** Insertion as evidently intended: the sentinel goes to position
        `heapSize` of the grown heap, i.e. the slot just after the old heap
        part, or is appended when the list is full. The heap part gains
        exactly the new node, the nodes after it stay put, and a heap stays a
        heap. */
    method InsertIntended(key: int, handle: H) returns (r: Result<()>)
      modifies this
      ensures heapSize == old(heapSize) + 1
      ensures old(heapSize) > old(|list|) ==> r == Failure(InternalError) && list == old(list)
      ensures old(heapSize) <= old(|list|) ==>
        r.Success? && heapSize <= |list| &&
        |list| == (if old(heapSize) == old(|list|) then old(|list|) + 1 else old(|list|)) &&
        multiset(list[..heapSize]) == old(multiset(list[..heapSize])) + multiset{Node(Finite(key), handle)} &&
        (forall k :: heapSize <= k < |list| ==> list[k] == old(list)[k]) &&
        (old(IsHeap(kind, list, heapSize)) ==> IsHeap(kind, list, heapSize))
    {
      var n := heapSize;
      heapSize := heapSize + 1;
      if heapSize > |list| + 1 {
        return Failure(InternalError);
      }
      ghost var before := list;
      list := Placed(list, n, handle);
      ghost var placed := list;
      ghost var wasHeap := IsHeap(kind, before, n);
      if wasHeap {
        PlacedHeap(kind, before, n, handle);
        assert IsHeap(kind, list, heapSize);
      }
      assert KeySlot(kind, placed, heapSize, key) == Success(n);
      r := ChangeKey(heapSize, key);
      PlacedRekeyed(before, placed, list, n, heapSize, n, key, handle);
      assert wasHeap ==> IsHeap(kind, list, heapSize);
    }

    /** `height(i)`: how many times `left` can be applied from `i` and stay
        within the list, i.e. the number of edges on the path of left
        children from `i` down to a leaf; `0` when `i` has no child. (For
        `i < 1` the source's loop never ends.) */
    method Height(i: int) returns (vertices: nat)
      requires i >= 1
      ensures i * Pow2(vertices + 1) > |list|
      ensures vertices > 0 ==> i * Pow2(vertices) <= |list|
    {
      var n := |list|;
      vertices := 0;
      var index := Left(i);
      while index <= n
        invariant index == LeftChain(i, vertices) == i * Pow2(vertices + 1) && index >= 2
        invariant vertices > 0 ==> i * Pow2(vertices) <= n
        decreases n - index
      {
        index := Left(index);
        vertices := vertices + 1;
      }
    }

    /** `height(i)` as evidently intended: a position below `1` names no
        node and is refused with `IndexError`, as `__setitem__` refuses it,
        instead of looping forever; every other position gets its height. */
    method HeightChecked(i: int) returns (r: Result<nat>)
      ensures r.Failure? <==> i < 1
      ensures r.Failure? ==> r.error == IndexError
      ensures r.Success? ==> i * Pow2(r.value + 1) > |list|
      ensures r.Success? && r.value > 0 ==> i * Pow2(r.value) <= |list|
    {
      if i < 1 {
        return Failure(IndexError);
      }
      var h := Height(i);
      r := Success(h);
    }
  }
}
