# CLRS sorting and selection, modelled in Dafny

This project models the in-place array algorithms of a Python
companion to CLRS (*Introduction to Algorithms*). They come from two
modules. `sorting.py` holds the sorts of chapters 2, 6, 7 and 8:
insertion, merge, bubble, stooge, the three partition schemes and the
quicksort drivers, the one-based indexed binary heap with its max and
min duals, counting sort and radix sort. `selection.py` holds the order
statistics of chapter 9: minimum, maximum, the paired minimum/maximum
scan and randomized select. Elements are `int`.

Every routine that mutates a list in place is a Dafny `method` working
on an `array<int>`. Each loop carries the invariants that prove it. The
Python heap object is a `class Heap<H>` with a `list` of nodes and a
`heapSize`. One class covers both duals; its `kind` field says whether
it is a max heap or a min heap. The facts the methods promise are stated
about ghost predicates and pure functions, and proved there:

- `Sorted`, multiset equality and "nothing outside `[p, r]` moved" for
  every sort;
- `IsHeap`, `SubtreeOk` and `SortedFrom` for the heap;
- `Merged` and `MergedFrom` for the sentinel merge;
- `Buckets` (stable placement by key) for counting sort;
- `SortedMod` (sorted modulo `10^i`) for radix sort;
- `IsRank` (the `i`-th smallest of a multiset) for selection.

Files:

| file | module | contents |
|---|---|---|
| `sort_spec.dfy` | `SortSpec` | sortedness, bounds, and counting through a permutation |
| `elementary.dfy` | `Elementary` | insertion sort and bubble sort |
| `merge_sort.dfy` | `MergeSort` | merge with the `None` sentinel, and merge sort |
| `stooge.dfy` | `Stooge` | stooge sort |
| `partition.dfy` | `Partition` | Lomuto, randomized and Hoare partitions |
| `quicksort.dfy` | `Quicksort` | the quicksort drivers |
| `selection.dfy` | `Selection` | minimum, maximum, minimum/maximum, randomized select |
| `heap_order.dfy` | `HeapOrder` | the keys and the sentinel, index arithmetic, and heap-order lemmas on values |
| `heap.dfy` | `Heaps` | the `Heap` class |
| `counting.dfy` | `Counting` | counting sort |
| `radix.dfy` | `Radix` | radix sort |

Randomness is a parameter, not a distribution:

- The random pivot of `randomized_partition` is an argument `k` with
  `p <= k <= r`.
- Where a driver draws it, Dafny picks an arbitrary index of the range
  (`:|`).

Python's `None` plays two roles:

- In the heap, `None` stands for minus infinity in the max heap and plus
  infinity in the min heap. It is the `Sentinel` key.
- In merge, it is the `Infinite` cell.

The exceptions that the heap, counting sort and radix sort raise by
design become `Failure` results: the heap's `IndexError`, the
empty-heap exception, the rejected key, the internal size error, the
length mismatch of counting sort and `max` of an empty list. The index
errors that the array routines and the selection scans would raise on
an out-of-range argument are not modelled as results; those routines
have preconditions instead, listed under "Left out".

## Model

| member | source | states |
|---|---|---|
| `Elementary.InsertionSort` | sorting.py:10-24 | the array ends sorted and a permutation of its old contents |
| `Elementary.InsertKey` | sorting.py:17-24 | one outer round: the key moves left to `slot`, past exactly the larger elements before `j`, and everything in between shifts one right |
| `Elementary.InsertedPerm` | sorting.py:20-24 | moving the key to its slot keeps the multiset |
| `Elementary.InsertedSorted` | sorting.py:19-24 | inserting the key into a sorted prefix at the slot the while loop stops at leaves the prefix one longer and sorted |
| `Elementary.BubbleSort` | sorting.py:87-96 | the array ends sorted and a permutation of its old contents |
| `Elementary.BubblePass` | sorting.py:94-96 | one inner pass settles slot `i`: every element before `i + 1` is at most every element after it, and the multiset is kept |
| `Elementary.BubbleStep` | sorting.py:95-96 | the conditional adjacent swap carries the minimum of the suffix down one slot and keeps the multiset |
| `MergeSort.MergedFromPerm` | sorting.py:60-70 | merging the remaining runs from `(i, j)` yields exactly the multiset union of the remaining elements |
| `MergeSort.MergedPerm` | sorting.py:40-70 | the merge of two runs is a permutation of their concatenation |
| `MergeSort.MergedFromAbove` | sorting.py:60-70 | a bound below the heads of two sorted runs bounds every element the merge emits |
| `MergeSort.MergedFromSorted` | sorting.py:60-70 | merging two sorted runs yields a sorted sequence |
| `MergeSort.CopyRun` | sorting.py:48-57 | the scratch array holds the run's elements followed by the `None` sentinel |
| `MergeSort.Merge` | sorting.py:40-70 | `a[p..r]` becomes the merge of the two old runs `a[p..q]` and `a[q+1..r]`; nothing outside `[p, r]` moves |
| `MergeSort.MergeRuns` | sorting.py:58-70 | the `k` loop writes the merge of the two scratch runs into `a[p..]` and leaves the rest of `a` alone |
| `MergeSort.TakeSmaller` | sorting.py:65-70 | the sentinel comparison emits the next element of the merge and advances exactly one cursor |
| `MergeSort.MergeSort` | sorting.py:27-84 | a no-op when `p >= r`; otherwise `a[p..r]` ends sorted and a permutation, and nothing outside moves |
| `MergeSort.SortHalves` | sorting.py:80-83 | the two recursive calls leave each half sorted and a permutation of itself |
| `MergeSort.BothHalves` | sorting.py:82-83 | the two recursive calls, each on its own half, compose into sorted halves with nothing else moved |
| `MergeSort.MergeHalves` | sorting.py:84 | merging two sorted halves leaves `a[p..r]` sorted and a permutation of the original range |
| `Stooge.StoogeSort` | sorting.py:99-129 | `a[i..j]` ends sorted and a permutation of its old contents; nothing outside `[i, j]` moves |
| `Stooge.EndsOrdered` | sorting.py:114-118 | the conditional swap of the ends permutes the range, orders its ends, and sorts a range of at most two |
| `Stooge.SwapEnds` | sorting.py:114-115 | exchanging the ends permutes the range |
| `Stooge.SortThirds` | sorting.py:120-129 | the three recursive calls sort `a[i..j]` as a permutation |
| `Stooge.TopThird` | sorting.py:120-126 | after sorting the first two thirds and then the last two thirds, the top `k` slots hold the `k` largest elements in order |
| `Stooge.LargestAtEnd` | sorting.py:123-126 | the two passes leave the last third sorted and at least every element before it |
| `Stooge.AboveFirstThird` | sorting.py:123-126 | after the two passes every first-third element is at most every last-third element |
| `Stooge.AboveInTail` | sorting.py:126 | in a sorted tail, at most the elements after `y` exceed `s[y]` |
| `Stooge.AboveInMid` | sorting.py:123-126 | the sorted first pass leaves at least a third of the tail at or above each first-third element |
| `Stooge.TopThirdPlaced` | sorting.py:123-126 | the two passes together place the largest third, sorted, at the end |
| `Stooge.StoogeSorted` | sorting.py:127-129 | sorting the first two thirds again, with the top third placed, sorts the whole range |
| `Stooge.ThirdPass` | sorting.py:127-129 | the three passes compose into a sorting permutation of `[i, j]` |
| `Stooge.TwoPassFrame` | sorting.py:123-126 | two overlapping range permutations compose into one of `[i, j]` |
| `Partition.SwapIn` | sorting.py:155-156 | a swap inside `[p, r]` exchanges the two slots, permutes the range and moves nothing else |
| `Partition.Lomuto` | sorting.py:135-157 | returns `q` in `[p, r]` holding the old `a[r]`, with everything before it in range at most the pivot and everything after it above; a permutation of the range; nothing outside moves |
| `Partition.Randomized` | sorting.py:160-171 | the same as `Lomuto`, with the pivot taken from any chosen index `k` in `[p, r]` |
| `Partition.Hoare` | sorting.py:174-198 | returns `j` in `[p, r]`, below `r` when `p < r`; every element of `a[p..j]` is at most every element of `a[j+1..r]`; a permutation; nothing outside moves |
| `Quicksort.Split` | sorting.py:223 | the chosen partition gives Lomuto-style sides or the Hoare split, with the range permuted and the rest unmoved |
| `Quicksort.Combine` | sorting.py:222-225 | sorting both sides of a Lomuto-style split sorts the range, and the range stays a permutation |
| `Quicksort.Quicksort` | sorting.py:201-225 | a no-op when `p >= r`; otherwise the range ends a permutation, sorted unless the top-level split is Hoare's, and nothing outside moves |
| `Quicksort.SortSides` | sorting.py:224-225 | the two recursive calls (always with the default partition) sort each side of `q` and move nothing else |
| `Quicksort.BothSides` | sorting.py:224-225 | the two recursive calls, each on its own side, compose into sorted sides with nothing else moved |
| `Quicksort.RandomizeQuicksort` | sorting.py:228-241 | with a random first pivot, the range ends sorted and a permutation |
| `Quicksort.QuicksortTailRecursion` | sorting.py:244-272 | the same promise as `Quicksort`, with the loop's splits made by the injected partition |
| `Quicksort.TailStep` | sorting.py:269-272 | one loop round sorts the left side and moves `p` past the pivot; a sorted prefix that is below the rest grows |
| `Quicksort.TailStepPerm` | sorting.py:270-272 | one loop round keeps the multiset of the range and moves nothing outside it |
| `Quicksort.TailStepSorted` | sorting.py:270-272 | after a Lomuto-style split and the left recursion, the sorted prefix extends through the pivot and stays below the rest |
| `Selection.Minimum` | selection.py:4-15 | on a non-empty collection, returns an element that is at most every element |
| `Selection.Maximum` | selection.py:18-29 | on a non-empty collection, returns an element that is at least every element |
| `Selection.MinimumMaximum` | selection.py:32-86 | the pairwise scan returns the minimum and the maximum, reading no index past the end for odd or even lengths |
| `Selection.ExtremesUnique` | selection.py:32-86 | the minimum and the maximum are unique, so the paired scan agrees with `minimum` and `maximum` |
| `Selection.RankMember` | selection.py:100-102 | the value of rank `i` is an element of the collection |
| `Selection.RankPerm` | selection.py:111 | rank is a property of the multiset: a permutation keeps every rank |
| `Selection.CountsAroundPivot` | selection.py:114-125 | around a partitioned pivot, counts of smaller and of no-larger elements split by side |
| `Selection.RankAroundPivot` | selection.py:114-125 | the pivot has rank `k = q - p + 1`; rank `i < k` is rank `i` on the left; rank `i > k` is rank `i - k` on the right |
| `Selection.StepRank` | selection.py:114-125 | a rank found on the chosen side is the rank in the whole permuted range |
| `Selection.SortedRank` | selection.py:100-102 | in a sorted sequence, rank `i` is the element at `i - 1` (1 is the minimum, `len` the maximum) |
| `Selection.RankUnique` | selection.py:100-102 | the value of each rank is unique |
| `Selection.SelectStep` | selection.py:120-125 | each of the three branches returns the rank-`i` value of the range it was given |
| `Selection.SelectPivot` | selection.py:120-121 | `i == k` returns the pivot, which has rank `i` |
| `Selection.SelectBelow` | selection.py:122-123 | `i < k` recurses on the left side with the same `i` |
| `Selection.SelectAbove` | selection.py:124-125 | `i > k` recurses on the right side with `i - k` |
| `Selection.RandomizedSelect` | selection.py:89-125 | for `1 <= i <= r - p + 1`, returns the rank-`i` element of the old `a[p..r]`, `a[p]` when `p == r`; the range is permuted and nothing else moves |
| `HeapOrder.AboveOrder` | sorting.py:538-547 | the heap order with the `None` sentinel at the bottom is reflexive, total and transitive, and outranking is strict |
| `HeapOrder.PyIndex` | sorting.py:361 | Python list indexing: valid exactly for `-len <= k < len`, counting negative positions from the end |
| `HeapOrder.Parent` | sorting.py:386-393 | `parent(i)` is the one-based index of which `i` is the left or the right child, below `i` for `i >= 2` |
| `HeapOrder.ParentOfChildren` | sorting.py:395-411 | `parent(left(i)) == parent(right(i)) == i`, and the children lie beyond `i` |
| `HeapOrder.SubtreeSplit` | sorting.py:395-411 | every proper descendant of `i` lies under `left(i)` or under `right(i)` |
| `HeapOrder.SubtreeDisjoint` | sorting.py:395-411 | no position lies under both children of `i` |
| `HeapOrder.RootAbove` | sorting.py:504-509 | in a heap, the root is `Above` every heap node |
| `HeapOrder.HeapifyStep` | sorting.py:477-479 | a swap with the outranking child, followed by a heapify of that child, makes the subtree of `i` a heap |
| `HeapOrder.HeapifyStepFrame` | sorting.py:477-479 | the swap and the recursive heapify move only positions of the subtree of `i` |
| `HeapOrder.BuildStep` | sorting.py:456-458 | heapifying `i` extends the heap property to every edge whose parent is at least `i` |
| `HeapOrder.Swapped` | sorting.py:478 | a crosswise swap exchanges two positions and keeps the multiset |
| `HeapOrder.SortStep` | sorting.py:495-502 | one round keeps the sorted tail beyond the heap and every tail node `Above` every heap node |
| `HeapOrder.SortIteration` | sorting.py:495-502 | one round of `heap_sort`'s loop keeps its invariant and the multiset |
| `HeapOrder.SortDone` | sorting.py:481-502 | when the heap is down to one node, the whole list is in the heap's sorted order |
| `HeapOrder.ExtractPerm` | sorting.py:520-526 | moving the last heap node to the root removes exactly the old root from the heap part |
| `HeapOrder.ExtractDone` | sorting.py:520-530 | after the move and the heapify, the heap part has lost exactly the root, which was `Above` all of it, and is still a heap |
| `HeapOrder.KeySlot` | sorting.py:539-543 | the key change goes ahead exactly when the position reads and the current key does not outrank the new one |
| `HeapOrder.SiftStart` | sorting.py:539-543 | rekeying a node of a heap to a key it does not outrank leaves a heap broken at most at that node's parent edge |
| `HeapOrder.SiftStep` | sorting.py:547-549 | swapping an outranking node with its parent moves the break one level up |
| `HeapOrder.SiftDone` | sorting.py:547-549 | when the node reaches the root or stops outranking its parent, the list is a heap |
| `HeapOrder.SiftClimb` | sorting.py:547-549 | each climbing swap keeps the multiset and moves only ancestors of the start position |
| `HeapOrder.SentinelLeaf` | sorting.py:579 | a sentinel written just after a heap extends it by one |
| `HeapOrder.AppendSentinel` | sorting.py:575 | a sentinel appended after a full-list heap extends it by one |
| `HeapOrder.Placed` | sorting.py:573-579 | the intended sentinel placement: the slot just after the heap part, appended when the list is full |
| `HeapOrder.PlacedHeap` | sorting.py:573-579 | the intended sentinel placement extends a heap by one |
| `HeapOrder.PlacedRekeyed` | sorting.py:579-582 | after the intended placement and the key change, the heap part gains exactly the new node and the rest stays put |
| `Heaps.Nodes` | sorting.py:346-351 | one finite node per `(value, handle)` entry, in order |
| `Heaps.Heap.constructor` | sorting.py:337-353 | `MaxHeap(c)` / `MinHeap(c)`: one node per entry, built into a heap over the whole list |
| `Heaps.Heap.Get` | sorting.py:355-361 | `__getitem__`: succeeds exactly when Python's list indexing does, returning `list[i - 1]` for `1 <= i <= len` |
| `Heaps.Heap.Set` | sorting.py:363-377 | `__setitem__`: an `IndexError` outside `1..len`; otherwise a one-based write |
| `Heaps.Heap.Swap` | sorting.py:478 | exchanges two positions and nothing else |
| `Heaps.Heap.Heapify` | sorting.py:460-479 | `max_heapify` / `min_heapify`: with both subtrees of `i` heaps, the subtree of `i` becomes one; only that subtree moves; the heap part's multiset and `heapSize` are kept |
| `Heaps.Heap.Build` | sorting.py:452-458 | `heapSize` becomes `len`, and the list becomes a heap and a permutation of itself |
| `Heaps.Heap.HeapSort` | sorting.py:481-502 | the list ends a permutation in ascending (max heap) or descending (min heap) order, with `heapSize` 1 when non-empty |
| `Heaps.Heap.SortRound` | sorting.py:495-502 | one round shrinks the heap by one and keeps the sort invariant and the multiset |
| `Heaps.Heap.Top` | sorting.py:504-509 | `heap_maximum` / `heap_minimum`: position 1, which is `Above` every heap node in a heap; an `IndexError` on an empty list |
| `Heaps.Heap.Extract` | sorting.py:511-530 | raises on an empty heap; otherwise returns the root, shrinks the heap by one, removes exactly the root from the heap part, and keeps a heap a heap |
| `Heaps.Heap.ChangeKey` | sorting.py:532-549 | refuses a key the node outranks, and an unreadable position; otherwise rekeys it and climbs, moving only ancestors and restoring the heap |
| `Heaps.Heap.SiftUp` | sorting.py:547-549 | the climbing loop keeps the multiset, moves only ancestors of the start, and repairs a heap broken at the start |
| `Heaps.Heap.Insert` | sorting.py:551-582 | as written: grows the heap first; raises the internal error past `len + 1`; the append path inserts exactly the new node into a heap; the other path raises `IndexError` when `heap_size + 1 == len`; otherwise it writes the sentinel with the new handle to position `heap_size + 2`, outside the heap, and then rekeys the old node at position `heap_size + 1`. That fails with the rejected key exactly when the old node's key outranks `key`; otherwise the list is a permutation of the one with that old node rekeyed, and only its ancestors move |
| `Heaps.Heap.InsertIntended` | sorting.py:551-582 | as intended: the heap part gains exactly the new node, the nodes after it stay put, and a heap stays a heap |
| `Heaps.Heap.Height` | sorting.py:413-425 | the number of times `left` can be applied from `i` while staying within the list |
| `Heaps.Heap.HeightChecked` | sorting.py:413-425 | as intended: a position below 1 is refused with `IndexError`; any other position gets its height |
| `HeapOrder.LeftChain` | sorting.py:420-422 | the loop's `index` after `k` rounds is `i * 2^(k+1)` for `i >= 1` |
| `HeapOrder.HeightNeverEnds` | sorting.py:420-423 | from `i <= 0`, `index` stays at or below 0, so the loop guard holds after every round and `height(i)` never returns |
| `Counting.Max` | sorting.py:772 | the largest key of a non-empty list is one of its elements and at least all of them |
| `Counting.Keys` | sorting.py:772 | the modifier applied to each entry, in order |
| `Counting.FilterIn` | sorting.py:787-789 | the elements kept for key `v` come from the collection and have key `v` |
| `Counting.BucketsIn` | sorting.py:787-789 | the output holds only elements of the collection with keys in range |
| `Counting.FilterConcat` | sorting.py:787-789 | selecting by key distributes over concatenation |
| `Counting.FilterTwice` | sorting.py:787-789 | selecting by key twice selects once, or nothing for different keys |
| `Counting.CountBelowStep` | sorting.py:779-782 | the running total up to `v + 1` adds the count of key `v` |
| `Counting.CountBelowMono` | sorting.py:779-782 | running totals never decrease |
| `Counting.CountBelowEnds` | sorting.py:779-782 | with all keys in `[0, k)`, the totals run from 0 to `len` |
| `Counting.BucketsLength` | sorting.py:787-789 | the output between two keys has the length given by the running totals |
| `Counting.BucketsAt` | sorting.py:787-789 | the `t`-th element of key `v` sits at the running total below `v` plus `t` |
| `Counting.Cover` | sorting.py:787-789 | every output slot belongs to exactly one key's block |
| `Counting.BucketsStable` | sorting.py:787-789 | stability: the elements of each key keep their input order |
| `Counting.BucketsPerm` | sorting.py:787-789 | with all keys in `[0, k)`, the output is a permutation of the collection |
| `Counting.BucketsSortedByThen` | sorting.py:787-789 | the output is ordered by key, and, within a key, by any order the input was already sorted by |
| `Counting.FilterSortedBy` | sorting.py:787-789 | selecting one key keeps any order the input had |
| `Counting.Bound` | sorting.py:771-772 | the counter length: `k` when given, else one more than the largest key |
| `Counting.BoundCovers` | sorting.py:771-772 | every key lies below that counter length |
| `Counting.FilterAt` | sorting.py:787-789 | entry `j` is the element of its key's block just after the ones before `j` |
| `Counting.SlotBefore` | sorting.py:787-789 | slots of a smaller key come first |
| `Counting.SlotsApart` | sorting.py:787-789 | different elements get different slots |
| `Counting.SlotInside` | sorting.py:787-789 | every slot lies inside `B` |
| `Counting.PlaceStep` | sorting.py:787-789 | placing entry `j - 1` at its counter's slot extends the placed suffix |
| `Counting.PlacedAll` | sorting.py:787-789 | when every entry is placed, `B` is the stable bucket order |
| `Counting.PlacedAt` | sorting.py:787-789 | a fully placed `B` agrees with the stable bucket order at each slot |
| `Counting.CountRound` | sorting.py:776-777 | one counting round adds one to the counter of the entry's key |
| `Counting.TotalsStart` | sorting.py:779-782 | the counts start the running totals |
| `Counting.CountBelowNone` | sorting.py:779-782 | no key lies below 0 |
| `Counting.TotalRound` | sorting.py:781-782 | one round of the totals loop extends the running totals by one key |
| `Counting.PlaceStart` | sorting.py:781-787 | after the totals, each counter holds the number of entries with key at most its index |
| `Counting.PlaceRound` | sorting.py:787-789 | one placing round keeps the counters in step with the placed suffix |
| `Counting.KeyAt` | sorting.py:777 | each entry's key indexes the counter array |
| `Counting.CountKeys` | sorting.py:774-777 | the counter array ends holding the number of entries of each key |
| `Counting.Accumulate` | sorting.py:779-782 | the counter array ends holding, for each key, the number of entries with key at most it |
| `Counting.Place` | sorting.py:788-789 | writes `x` just below its counter and decrements the counter |
| `Counting.PlaceAll` | sorting.py:787-789 | the backward placing loop leaves `B` in the stable bucket order |
| `Counting.PlaceNext` | sorting.py:787-789 | one placing round keeps the counters and the placed suffix in step |
| `Counting.CountingSort` | sorting.py:740-790 | a length mismatch raises; a missing `k` on an empty list raises; otherwise `B` ends holding the entries stably ordered by key |
| `Radix.Pow10` | sorting.py:807 | `10 ** i` is positive |
| `Radix.Digit` | sorting.py:807 | the modifier `(x // 10 ** i) % 10` is a decimal digit, using floor division as Python does |
| `Radix.DigitCount` | sorting.py:801 | the number of decimal digits of a natural number is at least one |
| `Radix.DecimalLength` | sorting.py:801 | `len(str(x))`: a non-negative `x` lies below `10^r` and, unless it is one digit, at or above `10^(r-1)`; a negative `x` has the minus sign and `r - 1` such digits |
| `Radix.DigitCountBound` | sorting.py:801 | a natural number lies below `10` to its digit count, and at or above the previous power |
| `Radix.ModStep` | sorting.py:807 | `x` modulo `10^(i+1)` is digit `i` times `10^i` plus `x` modulo `10^i` |
| `Radix.DigitOrder` | sorting.py:807 | a smaller digit `i`, or an equal digit with a smaller lower part, gives a smaller lower part through digit `i` |
| `Radix.NextDigitSorted` | sorting.py:804-808 | sorted by digit `i`, with ties ordered modulo `10^i`, means sorted modulo `10^(i+1)` |
| `Radix.RadixPass` | sorting.py:804-808 | a stable counting pass on digit `i` turns sorted modulo `10^i` into sorted modulo `10^(i+1)` |
| `Radix.SortedModSorted` | sorting.py:810 | sorted modulo `m` with every element in `[0, m)` is sorted |
| `Radix.Passes` | sorting.py:800-801 | the number of passes: `d` when given, else the decimal length of the maximum |
| `Radix.PassesCover` | sorting.py:800-801 | non-negative entries lie below `10` to the decimal length of the maximum |
| `Radix.DigitPasses` | sorting.py:804-808 | the pass loop raises exactly when a pass runs on an empty list; otherwise it returns a permutation sorted modulo `10^passes` |
| `Radix.DigitPass` | sorting.py:807 | one counting pass by digit `i` raises exactly on an empty list; otherwise `B` is a permutation, and sorted modulo `10^i` becomes sorted modulo `10^(i+1)` |
| `Radix.RadixSort` | sorting.py:792-810 | returns a permutation, sorted modulo `10^d`, hence sorted for non-negative input with `d` omitted or large enough; raises on an empty list when a pass runs |

## Left out

- `bucket_sort` (sorting.py:813-842) is not modelled. It works on floating-point keys in `[0, 1)`.
- The `__main__` block is not modelled. It only prints.
- `heap_height` is not modelled. It uses the floating-point `math.log`; the integer `height(i)` is modelled instead.
- The distribution of `random.randint` and the expected running times are not modelled. A random pivot index is any index of the range.
- `HeapNode` is modelled as a value `Node(key, handle)`. Its back-reference to its heap, its stored `index`, its `left`/`right`/`parent`/`__str__` helpers and `Heap.__len__` are left out. So is the aliasing after extraction, where the node at the old last heap slot stays referenced from two places.
- The `try`/`except` probing that decides whether an entry carries a handle is left out. Heap entries are explicit `(value, handle)` pairs.
- Heaps.Heap.Heapify: comparing a value with `None` raises `TypeError` in Python, and the model does not raise it. A `Sentinel` node can stay in the list after an as-written `Insert` that takes the non-append branch, where it sits just past the heap part. `Build` and `HeapSort` then take it into the heap part. From there on, Python's `max_heapify`/`min_heapify` (sorting.py:469-474, 619-624) raise `TypeError` when they compare it, and so do `Extract` and `HeapSort`, which call them. The model instead orders the `Sentinel` last, and its `Heapify`, `Build`, `HeapSort` and `Extract` succeed. Key change compares with `is None` first and is modelled exactly.
- Heaps.Heap.Heapify: requires `i >= 1` and `heapSize <= |list|` (`Valid`). Python's public `max_heapify(0)` compares `list[-1]` with itself and with `list[0]`. When that calls for a swap, `__setitem__` raises `IndexError` (sorting.py:373-374); otherwise the call returns with nothing changed. Neither case is modelled. Every operation keeps `Valid`. A list on which a failed insertion already overshot is not modelled; there Python's reads past the end would raise.
- Heaps.Heap.Extract: requires `Valid` for the same reason.
- Heaps.Heap.Height: requires `i >= 1`. For `i <= 0` the source's loop never ends (`HeapOrder.HeightNeverEnds`; see "Findings").
- Elementary, MergeSort, Stooge, Partition and Quicksort model a collection as an `array<int>`. Their index preconditions exclude ranges outside the list, where Python raises `IndexError` or wraps negative indices.
- Selection.Minimum: requires a non-empty collection. Python raises `IndexError` reading `collection[0]` (selection.py:10); that case is not modelled. The same holds for Selection.Maximum (selection.py:24) and Selection.MinimumMaximum (selection.py:47 or :55).
- Selection.RandomizedSelect: requires `0 <= p <= r < len` and `1 <= i <= r - p + 1`. Outside that range, Python returns `collection[p]` whenever `p == r`, whatever `i` is. Otherwise it may recurse onto an empty range, where `random.randint(p, r)` with `p > r` raises `ValueError`, or it raises `IndexError`. None of these is modelled.
- Stooge.StoogeSort: requires `0 <= i <= j < len`. The default `j = len - 1` on an empty list raises `IndexError` in the source, and `i > j` compares the ends across the range; neither is modelled.
- Quicksort.Quicksort: with `hoare_partition` at the top level, only a permutation is promised, not sortedness. The recursive calls leave the split index out of both sides, which a Hoare split does not allow. The same holds for Quicksort.QuicksortTailRecursion.
- Counting.CountingSort: requires every key to be non-negative and, when `k` is given, below `k`. Python would wrap a negative key around the counter list, or raise `IndexError` for a key at or past `k`; neither is modelled.
- Counting.CountingSort: `collection` is a sequence, read only, and the modifier is a total `int -> int` function.
- Radix.RadixSort: `collection = B[:]` is modelled as taking the value of `B` as the next pass's input. The aliasing of the caller's list is not modelled.
- Radix.RadixSort: for negative entries, only sortedness modulo `10^d` is promised, which is what the floor-division digits give.
- Several loops and recursive-call groups are separate methods, each with its own contract. This changes no behaviour. They are `InsertKey`, `BubblePass`, `MergeRuns`/`TakeSmaller`, `SortHalves`, `SortThirds`/`TopThird`, `SortSides`, `TailStep`, `SiftUp`, `SortRound`, and `CountKeys`/`Accumulate`/`PlaceAll`/`PlaceNext`.
- MergeSort.Merge reads its two scratch arrays as snapshots once they are filled. The arrays are local and never written again.

## Findings

| source | as written | input that shows it | evidently intended | confidence | as-written member | corrected member |
|---|---|---|---|---|---|---|
| sorting.py:579 (and 729) | `max_heap_insert` / `min_heap_insert` write the new sentinel node to zero-based slot `heap_size` after incrementing `heap_size`, i.e. to one-based position `heap_size + 1` | a heap with `len(list) == 3` after one extraction (`heap_size == 2`): the insert writes `list[3]` and raises `IndexError`; after two extractions it overwrites position 3 and then rekeys position 2, an old node, while the new handle sits outside the heap | the sentinel goes to one-based position `heap_size` (zero-based `heap_size - 1`), just after the old heap part, and is then rekeyed | not executed | `Heaps.Heap.Insert` | `Heaps.Heap.InsertIntended` |
| sorting.py:413-425 | `height(i)` starts at `index = left(i)` and doubles it while `index <= len(self)`; nothing rejects a position below 1 | `height(0)` on any heap: `index` stays `0 <= len(self)` forever, so the call never returns; for a negative `i`, `index` only decreases | a position below 1 names no node and is refused, as `__setitem__` refuses it with `IndexError` | not executed | `HeapOrder.HeightNeverEnds` | `Heaps.Heap.HeightChecked` |
