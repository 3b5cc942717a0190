# Circular dynamic array, binary heap and binomial heap

This project models three C++ class templates and proves properties of the model.

- `CircularDynamicArray<T>` is a ring-buffer deque over an owned buffer.
  - It doubles its capacity when an insertion finds it full.
  - It halves its capacity when a deletion leaves it less than a quarter full.
  - It carries order-statistic algorithms: quickselect and a median-of-medians select.
  - It carries a stable merge sort and a bitwise LSD radix sort.
  - It carries linear and binary search.
- `Heap<K, V>` is an array-backed binary min-heap of (key, value) nodes stored in a circular dynamic array.
- `BHeap<K, V>` is a binomial min-heap whose root list is a circular dynamic array of binomial trees.

Each C++ class becomes a Dafny `class` with the same fields. The logical contents are kept in a ghost `Contents` sequence next to the real buffer, and each method is proved against that sequence:

- `CircularArray.CircularDynamicArray` keeps `array` as an `array<T>`, plus `frontIndex`, `endIndex`, `len` (`m_length`), `cap` (`m_capacity`) and `errorElem`.
- `BinaryHeap.Heap` keeps a `CircularDynamicArray<Node<V>>` and `size` (`m_size`).
- `BinomialHeap.BHeap` keeps a `CircularDynamicArray<Tree<V>>`. Here a node with its child/sibling chain is the value `Tree(key, value, degree, children)`, first child first.

Keys, and the array elements the algorithms work on, are `int`.

The modules follow the source's regions:

| module | file | what it holds |
|---|---|---|
| `CircularArray` | `circular_array.dfy` | the class: constructors, copy, assignment, access, resizing, add/delete at both ends, clear |
| `SortingSpec` | `sorting_spec.dfy` | `Sorted`, the reference sort `SortedOf` (insertion sort), `MergeSeq`, permutation within a range |
| `Selection` | `selection.dfy` | the two partitions, `QuickSelect`, `WCSelect` and its corrected version |
| `MergeSorting` | `merge_sort.dfy` | `merge`/`mergeSort` on the circular array and on a plain array, `stableSort` |
| `RadixSorting` | `radix_sort.dfy` | bits of the unsigned view of an `int`, one counting pass `Pass`, `RadixOf`, `bitCountingSort`, `radixSort` |
| `Searching` | `searching.dfy` | `linearSearch`, `binSearch` |
| `BinaryHeap` | `heap.dfy` | the heap shape predicates and the `Heap` class |
| `BinomialHeap` | `bheap.dfy` | binomial trees, `FixFrom`/`Fix` (fixBHeap), `Interleave` (merge), the `BHeap` class |

In the table below, C, H and B stand for the three source files:

- C = `CircularDynamicArray/CircularDynamicArray/CircularDynamicArray.cpp`
- H = `Heaps/CS201Phase3/Heap.cpp`
- B = `Heaps/CS201Phase3/BHeap.cpp`

The table's source column spells the paths out.

Three facts about the code that shape the model:

- **Shrinking.** `shrinkArray` (C:188-200) halves the capacity with no floor of its own. It is called only from `delEnd` and `delFront` when fewer than a quarter of the slots are in use (C:250-253, C:268-271), so the halved capacity always holds every element. `ShrinkArray` requires `len <= cap / 2`, and both callers meet it.
- **`clear`** (C:295-303) leaves length 2 with two default elements, in a fresh buffer of capacity 2, with endIndex 2. `Clear` models that. `ClearCorrected` differs only in the end index (see Findings).
- **Out-of-range access** through `operator[]` (C:144-151) returns the `errorElem` member.

Both heap files include a `CircularDynamicArray.cpp` from their own directory (H:4, B:26). That copy is not part of this model. Both heaps are modelled over the array of C.

## Model

| member | source | states |
|---|---|---|
| CircularArray.CircularDynamicArray.constructor | CircularDynamicArray/CircularDynamicArray/CircularDynamicArray.cpp:84-89 | a new array is empty with capacity 2, and its end slot is inside the buffer |
| CircularArray.CircularDynamicArray.WithSize | CircularDynamicArray/CircularDynamicArray/CircularDynamicArray.cpp:93-98 | the sized constructor reports length and capacity s, starting at slot 0 |
| CircularArray.CircularDynamicArray.Copy | CircularDynamicArray/CircularDynamicArray/CircularDynamicArray.cpp:101-110 | the copy has the same logical contents and capacity, laid out from slot 0, with endIndex equal to the length (past the buffer when the source is full) |
| CircularArray.CircularDynamicArray.CopyElements | CircularDynamicArray/CircularDynamicArray/CircularDynamicArray.cpp:106-109 | the copy loop puts element i of the other array at physical slot i and counts endIndex up to the length |
| CircularArray.CircularDynamicArray.Assign | CircularDynamicArray/CircularDynamicArray/CircularDynamicArray.cpp:113-129 | self-assignment changes nothing; otherwise the contents and capacity become the other's, in a fresh buffer from slot 0 with endIndex equal to the length, and the other array is untouched |
| CircularArray.CircularDynamicArray.CorrectIndex | CircularDynamicArray/CircularDynamicArray/CircularDynamicArray.cpp:154-157 | an index one step past either end of the buffer wraps to the slot at the other end; an index inside is kept |
| CircularArray.CircularDynamicArray.At | CircularDynamicArray/CircularDynamicArray/CircularDynamicArray.cpp:144-151 | an in-range index reads the logical element at that position; any other index reads the error element |
| CircularArray.CircularDynamicArray.SetAt | CircularDynamicArray/CircularDynamicArray/CircularDynamicArray.cpp:144-151 | writing through an in-range index replaces exactly that logical element; any other index leaves the contents unchanged |
| CircularArray.CircularDynamicArray.GetElement | CircularDynamicArray/CircularDynamicArray/CircularDynamicArray.cpp:160-163 | reads logical element i through slot (i + front) mod capacity |
| CircularArray.CircularDynamicArray.SetElement | CircularDynamicArray/CircularDynamicArray/CircularDynamicArray.cpp:160-163 | writing through getElement replaces exactly logical element i |
| CircularArray.CircularDynamicArray.Swap | CircularDynamicArray/CircularDynamicArray/CircularDynamicArray.cpp:471-476 | exchanges two logical elements and keeps the multiset of contents |
| CircularArray.CircularDynamicArray.Length | CircularDynamicArray/CircularDynamicArray/CircularDynamicArray.cpp:279-282 | the number of logical elements |
| CircularArray.CircularDynamicArray.Capacity | CircularDynamicArray/CircularDynamicArray/CircularDynamicArray.cpp:285-288 | the buffer size, which is never below the length |
| CircularArray.CircularDynamicArray.GrowArray | CircularDynamicArray/CircularDynamicArray/CircularDynamicArray.cpp:170-185 | the capacity doubles (a zero capacity counts as 1); the contents are kept and re-laid from slot 0 in a fresh buffer, with the end slot right after them |
| CircularArray.CircularDynamicArray.ShrinkArray | CircularDynamicArray/CircularDynamicArray/CircularDynamicArray.cpp:188-200 | the capacity halves; the contents are kept and re-laid from slot 0; when the array was under a quarter full, the end slot lies inside the new buffer |
| CircularArray.CircularDynamicArray.AddEnd | CircularDynamicArray/CircularDynamicArray/CircularDynamicArray.cpp:207-217 | the contents gain the element at the back; a full array first doubles, otherwise the buffer and front stay |
| CircularArray.CircularDynamicArray.AddFront | CircularDynamicArray/CircularDynamicArray/CircularDynamicArray.cpp:220-236 | the contents gain the element at the front; an empty array goes through addEnd, a full one doubles first, otherwise the front steps back one slot with wrap-around |
| CircularArray.CircularDynamicArray.PrependInPlace | CircularDynamicArray/CircularDynamicArray/CircularDynamicArray.cpp:233-235 | in a non-full, non-empty array, the front moves back one slot (wrapping) and the element is stored there |
| CircularArray.CircularDynamicArray.DelEnd | CircularDynamicArray/CircularDynamicArray/CircularDynamicArray.cpp:239-254 | an empty array is unchanged; otherwise the last element goes, and the capacity halves exactly when fewer than a quarter of the old capacity remain |
| CircularArray.CircularDynamicArray.DelFront | CircularDynamicArray/CircularDynamicArray/CircularDynamicArray.cpp:257-272 | an empty array is unchanged; otherwise the first element goes, the front steps forward with wrap-around, and the capacity halves exactly when fewer than a quarter remain |
| CircularArray.CircularDynamicArray.Clear | CircularDynamicArray/CircularDynamicArray/CircularDynamicArray.cpp:295-303 | a fresh buffer of capacity 2 that still reports two elements, with endIndex one past the buffer |
| CircularArray.CircularDynamicArray.ClearCompletely | CircularDynamicArray/CircularDynamicArray/CircularDynamicArray.cpp:306-313 | a fresh, empty buffer of capacity 2 |
| CircularArray.CopyOfFullThenDelFront | CircularDynamicArray/CircularDynamicArray/CircularDynamicArray.cpp:101-110 | copying a full array of 4 and deleting at the front leaves 3 elements with endIndex 4 = capacity, where addEnd would write outside the buffer |
| CircularArray.ClearThenDelFront | CircularDynamicArray/CircularDynamicArray/CircularDynamicArray.cpp:295-303 | clear and then delFront leave 1 element with endIndex 2 = capacity, where addEnd would write outside the buffer |
| CircularArray.CircularDynamicArray.CopyCorrected | CircularDynamicArray/CircularDynamicArray/CircularDynamicArray.cpp:101-110 | the copy has the same contents and capacity, and its end index is a slot of the buffer |
| CircularArray.CircularDynamicArray.AssignCorrected | CircularDynamicArray/CircularDynamicArray/CircularDynamicArray.cpp:113-129 | assignment as written, but the end index is a slot of the buffer, so addEnd stays in bounds after any later deletion |
| CircularArray.CircularDynamicArray.ClearCorrected | CircularDynamicArray/CircularDynamicArray/CircularDynamicArray.cpp:295-303 | clear as written (two elements, capacity 2), but with the end index wrapped to slot 0 |
| SortingSpec.SortedOf | CircularDynamicArray/CircularDynamicArray/CircularDynamicArray.cpp:483-487 | the reference ordering of a sequence: sorted and a permutation of it |
| SortingSpec.SortedOfUnique | CircularDynamicArray/CircularDynamicArray/CircularDynamicArray.cpp:483-487 | any sorted permutation of s equals SortedOf(s), so every correct sort gives the same result |
| SortingSpec.MergeSeqSorted | CircularDynamicArray/CircularDynamicArray/CircularDynamicArray.cpp:514-542 | merging two sorted runs gives a sorted run |
| SortingSpec.MergeSeqMultiset | CircularDynamicArray/CircularDynamicArray/CircularDynamicArray.cpp:514-542 | merging keeps every element of both runs |
| SortingSpec.MergeSeqLeftFirst | CircularDynamicArray/CircularDynamicArray/CircularDynamicArray.cpp:516-521 | when no left element exceeds a right one, merging is concatenation: ties go to the left run, which makes the sort stable |
| SortingSpec.SelectLemma | CircularDynamicArray/CircularDynamicArray/CircularDynamicArray.cpp:320-323 | an element with only smaller-or-equal elements before it and larger-or-equal after it, in a permutation of s, is the k-th smallest of s |
| SortingSpec.MaximumIsLast | CircularDynamicArray/CircularDynamicArray/CircularDynamicArray.cpp:349-360 | the largest element of s is the last of its sorted arrangement, so it has the highest rank in s |
| Selection.PartitionAround | CircularDynamicArray/CircularDynamicArray/CircularDynamicArray.cpp:428-442 | the common partition loop: the range is permuted, and the old rightmost element ends at the returned index with everything before it below the pivot and everything after it at least the pivot |
| Selection.LomutoStep | CircularDynamicArray/CircularDynamicArray/CircularDynamicArray.cpp:433-440 | one round of the partition loop keeps the loop state: the range is still a rearrangement, elements below the pivot are gathered before p, and the rest of the scanned part lies after p |
| Selection.Partition | CircularDynamicArray/CircularDynamicArray/CircularDynamicArray.cpp:428-442 | partition around the rightmost element: it lands at the returned index, with strictly smaller elements to its left and larger-or-equal to its right, inside a permutation of the range |
| Selection.PartitionValue | CircularDynamicArray/CircularDynamicArray/CircularDynamicArray.cpp:445-468 | partition around a value: elements left of the index are below it and those right of it at least it; when the value occurs in the range it lands at the index |
| Selection.QsRecursive | CircularDynamicArray/CircularDynamicArray/CircularDynamicArray.cpp:326-342 | the range is permuted so that position k holds an element no smaller than anything before it and no larger than anything after it, and that element is returned |
| Selection.SelectWhole | CircularDynamicArray/CircularDynamicArray/CircularDynamicArray.cpp:320-323 | an element selected at k in a rearrangement of the whole sequence is the element of rank k |
| Selection.QuickSelect | CircularDynamicArray/CircularDynamicArray/CircularDynamicArray.cpp:320-323 | returns the k-th smallest element (1-based) of the original contents, which are permuted |
| Selection.MediansRearranged | CircularDynamicArray/CircularDynamicArray/CircularDynamicArray.cpp:387 | sorting the medians keeps every one of them an element of the range |
| Selection.SortGroup | CircularDynamicArray/CircularDynamicArray/CircularDynamicArray.cpp:375-376 | sorting one group rearranges only the numElements elements from base, and the median it records is one of them |
| Selection.SortFullGroups | CircularDynamicArray/CircularDynamicArray/CircularDynamicArray.cpp:373-377 | the loop visits numElements / 5 groups; the numElements elements from base are rearranged among themselves, and every recorded median is one of them |
| Selection.SortLastGroup | CircularDynamicArray/CircularDynamicArray/CircularDynamicArray.cpp:380-384 | sorting the short last group keeps that group state and adds its median |
| Selection.SortMedians | CircularDynamicArray/CircularDynamicArray/CircularDynamicArray.cpp:387 | `mergeSort(medians, 0, i - 1)` keeps every median an element of the range |
| Selection.SortGroups | CircularDynamicArray/CircularDynamicArray/CircularDynamicArray.cpp:371-387 | the group phase rearranges only the numElements elements from base and yields at least one median, each of them one of those elements |
| Selection.WcRecursive | CircularDynamicArray/CircularDynamicArray/CircularDynamicArray.cpp:364-420 | the contents are permuted and the element returned is the one now at index k; when k exceeds the width of the range, nothing moves |
| Selection.WcRecursiveComparesAbsoluteK | CircularDynamicArray/CircularDynamicArray/CircularDynamicArray.cpp:364-420 | on [1, 2, 0, 3, 5, 4], wcRecursive(4, 5, 5) returns 4, which is not selected at 5 within [4, 5] |
| Selection.SixthSmallest | CircularDynamicArray/CircularDynamicArray/CircularDynamicArray.cpp:349-360 | the sixth smallest of [1, 2, 0, 3, 5, 4] is 5 |
| Selection.PartitionOnMedians | CircularDynamicArray/CircularDynamicArray/CircularDynamicArray.cpp:369-396 | with the groups taken from left, the median of medians is an element of the range and ends at the returned index, with smaller elements before it and the rest after it |
| Selection.WcRecursiveCorrected | CircularDynamicArray/CircularDynamicArray/CircularDynamicArray.cpp:364-409 | the corrected recursion: the range is permuted and the element at k is selected within it and returned |
| Selection.WCSelectCorrected | CircularDynamicArray/CircularDynamicArray/CircularDynamicArray.cpp:349-360 | the corrected select returns the k-th smallest element of the original contents, which are permuted |
| Selection.WCSelect | CircularDynamicArray/CircularDynamicArray/CircularDynamicArray.cpp:349-360 | the contents are permuted and the element returned is the one now at index k - 1 |
| MergeSorting.Merge | CircularDynamicArray/CircularDynamicArray/CircularDynamicArray.cpp:508-549 | the range becomes the merge of its two old runs, and everything outside the range is unchanged |
| MergeSorting.MergeIntoTemp | CircularDynamicArray/CircularDynamicArray/CircularDynamicArray.cpp:511-542 | the temporary buffer ends up holding the merge of the two runs |
| MergeSorting.MergeHeads | CircularDynamicArray/CircularDynamicArray/CircularDynamicArray.cpp:514-528 | when the comparing loop stops, one run is exhausted, and the output so far plus what is left of both runs is the full merge |
| MergeSorting.MergeDrain | CircularDynamicArray/CircularDynamicArray/CircularDynamicArray.cpp:531-542 | a drain loop appends the rest of one run, in order |
| MergeSorting.WriteBack | CircularDynamicArray/CircularDynamicArray/CircularDynamicArray.cpp:545-548 | the copy-back loop puts the buffer in the range and leaves the rest of the array as it was |
| MergeSorting.MergedRange | CircularDynamicArray/CircularDynamicArray/CircularDynamicArray.cpp:499-502 | merging two sorted halves gives a sorted range that permutes the old range |
| MergeSorting.MergeSort | CircularDynamicArray/CircularDynamicArray/CircularDynamicArray.cpp:491-504 | the range is sorted and permuted; nothing outside it changes |
| MergeSorting.StableSort | CircularDynamicArray/CircularDynamicArray/CircularDynamicArray.cpp:483-487 | the contents become exactly SortedOf of the old contents |
| MergeSorting.MergeFlat | CircularDynamicArray/CircularDynamicArray/CircularDynamicArray.cpp:569-610 | the plain-array merge: the range becomes the merge of its two old runs, and the rest of the array is unchanged |
| MergeSorting.MergeFlatIntoTemp | CircularDynamicArray/CircularDynamicArray/CircularDynamicArray.cpp:572-603 | the temporary buffer ends up holding the merge of the two runs |
| MergeSorting.MergeFlatHeads | CircularDynamicArray/CircularDynamicArray/CircularDynamicArray.cpp:575-589 | when the comparing loop stops, one run is exhausted and the output plus the remains is the full merge |
| MergeSorting.MergeFlatDrain | CircularDynamicArray/CircularDynamicArray/CircularDynamicArray.cpp:592-603 | a drain loop appends the rest of one run |
| MergeSorting.MergeSortFlat | CircularDynamicArray/CircularDynamicArray/CircularDynamicArray.cpp:552-565 | the plain-array sort (used on the medians): the range is sorted and permuted |
| RadixSorting.Bit | CircularDynamicArray/CircularDynamicArray/CircularDynamicArray.cpp:635-636 | bit b of the 32-bit unsigned view of the element is 0 or 1 |
| RadixSorting.PassMultiset | CircularDynamicArray/CircularDynamicArray/CircularDynamicArray.cpp:629-657 | one counting pass on a bit permutes the elements, and the 0-bit and 1-bit groups cover them all |
| RadixSorting.PassSortedByLow | CircularDynamicArray/CircularDynamicArray/CircularDynamicArray.cpp:629-657 | a pass on bit b stably extends an order on the low b bits to an order on the low b + 1 bits |
| RadixSorting.RadixOfSorted | CircularDynamicArray/CircularDynamicArray/CircularDynamicArray.cpp:618-625 | after passes on bits 0 to n - 1, the elements are ordered by their low n bits |
| RadixSorting.RadixOfMultiset | CircularDynamicArray/CircularDynamicArray/CircularDynamicArray.cpp:618-625 | radix sorting permutes the elements |
| RadixSorting.RadixSortsSmallValues | CircularDynamicArray/CircularDynamicArray/CircularDynamicArray.cpp:618-625 | when every element lies in [0, 2^n), radix sorting on n bits gives exactly SortedOf |
| RadixSorting.CumulativeCounts | CircularDynamicArray/CircularDynamicArray/CircularDynamicArray.cpp:631-642 | count[0] is the number of elements with the bit clear; count[1] adds those with it set |
| RadixSorting.PlacedEnd | CircularDynamicArray/CircularDynamicArray/CircularDynamicArray.cpp:644-650 | once the backward placement loop has placed every element, the output is the stable 0-then-1 pass |
| RadixSorting.PlaceOne | CircularDynamicArray/CircularDynamicArray/CircularDynamicArray.cpp:645-649 | one backward step puts the element just below its bit's count and lowers that count |
| RadixSorting.Distribute | CircularDynamicArray/CircularDynamicArray/CircularDynamicArray.cpp:644-650 | the placement loop fills a fresh buffer with exactly the pass on that bit |
| RadixSorting.BitCountingSort | CircularDynamicArray/CircularDynamicArray/CircularDynamicArray.cpp:629-657 | the contents become the stable pass on bit b: elements with the bit clear first, each group in its old order |
| RadixSorting.RadixSort | CircularDynamicArray/CircularDynamicArray/CircularDynamicArray.cpp:618-625 | the contents become the passes on bits 0 to i - 1, in that order |
| Searching.LinearSearch | CircularDynamicArray/CircularDynamicArray/CircularDynamicArray.cpp:664-673 | returns the first index holding the key, or -1 exactly when the key is absent |
| Searching.BinSearchRecursive | CircularDynamicArray/CircularDynamicArray/CircularDynamicArray.cpp:683-695 | any index returned lies in the range and holds the key |
| Searching.BinSearchRecursiveComplete | CircularDynamicArray/CircularDynamicArray/CircularDynamicArray.cpp:683-695 | on sorted contents the search returns -1 exactly when the key is not in the range |
| Searching.BinSearch | CircularDynamicArray/CircularDynamicArray/CircularDynamicArray.cpp:677-680 | any index returned holds the key |
| Searching.BinSearchComplete | CircularDynamicArray/CircularDynamicArray/CircularDynamicArray.cpp:677-680 | on sorted contents binSearch returns -1 exactly when the key is absent |
| BinaryHeap.Quot | Heaps/CS201Phase3/Heap.cpp:137-139 | C++ integer division by a positive divisor: for x >= 0 the quotient r satisfies d*r <= x < d*r + d (rounding down), for x < 0 it satisfies d*r - d < x <= d*r (rounding toward zero) |
| BinaryHeap.ParentIndex | Heaps/CS201Phase3/Heap.cpp:137-139 | for i >= 1 the parent lies before i and has i as its left or right child; the root is its own parent |
| BinaryHeap.ParentOfChildren | Heaps/CS201Phase3/Heap.cpp:143-151 | the parent of either child of i is i |
| BinaryHeap.HeapRootLeast | Heaps/CS201Phase3/Heap.cpp:89-91 | in a heap the root's key is no larger than any key |
| BinaryHeap.Heap.constructor | Heaps/CS201Phase3/Heap.cpp:44-47 | an empty heap |
| BinaryHeap.Heap.Build | Heaps/CS201Phase3/Heap.cpp:50-66 | bottom-up build: a valid heap of size s holding exactly the s (key, value) pairs |
| BinaryHeap.Heap.Insert | Heaps/CS201Phase3/Heap.cpp:75-86 | the heap stays valid, grows by one, and its nodes gain exactly the new pair |
| BinaryHeap.Heap.SiftUp | Heaps/CS201Phase3/Heap.cpp:80-85 | the swap-with-parent loop turns a heap broken only at one node on its way up into a heap, keeping the nodes |
| BinaryHeap.Heap.PeakKey | Heaps/CS201Phase3/Heap.cpp:89-91 | the root's key, which is the least key in the heap; an empty heap gives the error element's key |
| BinaryHeap.Heap.PeakValue | Heaps/CS201Phase3/Heap.cpp:94-96 | the value stored with the least key; an empty heap gives the error element's value |
| BinaryHeap.Heap.ExtractMin | Heaps/CS201Phase3/Heap.cpp:99-113 | returns the least key; the heap stays valid, shrinks by one and loses exactly the root node |
| BinaryHeap.Heap.ReplaceRootByLast | Heaps/CS201Phase3/Heap.cpp:101-108 | delFront, then addFront of the last node, then delEnd, moves the last node to the root and otherwise keeps the order |
| BinaryHeap.LastToFrontMultiset | Heaps/CS201Phase3/Heap.cpp:101-108 | moving the last node to the root loses exactly the old root |
| BinaryHeap.Heap.Smallest | Heaps/CS201Phase3/Heap.cpp:117-127 | picks the node among i and its children with the least key, preferring i and then the left child on ties |
| BinaryHeap.Heap.Heapify | Heaps/CS201Phase3/Heap.cpp:116-133 | with both child subtrees heaps, the subtree at i becomes a heap with its family minimum on top; nodes are kept and nothing outside the subtree moves |
| BinomialHeap.MergeTrees | Heaps/CS201Phase3/BHeap.cpp:130-143 | the root with the smaller key (b1 on a tie) takes the other tree as its first child, and its degree rises by one |
| BinomialHeap.MergeTreesEntries | Heaps/CS201Phase3/BHeap.cpp:130-143 | linking keeps the entries of both trees |
| BinomialHeap.MergeTreesWellFormed | Heaps/CS201Phase3/BHeap.cpp:130-143 | linking two heap-ordered binomial trees of one degree gives one of the next degree |
| BinomialHeap.BinomialSize | Heaps/CS201Phase3/BHeap.cpp:130-143 | a binomial tree of degree d holds 2^d entries |
| BinomialHeap.FixEntries | Heaps/CS201Phase3/BHeap.cpp:115-127 | the fixing loop keeps every entry of the heap |
| BinomialHeap.FixWellFormed | Heaps/CS201Phase3/BHeap.cpp:115-127 | the fixing loop keeps every root a heap-ordered binomial tree |
| BinomialHeap.FixAfterAppend | Heaps/CS201Phase3/BHeap.cpp:91-96 | appending a single node to roots of strictly decreasing degree and fixing gives strictly decreasing degrees again (binary carry) |
| BinomialHeap.InterleaveRoots | Heaps/CS201Phase3/BHeap.cpp:232-260 | merge's three loops keep every root of both lists |
| BinomialHeap.InterleaveEntries | Heaps/CS201Phase3/BHeap.cpp:232-260 | merge's loops keep every entry of both heaps |
| BinomialHeap.InterleaveNonIncreasing | Heaps/CS201Phase3/BHeap.cpp:234-246 | interleaving two lists of non-increasing degree gives a list of non-increasing degree |
| BinomialHeap.MergeCanRepeatDegree | Heaps/CS201Phase3/BHeap.cpp:229-264 | heaps with root degrees [2, 1, 0] and [1, 0] merge into roots of degrees [2, 1, 2], so merge does not restore distinct degrees |
| BinomialHeap.FirstMin | Heaps/CS201Phase3/BHeap.cpp:181-188 | the scan's index: no root has a smaller key, and every root before it has a larger one (the first minimum) |
| BinomialHeap.ForestLeast | Heaps/CS201Phase3/BHeap.cpp:168-176 | the first minimal root's key is no larger than any entry of the heap |
| BinomialHeap.Removed | Heaps/CS201Phase3/BHeap.cpp:279-284 | removing index i shifts every later root down one place |
| BinomialHeap.RemovedEntries | Heaps/CS201Phase3/BHeap.cpp:279-284 | removing a root loses exactly the entries of that tree |
| BinomialHeap.InsertFacts | Heaps/CS201Phase3/BHeap.cpp:99-103 | appending a tree and fixing keeps the roots well formed, adds exactly the tree's entries, and keeps degrees distinct for a single node |
| BinomialHeap.BHeap.constructor | Heaps/CS201Phase3/BHeap.cpp:56-57 | an empty heap |
| BinomialHeap.BHeap.Build | Heaps/CS201Phase3/BHeap.cpp:60-65 | inserting the s pairs one by one gives a valid heap with exactly those entries and strictly decreasing root degrees |
| BinomialHeap.BHeap.ArrayLength | Heaps/CS201Phase3/BHeap.cpp:297-299 | the number of roots |
| BinomialHeap.BHeap.GetNodeByIndex | Heaps/CS201Phase3/BHeap.cpp:287-289 | the root at index i |
| BinomialHeap.BHeap.Insert | Heaps/CS201Phase3/BHeap.cpp:91-96 | the heap stays valid, gains exactly the entry (k, v), and keeps root degrees strictly decreasing |
| BinomialHeap.BHeap.InsertTree | Heaps/CS201Phase3/BHeap.cpp:99-112 | inserting a tree appends it and fixes; the heap gains exactly its entries |
| BinomialHeap.BHeap.FixBHeap | Heaps/CS201Phase3/BHeap.cpp:115-127 | the roots become Fix of the old roots: right to left, each root equal in degree to its left neighbour is linked into that slot |
| BinomialHeap.BHeap.ShiftLeft | Heaps/CS201Phase3/BHeap.cpp:280-282 | the shifting loop moves each root after i down one place |
| BinomialHeap.BHeap.ShiftArrayDownAt | Heaps/CS201Phase3/BHeap.cpp:279-284 | the root list loses exactly index i, in order |
| BinomialHeap.BHeap.SmallestRoot | Heaps/CS201Phase3/BHeap.cpp:182-189 | the scan finds the first root of least key |
| BinomialHeap.BHeap.PeakKey | Heaps/CS201Phase3/BHeap.cpp:168-176 | the key of the first minimal root, which is no larger than any entry |
| BinomialHeap.BHeap.PeakValue | Heaps/CS201Phase3/BHeap.cpp:267-276 | the value of the first minimal root |
| BinomialHeap.BHeap.RemoveMinRoot | Heaps/CS201Phase3/BHeap.cpp:181-191 | the first minimal root is taken out of the root list, whose entries drop by exactly that tree's |
| BinomialHeap.BHeap.ExtractMin | Heaps/CS201Phase3/BHeap.cpp:179-226 | returns the least key; the heap stays valid and loses exactly the minimal root's entry, with that root's children merged back |
| BinomialHeap.ChildrenHeap | Heaps/CS201Phase3/BHeap.cpp:196-208 | inserting the children one by one gives a valid heap holding exactly their entries |
| BinomialHeap.InsertChild | Heaps/CS201Phase3/BHeap.cpp:200-207 | one round of the loop inserts the next child, and the new heap holds exactly the entries of the children inserted so far |
| BinomialHeap.ForestEntriesSnoc | Heaps/CS201Phase3/BHeap.cpp:200-208 | each inserted child adds exactly its own entries |
| BinomialHeap.ExtractedEntries | Heaps/CS201Phase3/BHeap.cpp:191-216 | removing the root tree and merging back its children loses exactly the root's entry |
| BinomialHeap.AssignRoots | Heaps/CS201Phase3/BHeap.cpp:261 | the root array takes the merged list's contents, through the corrected assignment, and stays extendable by addEnd |
| BinomialHeap.BHeap.Merge | Heaps/CS201Phase3/BHeap.cpp:229-264 | the roots become Fix of the degree-ordered interleaving of both root lists; the entries are the union of both heaps' |
| BinomialHeap.MergeRoots | Heaps/CS201Phase3/BHeap.cpp:230-260 | the temporary array holds exactly the interleaving of both root lists |
| BinomialHeap.InterleaveHeads | Heaps/CS201Phase3/BHeap.cpp:232-246 | when the first loop stops one list is exhausted, and the output plus the interleaving of the rest is the full interleaving |
| BinomialHeap.InterleaveStep | Heaps/CS201Phase3/BHeap.cpp:235-245 | one round takes the root of larger-or-equal degree, from this heap on a tie |
| BinomialHeap.AppendRoots | Heaps/CS201Phase3/BHeap.cpp:248-260 | a remaining-roots loop appends the rest of one list in order |
| BinomialHeap.InterleaveRest | Heaps/CS201Phase3/BHeap.cpp:248-260 | once one list is empty, the interleaving is plain concatenation |

## Left out

- Console output (`print`, `printKey`, `traversePrintTree`, the error messages) is not modelled.
- Memory management is not modelled: destructors, `delete` of buffers and nodes, and leaks.
- The error element is a field returned by value. Writes through an out-of-range `operator[]` reference therefore change nothing, where the source would change its `errorElem`.
- The shrink test `m_length < m_capacity * .25` is in floating point. It is modelled as `4 * len < cap`, which agrees for every int.
- Integer widths are not modelled. Lengths, capacities and keys are unbounded, with one exception: radix sort views elements as 32-bit unsigned values (`x mod 2^32`).
- CircularArray.CircularDynamicArray.AddEnd: requires `EndWritable()`.
  - This means endIndex is a slot of the buffer, or the array is full.
  - In the source, any other state writes one past the buffer; see Findings.
- CircularArray.CircularDynamicArray.GetElement: requires an in-range logical index. The source reads an unchecked slot for other indices, and no caller in the model passes one.
- Selection.QuickSelect: requires 1 <= k <= length. The source recurses with an empty or inverted range otherwise.
- Selection.WCSelect: proves only that the contents are permuted and that the result is the element now at index k - 1, not that it is the k-th smallest. The source does not deliver the k-th smallest (see Findings):
  - wcRecursive compares the absolute index k with the width of the range, `k <= right - left + 1` (C:367). Once a sub-range lies far enough right, the recursion skips the median step and returns `getElement(k)` unsorted.
  - It also sorts the groups from index 0 rather than from `left` (C:373-384). In a sub-range, this moves elements across the range's border, and the median of medians need not be an element of the range.
  - `WCSelectCorrected` is the version proved to return the k-th smallest.
- Selection.WcRecursive: requires left <= k <= right. The fallback branches are modelled as written but are only reached under that requirement. The k out of range case of WCSelect is not modelled.
- RadixSorting.RadixSort: requires i <= 32. Shifting a 32-bit unsigned value by 32 or more is undefined in C++.
- BinaryHeap.Heap.ExtractMin: requires a non-empty heap.
  - With one node, the source reads `array[-1]`, which gives the error element, and that node is the one it handles. The model does the same.
  - On an empty heap the source's size goes negative.
- BinaryHeap.Heap.Insert and BinaryHeap.Heap.Heapify: the source calls `array.swap(parentIndex(i), i)` (H:83) and `array.swap(i, smallest)` (H:130) on indices. Both are modelled as swapping the two logical elements, which is what the loops evidently do.
- BinomialHeap.BHeap.PeakKey, PeakValue and ExtractMin: require at least one root. On an empty heap the source reads `array[0]`, which is the error element (C:148). That element is a `BNode*` that no constructor sets (C:45, C:84-98). So `smallestNode->key` (B:169, B:182) dereferences an uninitialised pointer, which is undefined behaviour.
- BinomialHeap.MergeTrees: the source's `array.swap(b1, b2)` exchanges the two local pointers. It is modelled as choosing the tree with the smaller root (b1 on a tie) as the new root.
- BinomialHeap.BHeap.Merge: does not promise strictly decreasing root degrees.
  - The source's single right-to-left fixing pass over the interleaved roots can leave two trees of one degree apart (`MergeCanRepeatDegree`).
  - The entries, the well-formedness of each tree, and the minimum that `PeakKey` scans for are still proved.
- BinomialHeap.BHeap.ExtractMin: does not promise strictly decreasing degrees afterwards, for the same reason.
- Parent and sibling pointers of `BNode` are not modelled: a tree value owns its ordered children. The same goes for `RemovePointerAtIndex` (setting a slot of the other heap to null) and `BHeap::operator=`. Once a merge is done, the other heap is not used in the source.
- BinomialHeap.BHeap.Merge uses the corrected assignment (`AssignCorrected`) for `array = temp` (B:261), so the root list keeps its end index inside the buffer. In the binomial heap, the as-written `Assign` behaves the same way:
  - its only odd state is endIndex == capacity when temp is full;
  - `addEnd` grows first when the array is full (C:209-211);
  - `delEnd` maps endIndex capacity and 0 both to capacity - 1 (C:248);
  - the heap never calls `delFront`.
- CircularArray.CircularDynamicArray.WithSize, BinaryHeap.Heap.Build and BinomialHeap.BHeap.Build: require s >= 0. For a negative s, `new T[s]` throws (C:95), `Heap` stores the negative size (H:54), and `BHeap` builds an empty heap (B:62). No caller passes a negative size.
- Templates: the array algorithms are modelled for `int` elements, and keys are `int`.

## Findings

| source | as written | input that shows it | evidently intended | confidence | as-written member | corrected member |
|---|---|---|---|---|---|---|
| CircularDynamicArray/CircularDynamicArray/CircularDynamicArray.cpp:101-129 | the copy constructor and `operator=` set endIndex to the length, which equals the capacity when the other array is full | copy a full array of capacity 4, then `delFront()`; endIndex stays 4 with 3 elements, and the next `addEnd` writes `array[4]` | endIndex wrapped into the buffer (0 when full) | not executed | CircularArray.CopyOfFullThenDelFront | CircularArray.CircularDynamicArray.CopyCorrected |
| CircularDynamicArray/CircularDynamicArray/CircularDynamicArray.cpp:364-420 | wcRecursive tests `k <= right - left + 1`, the absolute k against the width of the range, and sorts its groups from index 0 | contents [1, 2, 3, 4, 5, 0], `WCSelect(6)`: the median of medians is 3, the partition gives [1, 2, 0, 3, 5, 4] with 3 at index 3, and `wcRecursive(4, 5, 5)` fails the test and returns `getElement(5)` = 4; the sixth smallest is 5 (`SixthSmallest`) | the test `left <= k <= right` and groups from `left`, so the k-th smallest is returned | not executed | Selection.WcRecursiveComparesAbsoluteK | Selection.WCSelectCorrected |
| CircularDynamicArray/CircularDynamicArray/CircularDynamicArray.cpp:295-303 | `clear()` sets endIndex to 2 in a buffer of capacity 2 | `clear()`, then `delFront()`; endIndex stays 2 with 1 element, and the next `addEnd` writes `array[2]` | endIndex 0, the slot after the two elements | not executed | CircularArray.ClearThenDelFront | CircularArray.CircularDynamicArray.ClearCorrected |
