# Binary heap of `algorithm9.rs`, modelled in Dafny

The repository implements a generic binary heap `Heap<T>`. It has three parts:

- a logical size `count`;
- a storage vector `items`;
- a comparator `comparator(a, b)` that is true when `a` ranks above `b`.

`add` pushes a value and sifts it up. It uses 1-based heap indices: slot `idx - 1`, with parent `idx / 2`.

`Iterator::next` extracts the root. It swaps the root with the last slot and `swap_remove`s that slot. Then it sifts down from storage index 0. The sift-down uses `2 * i` and `2 * i + 1` as the "children" of 0-based slot `i`. It only looks at a node when both of those slots exist, so a lone left child is ignored.

`new_min`, `new_max`, `MinHeap::new` and `MaxHeap::new` are factories. They pass `a < b` or `a > b` as the comparator.

The model has five modules:

- `HeapSpec` (`heap_spec.dfy`) holds the value-level specification on sequences:
  - `Vec::swap` and `Vec::swap_remove`;
  - the index helpers;
  - `smallest_child_idx`;
  - sift-up, sift-down and extraction as written;
  - the heap property;
  - the lemmas about all of these: permutation, heap preservation by insertion, and "the root is a best element".
- `BinaryHeap` (`heap.dfy`) holds class `Heap`. It has the fields `count`, `items` and `comparator`, and its recursive `HeapifyUp`/`HeapifyDown` methods are proved against `SiftUp`/`SiftDown`. `Next` is proved against `Extract`. The module also holds the factory classes `MinHeap` and `MaxHeap`.
- `TestOrder` (`heap_scenarios.dfy`) holds the tests' integer comparator `Less` and proves that `Greater(Less)` is exactly `a > b`.
- `HeapScenarios` (`heap_scenarios.dfy`) holds the three unit tests and the counterexample of the Findings run through the class. Each is written as client code of class `Heap`, and its expected outputs are proved only from the methods' contracts.
- `HeapFindings` (`heap_findings.dfy`) holds two things:
  - a concrete heap on which the as-written extraction breaks the heap property;
  - the evidently intended sift-down, proved to restore the heap property and to drain a heap in priority order.

The type's own `Ord` is a function parameter `less` that stands for `<`. The max-heap comparator `a > b` is `Greater(less)`, that is `less(b, a)`.

Properties of the comparator appear as premises where the results need them:

- `Irreflexive` makes sift-down terminate. From the root, the chosen "child" can be slot 0 itself.
- `StrictWeakOrder` is needed for the heap-order results. `<` and `>` on a total order satisfy both.

Class `Heap` keeps the sift-down exactly as the code has it, because it models the code. The corrected sift-down is used by `HeapFindings.FixedExtract` and `HeapFindings.FixedDrain`.

## Model

| member | source | states |
|---|---|---|
| HeapSpec.Swap | exercises/algorithm/algorithm9.rs:50 | `Vec::swap`: same length; slots `i` and `j` exchanged; every other slot unchanged |
| HeapSpec.SwapKeepsMultiset | exercises/algorithm/algorithm9.rs:50 | a swap keeps the values held, with their multiplicities |
| HeapSpec.SwapRemove | exercises/algorithm/algorithm9.rs:131 | `Vec::swap_remove(i)`: returns slot `i`; the vector is one shorter; removing the last slot is a plain truncation; otherwise the old last value fills slot `i` and every other slot is unchanged |
| HeapSpec.SwapRemoveKeepsMultiset | exercises/algorithm/algorithm9.rs:131 | `swap_remove` loses exactly the value it returns |
| HeapSpec.ParentIdx | exercises/algorithm/algorithm9.rs:68-70 | `parent_idx`: the parent `p` of heap index `idx` satisfies `2p <= idx <= 2p + 1` |
| HeapSpec.LeftChildIdx | exercises/algorithm/algorithm9.rs:76-78 | `left_child_idx`: an even index whose parent is `idx` |
| HeapSpec.RightChildIdx | exercises/algorithm/algorithm9.rs:80-82 | `right_child_idx`: the left child plus one, also with parent `idx` |
| HeapSpec.ChildrenPresent | exercises/algorithm/algorithm9.rs:72-74 | `children_present` holds exactly when the right child `2 * idx + 1` is a storage position; needs `count >= 1` because of `count - 1` |
| HeapSpec.SmallestChildIdx | exercises/algorithm/algorithm9.rs:84-97 | `None` exactly when slot `2 * idx + 1` is missing, so a lone child is ignored; otherwise an in-range index whose parent is `idx`; it is the left one exactly when the comparator ranks left above right |
| HeapSpec.SmallestChildIsBestOfPair | exercises/algorithm/algorithm9.rs:84-97 | under a strict weak ordering, neither slot of the pair ranks above the chosen one |
| HeapSpec.SiftUp | exercises/algorithm/algorithm9.rs:47-53 | `heapify_up` on storage keeps its length |
| HeapSpec.SiftUpKeepsMultiset | exercises/algorithm/algorithm9.rs:47-53 | sift-up only permutes the storage |
| HeapSpec.SiftUpStep | exercises/algorithm/algorithm9.rs:49-51 | one swap of a slot that outranks its parent moves the single heap defect up to the parent |
| HeapSpec.SiftUpRestoresHeap | exercises/algorithm/algorithm9.rs:47-53 | sift-up from a slot whose only defect is with its parent yields a heap |
| HeapSpec.InsertKeepsHeap | exercises/algorithm/algorithm9.rs:39-45 | appending a value to a heap and sifting it up from the new last index yields a heap |
| HeapSpec.RootNotOutranked | exercises/algorithm/algorithm9.rs:125-140 | in a heap, no slot ranks above the root |
| HeapSpec.RootIsBest | exercises/algorithm/algorithm9.rs:125-140 | the root of a non-empty heap is a best value among all values held |
| HeapSpec.SiftDown | exercises/algorithm/algorithm9.rs:55-66 | `heapify_down` on storage keeps its length; terminates because the comparator is irreflexive |
| HeapSpec.SiftDownKeepsMultiset | exercises/algorithm/algorithm9.rs:55-66 | sift-down only permutes the storage |
| HeapSpec.SiftDownSwapsOnlyWhenOutranked | exercises/algorithm/algorithm9.rs:57-62 | the storage changes only if the chosen child is another slot and ranks strictly above slot `idx` |
| HeapSpec.Extract | exercises/algorithm/algorithm9.rs:125-140 | `next` on storage: `None` and nothing changed when empty; otherwise `Some` of the old root and one value fewer |
| HeapSpec.ExtractKeepsMultiset | exercises/algorithm/algorithm9.rs:130-137 | extraction loses exactly the root it returns |
| HeapSpec.ExtractFromHeapIsBest | exercises/algorithm/algorithm9.rs:125-140 | the value extracted from a heap ranks at least as high as every value held |
| BinaryHeap.Heap.constructor | exercises/algorithm/algorithm9.rs:23-29 | `Heap::new`: count 0, empty storage, the given comparator |
| BinaryHeap.Heap.Len | exercises/algorithm/algorithm9.rs:31-33 | `len` is the number of values held |
| BinaryHeap.Heap.IsEmpty | exercises/algorithm/algorithm9.rs:35-37 | `is_empty` holds exactly when no value is held |
| BinaryHeap.Heap.Add | exercises/algorithm/algorithm9.rs:39-45 | count grows by one; the storage is `SiftUp` of the old storage plus the value; the multiset grows by exactly the value; a heap stays a heap under a strict weak ordering |
| BinaryHeap.Heap.HeapifyUp | exercises/algorithm/algorithm9.rs:47-53 | the recursive method leaves exactly `SiftUp` of the old storage and changes nothing else |
| BinaryHeap.Heap.HeapifyDown | exercises/algorithm/algorithm9.rs:55-66 | the recursive method leaves exactly `SiftDown` of the old storage and changes nothing else |
| BinaryHeap.Heap.Next | exercises/algorithm/algorithm9.rs:125-140 | result and new storage are `Extract` of the old storage; empty: `None` and nothing changes; otherwise the old root, count down by one, exactly that value removed; from a heap the result ranks at least as high as every value held |
| BinaryHeap.Heap.NewMin | exercises/algorithm/algorithm9.rs:108-111 | `new_min`: an empty heap ordered by `a < b` |
| BinaryHeap.Heap.NewMax | exercises/algorithm/algorithm9.rs:113-116 | `new_max`: an empty heap ordered by `a > b` |
| BinaryHeap.GreaterIsStrictWeakOrder | exercises/algorithm/algorithm9.rs:113-116 | the converse of a strict weak ordering is one too, so the max-heap results apply |
| BinaryHeap.MinHeap.New | exercises/algorithm/algorithm9.rs:145-153 | `MinHeap::new`: an empty heap ordered by `a < b` |
| BinaryHeap.MaxHeap.New | exercises/algorithm/algorithm9.rs:157-165 | `MaxHeap::new`: an empty heap ordered by `a > b` |
| HeapScenarios.ExtractUnfold | exercises/algorithm/algorithm9.rs:130-137 | with two or more values, extraction returns slot 0 and sifts down the old last value placed in front of slots `1 .. count - 2` |
| HeapScenarios.ExtractOfTwo | exercises/algorithm/algorithm9.rs:125-140 | extraction from two values returns the first and leaves the second |
| HeapScenarios.ExtractOfThree | exercises/algorithm/algorithm9.rs:125-140 | extraction from `[x, y, z]` returns `x` and sifts down `[z, y]` |
| HeapScenarios.ExtractOfFour | exercises/algorithm/algorithm9.rs:125-140 | extraction from `[w, x, y, z]` returns `w` and sifts down `[z, x, y]` |
| HeapScenarios.SiftUpStays | exercises/algorithm/algorithm9.rs:47-53 | a new last value that does not rank above its parent stays put |
| HeapScenarios.SiftUpSwapsRoot | exercises/algorithm/algorithm9.rs:47-53 | a second value that ranks above the root trades places with it |
| HeapScenarios.SiftUpThird | exercises/algorithm/algorithm9.rs:47-53 | a third value that ranks above the root trades places with it |
| HeapScenarios.SiftUpFourthToRoot | exercises/algorithm/algorithm9.rs:47-53 | a fourth value that ranks above its parent and the root rises to the root in two swaps |
| HeapScenarios.SiftDownOfThree | exercises/algorithm/algorithm9.rs:55-66 | from `[x, y, z]`, when `y` ranks above `x`, the root trades with slot 1 and stops |
| HeapScenarios.SiftDownOfTwo | exercises/algorithm/algorithm9.rs:55-66 | from `[x, y]`, when `x` ranks above `y`, the chosen "child" is slot 0 itself and nothing moves |
| HeapScenarios.AddKnown | exercises/algorithm/algorithm9.rs:39-45 | an `add` leaves exactly the storage that `SiftUp` predicts |
| HeapScenarios.NextKnown | exercises/algorithm/algorithm9.rs:125-140 | a `next` returns and leaves exactly what `Extract` predicts |
| HeapScenarios.EmptyHeapScenario | exercises/algorithm/algorithm9.rs:171-174 | `test_empty_heap`: a fresh max-heap yields `None`, and again `None` |
| HeapScenarios.MinHeapScenario | exercises/algorithm/algorithm9.rs:177-194 | `test_min_heap`: after adding 4, 2, 9, 11 the length is 4; the extractions yield 2, 4, 9; after adding 1 the next one yields 1 |
| HeapScenarios.MinHeapExtractions | exercises/algorithm/algorithm9.rs:185-193 | the extraction half of `test_min_heap`, from storage `[2, 4, 9, 11]` |
| HeapScenarios.MaxHeapScenario | exercises/algorithm/algorithm9.rs:197-209 | `test_max_heap`: after adding 4, 2, 9, 11 the length is 4; the extractions yield 11, 9, 4; after adding 1 the next one yields 2 |
| HeapScenarios.AsWrittenCounterexampleScenario | exercises/algorithm/algorithm9.rs:125-140 | through class `Heap`: adding 1, 5, 2, 10 to a min-heap, the first `next` yields 1 and the second yields 5 while the smaller 2 is still held |
| HeapScenarios.MaxHeapExtractions | exercises/algorithm/algorithm9.rs:204-208 | the extraction half of `test_max_heap`, from storage `[11, 9, 4, 2]` |
| TestOrder.LessIsStrictWeakOrder | exercises/algorithm/algorithm9.rs:110 | integer `<`, the comparator of `new_min`, is a strict weak ordering |
| TestOrder.GreaterOfLessIsGreaterThan | exercises/algorithm/algorithm9.rs:163 | the max-heap comparator built from integer `<` is exactly `a > b` on every pair |
| HeapFindings.ExampleIsHeap | exercises/algorithm/algorithm9.rs:125-140 | the storage `[1, 5, 2, 10]` is a min-heap, so the extraction from it starts from a valid heap |
| HeapFindings.FirstRemoveExample | exercises/algorithm/algorithm9.rs:130-131 | swapping the root of `[1, 5, 2, 10]` to the end and removing it returns 1 and leaves `[10, 5, 2]` |
| HeapFindings.FirstSiftDownExample | exercises/algorithm/algorithm9.rs:55-97 | sift-down of `[10, 5, 2]` from slot 0 leaves `[5, 10, 2]` |
| HeapFindings.SecondRemoveExample | exercises/algorithm/algorithm9.rs:130-131 | the same removal on `[5, 10, 2]` returns 5 and leaves `[2, 10]` |
| HeapFindings.SecondSiftDownExample | exercises/algorithm/algorithm9.rs:55-97 | sift-down of `[2, 10]` chooses slot 0 itself and leaves it unchanged |
| HeapFindings.AsWrittenFirstExtractBreaksHeap | exercises/algorithm/algorithm9.rs:125-140 | as written, extraction from the heap `[1, 5, 2, 10]` returns 1 and leaves `[5, 10, 2]`, which is not a heap |
| HeapFindings.AsWrittenSecondExtractOutOfOrder | exercises/algorithm/algorithm9.rs:125-140 | the next extraction returns 5 while the higher-priority 2 is still held |
| HeapFindings.FixedSmallestChildIdx | exercises/algorithm/algorithm9.rs:84-97 | corrected child choice: `None` exactly when there is no child `2 * idx + 1`; otherwise a real child of `idx` |
| HeapFindings.FixedSmallestChildIsBest | exercises/algorithm/algorithm9.rs:84-97 | under a strict weak ordering, no child of `idx` ranks above the chosen one |
| HeapFindings.FixedSiftDown | exercises/algorithm/algorithm9.rs:55-66 | corrected sift-down keeps the length |
| HeapFindings.FixedSiftDownKeepsMultiset | exercises/algorithm/algorithm9.rs:55-66 | corrected sift-down only permutes the storage |
| HeapFindings.FixedSiftDownStep | exercises/algorithm/algorithm9.rs:59-61 | one corrected swap moves the single heap defect down to the chosen child |
| HeapFindings.FixedSiftDownRestoresHeap | exercises/algorithm/algorithm9.rs:55-66 | corrected sift-down from a slot whose only defect is with its children yields a heap |
| HeapFindings.FixedExtract | exercises/algorithm/algorithm9.rs:125-140 | corrected `next`: `None` when empty; otherwise the old root and one value fewer |
| HeapFindings.FixedExtractKeepsMultiset | exercises/algorithm/algorithm9.rs:125-140 | corrected extraction loses exactly the root it returns |
| HeapFindings.FixedExtractKeepsHeap | exercises/algorithm/algorithm9.rs:125-140 | from a heap, corrected extraction returns a best value and leaves a heap |
| HeapFindings.FixedDrain | exercises/algorithm/algorithm9.rs:119-140 | iterating the corrected heap to exhaustion yields as many values as it held |
| HeapFindings.SortedCons | exercises/algorithm/algorithm9.rs:119-140 | a value that no later value outranks, put in front of a sorted sequence, keeps it sorted |
| HeapFindings.FixedDrainIsSortedPermutation | exercises/algorithm/algorithm9.rs:119-140 | draining a heap with the corrected extraction yields its values in priority order, as a permutation |

## Left out

- Debug output is not modelled, because it is output only. This covers:
  - the `println!` calls in `add` and `smallest_child_idx` (lines 40, 88);
  - method `print` (lines 99-101) and its calls in `add`, `heapify_down` and `next` (lines 44, 56, 134, 136);
  - the `heap.print` calls in the body of `test_min_heap` (lines 183, 186, 188, 190, 192), which the scenarios leave out.
- The bounds `T: Default + Debug` are dropped. The algorithm never uses a default value, and `Debug` serves only the debug output.
- `T: Ord` becomes a parameter `less` of the factories, standing for the type's `<`. `Greater(less)` stands for `>`.
- `usize` arithmetic is unbounded `nat`. The overflow of `idx * 2` is not modelled.
- The `count - 1` in `children_present` would underflow (and panic) at count 0. `HeapSpec.ChildrenPresent`, `HeapSpec.SmallestChildIdx` and `HeapSpec.SiftDown` require `count >= 1`. The code only sifts down when count > 0.
- `Vec` capacity and reallocation, and the `Iterator` adaptors other than `next`, are not modelled.
- Recursion depth (stack use) of `heapify_up`/`heapify_down` is not modelled.
- BinaryHeap.Heap.Next: requires an irreflexive comparator, and so do `HeapifyDown`, `SiftDown` and `Extract`. With a comparator that ranks a value above itself, `heapify_down(0)` can choose slot 0 as its own child and recurse forever. This is possible because `Heap::new` accepts any comparator, and the model does not capture that non-termination.
- BinaryHeap.Heap.Add: heap preservation is stated only for a comparator that is a strict weak ordering. For any other comparator the heap property is not defined meaningfully.
- BinaryHeap.Heap.Next: "extraction yields values in priority order" is not claimed for the code as written, because it is false. See Findings. It is proved for the corrected extraction in `HeapFindings`.
- The class `Heap` keeps the as-written sift-down, so it is faithful to the code. The corrected sift-down is a value-level function in `HeapFindings`, not a method of the class.

## Findings

`heapify_up` treats storage slot `k` as a child of slot `(k - 1) / 2`. `heapify_down` treats slots `2i` and `2i + 1` as the children of slot `i`, and it skips a lone left child. So extraction from a valid heap can leave a storage that is not a heap. The repository's own tests happen to avoid such inputs.

| source | as written | input that shows it | evidently intended | confidence | as-written member | corrected member |
|---|---|---|---|---|---|---|
| exercises/algorithm/algorithm9.rs:72-97 | children of 0-based slot `i` are taken as `2i` and `2i + 1`, and only when `2i < count - 1`, so a lone child is ignored | min-heap after `add` 1, 5, 2, 10 (storage `[1, 5, 2, 10]`, a heap): the first `next` returns 1 and leaves `[5, 10, 2]`; the second `next` returns 5 while 2 is still held | children `2i + 1` and `2i + 2`, with a lone left child compared too, so extraction keeps the heap property and yields values in priority order | not executed | HeapScenarios.AsWrittenCounterexampleScenario | HeapFindings.FixedDrainIsSortedPermutation |
