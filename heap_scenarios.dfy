/**
 * The unit tests of exercises/algorithm/algorithm9.rs as client code of
 * class `BinaryHeap.Heap`: each scenario is proved from the contracts of
 * the heap's methods alone.
 */
/**
 * The comparators the unit tests of exercises/algorithm/algorithm9.rs use:
 * `i32`'s own `<`, and the `>` that `new_max` and `MaxHeap::new` build.
 */
module TestOrder {
  import opened HeapSpec
  import opened BinaryHeap

  /** `a < b` on integers, the order `new_min` and `MinHeap::new` use. */
  function Less(a: int, b: int): (r: bool) {
    a < b
  }

  lemma LessIsStrictWeakOrder()
    ensures StrictWeakOrder(Less)
  {
  }

  /** The max-heap comparator built from `Less` is the source's `a > b`. */
  lemma GreaterOfLessIsGreaterThan()
    ensures forall a: int, b: int :: Greater(Less)(a, b) <==> a > b
  {
  }
}

module HeapScenarios {
  import opened HeapSpec
  import opened BinaryHeap
  import opened HeapFindings
  import opened TestOrder

  // ---------------------------------------------------------------------
  // Single steps of the scenarios, one function unfolding at a time

  /** Extraction moves the last value to the root before sifting down. */
  lemma ExtractUnfold<T(!new)>(s: seq<T>, cmp: (T, T) -> bool)
    requires Irreflexive(cmp) && |s| >= 2
    ensures Extract(s, cmp) == (Some(s[0]), SiftDown([s[|s| - 1]] + s[1..|s| - 1], 0, cmp))
  {
    var last := |s| - 1;
    assert SwapRemove(Swap(s, 0, last), last).1 == [s[last]] + s[1..last];
  }

  /** Extraction from two values leaves the second one. */
  lemma ExtractOfTwo<T(!new)>(s: seq<T>, cmp: (T, T) -> bool)
    requires Irreflexive(cmp) && |s| == 2
    ensures Extract(s, cmp) == (Some(s[0]), [s[1]])
  {
    ExtractUnfold(s, cmp);
    assert [s[1]] + s[1..1] == [s[1]];
  }

  /** Sift-up of a new last value that does not outrank its parent stops. */
  lemma SiftUpStays<T>(s: seq<T>, cmp: (T, T) -> bool)
    requires |s| >= 2 && !cmp(s[|s| - 1], s[|s| / 2 - 1])
    ensures SiftUp(s, |s|, cmp) == s
  {
  }

  /** Sift-up at index 2 whose value outranks the root swaps the two. */
  lemma SiftUpSwapsRoot<T>(x: T, y: T, cmp: (T, T) -> bool)
    requires cmp(y, x)
    ensures SiftUp([x, y], 2, cmp) == [y, x]
  {
    assert Swap([x, y], 1, 0) == [y, x];
  }

  /** Sift-up at index 3 whose value outranks the root swaps the two. */
  lemma SiftUpThird<T>(x: T, y: T, z: T, cmp: (T, T) -> bool)
    requires cmp(z, x)
    ensures SiftUp([x, y, z], 3, cmp) == [z, y, x]
  {
    assert Swap([x, y, z], 2, 0) == [z, y, x];
  }

  /** Sift-up at index 4 whose value outranks its parent and the root. */
  lemma SiftUpFourthToRoot<T>(w: T, x: T, y: T, z: T, cmp: (T, T) -> bool)
    requires cmp(z, x) && cmp(z, w)
    ensures SiftUp([w, x, y, z], 4, cmp) == [z, w, y, x]
  {
    assert Swap([w, x, y, z], 3, 1) == [w, z, y, x];
    assert Swap([w, z, y, x], 1, 0) == [z, w, y, x];
  }

  /** Extraction from three or four values, by the storage it sifts down. */
  lemma ExtractOfFour<T(!new)>(w: T, x: T, y: T, z: T, cmp: (T, T) -> bool)
    requires Irreflexive(cmp)
    ensures Extract([w, x, y, z], cmp) == (Some(w), SiftDown([z, x, y], 0, cmp))
  {
    var s := [w, x, y, z];
    ExtractUnfold(s, cmp);
    assert [s[3]] + s[1..3] == [z, x, y];
  }

  lemma ExtractOfThree<T(!new)>(x: T, y: T, z: T, cmp: (T, T) -> bool)
    requires Irreflexive(cmp)
    ensures Extract([x, y, z], cmp) == (Some(x), SiftDown([z, y], 0, cmp))
  {
    var s := [x, y, z];
    ExtractUnfold(s, cmp);
    assert [s[2]] + s[1..2] == [z, y];
  }

  /** Sift-down of three values whose slot 1 outranks slot 0 swaps them. */
  lemma SiftDownOfThree<T(!new)>(x: T, y: T, z: T, cmp: (T, T) -> bool)
    requires Irreflexive(cmp) && !cmp(x, y) && cmp(y, x)
    ensures SiftDown([x, y, z], 0, cmp) == [y, x, z]
  {
    assert SmallestChildIdx([x, y, z], 0, cmp) == Some(1);
    assert Swap([x, y, z], 1, 0) == [y, x, z];
    assert SmallestChildIdx([y, x, z], 1, cmp) == None;
  }

  /** Sift-down of two values whose slot 0 outranks slot 1 leaves them. */
  lemma SiftDownOfTwo<T(!new)>(x: T, y: T, cmp: (T, T) -> bool)
    requires Irreflexive(cmp) && cmp(x, y)
    ensures SiftDown([x, y], 0, cmp) == [x, y]
  {
    assert SmallestChildIdx([x, y], 0, cmp) == Some(0);
  }

  /** `test_empty_heap`: a fresh max-heap yields `None`, and keeps doing so. */
  method EmptyHeapScenario() returns (first: Option<int>, again: Option<int>)
    ensures first == None && again == None
  {
    var heap := MaxHeap.New(Less);
    first := heap.Next();
    again := heap.Next();
  }

  /** One `add` on a heap whose sift-up is known. */
  method AddKnown(heap: Heap<int>, value: int, after: seq<int>)
    requires heap.Valid()
    requires SiftUp(heap.items + [value], |heap.items| + 1, heap.comparator) == after
    modifies heap
    ensures heap.Valid() && heap.items == after
  {
    heap.Add(value);
  }

  /**
   * `test_min_heap`: add 4, 2, 9, 11; the length is 4 and extraction yields
   * 2, 4, 9; after adding 1 the next extraction yields 1.
   */
  method MinHeapScenario() returns (len: nat, out: seq<Option<int>>)
    ensures len == 4 && out == [Some(2), Some(4), Some(9), Some(1)]
  {
    var heap := MinHeap.New(Less);
    AddKnown(heap, 4, [4]);
    SiftUpSwapsRoot(4, 2, Less);
    AddKnown(heap, 2, [2, 4]);
    SiftUpStays([2, 4, 9], Less);
    AddKnown(heap, 9, [2, 4, 9]);
    SiftUpStays([2, 4, 9, 11], Less);
    AddKnown(heap, 11, [2, 4, 9, 11]);
    len := heap.Len();
    out := MinHeapExtractions(heap);
  }

  /** One `next` on a heap whose extraction is known. */
  method NextKnown(heap: Heap<int>, x: int, rest: seq<int>) returns (r: Option<int>)
    requires heap.Valid() && Irreflexive(heap.comparator)
    requires Extract(heap.items, heap.comparator) == (Some(x), rest)
    modifies heap
    ensures heap.Valid() && heap.items == rest && r == Some(x)
  {
    r := heap.Next();
  }

  method MinHeapExtractions(heap: Heap<int>) returns (out: seq<Option<int>>)
    requires heap.Valid() && heap.items == [2, 4, 9, 11] && heap.comparator == Less
    modifies heap
    ensures out == [Some(2), Some(4), Some(9), Some(1)]
  {
    ExtractOfFour(2, 4, 9, 11, Less);
    SiftDownOfThree(11, 4, 9, Less);
    var x1 := NextKnown(heap, 2, [4, 11, 9]);
    ExtractOfThree(4, 11, 9, Less);
    SiftDownOfTwo(9, 11, Less);
    var x2 := NextKnown(heap, 4, [9, 11]);
    ExtractOfTwo([9, 11], Less);
    var x3 := NextKnown(heap, 9, [11]);
    SiftUpSwapsRoot(11, 1, Less);
    AddKnown(heap, 1, [1, 11]);
    ExtractOfTwo([1, 11], Less);
    var x4 := NextKnown(heap, 1, [11]);
    out := [x1, x2, x3, x4];
  }

  /**
   * `test_max_heap`: add 4, 2, 9, 11; the length is 4 and extraction yields
   * 11, 9, 4; after adding 1 the next extraction yields 2.
   */
  method MaxHeapScenario() returns (len: nat, out: seq<Option<int>>)
    ensures len == 4 && out == [Some(11), Some(9), Some(4), Some(2)]
  {
    var heap := MaxHeap.New(Less);
    AddKnown(heap, 4, [4]);
    SiftUpStays([4, 2], Greater(Less));
    AddKnown(heap, 2, [4, 2]);
    SiftUpThird(4, 2, 9, Greater(Less));
    AddKnown(heap, 9, [9, 2, 4]);
    SiftUpFourthToRoot(9, 2, 4, 11, Greater(Less));
    AddKnown(heap, 11, [11, 9, 4, 2]);
    len := heap.Len();
    out := MaxHeapExtractions(heap);
  }

  method MaxHeapExtractions(heap: Heap<int>) returns (out: seq<Option<int>>)
    requires heap.Valid() && heap.items == [11, 9, 4, 2] && heap.comparator == Greater(Less)
    modifies heap
    ensures out == [Some(11), Some(9), Some(4), Some(2)]
  {
    GreaterIsStrictWeakOrder(Less);
    ExtractOfFour(11, 9, 4, 2, Greater(Less));
    SiftDownOfThree(2, 9, 4, Greater(Less));
    var x1 := NextKnown(heap, 11, [9, 2, 4]);
    ExtractOfThree(9, 2, 4, Greater(Less));
    SiftDownOfTwo(4, 2, Greater(Less));
    var x2 := NextKnown(heap, 9, [4, 2]);
    ExtractOfTwo([4, 2], Greater(Less));
    var x3 := NextKnown(heap, 4, [2]);
    SiftUpStays([2, 1], Greater(Less));
    AddKnown(heap, 1, [2, 1]);
    ExtractOfTwo([2, 1], Greater(Less));
    var x4 := NextKnown(heap, 2, [1]);
    out := [x1, x2, x3, x4];
  }

  /**
   * The counterexample of module `HeapFindings` run through class `Heap`:
   * adding 1, 5, 2, 10 to a min-heap moves nothing; the first `next` yields
   * 1, the second yields 5 while the smaller 2 is still held.
   */
  method AsWrittenCounterexampleScenario() returns (first: Option<int>, second: Option<int>, held: seq<int>)
    ensures first == Some(1) && second == Some(5)
    ensures 2 in held && Less(2, 5)
  {
    var heap := MinHeap.New(Less);
    AddKnown(heap, 1, [1]);
    SiftUpStays([1, 5], Less);
    AddKnown(heap, 5, [1, 5]);
    SiftUpStays([1, 5, 2], Less);
    AddKnown(heap, 2, [1, 5, 2]);
    SiftUpStays([1, 5, 2, 10], Less);
    AddKnown(heap, 10, [1, 5, 2, 10]);
    AsWrittenFirstExtractBreaksHeap();
    first := NextKnown(heap, 1, [5, 10, 2]);
    AsWrittenSecondExtractOutOfOrder();
    second := NextKnown(heap, 5, [2, 10]);
    held := heap.items;
  }
}
