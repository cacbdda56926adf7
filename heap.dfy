/**
 * The `Heap<T>` struct of exercises/algorithm/algorithm9.rs as a class: a
 * logical size `count`, the storage `items` (a `Vec<T>`, here a sequence the
 * methods reassign) and the comparator fixed at construction.  Each operation
 * that changes the heap is proved against the value-level functions of
 * module `HeapSpec`.
 */
module BinaryHeap {
  import opened HeapSpec

  class Heap<T(!new)> {
    var count: nat
    var items: seq<T>
    const comparator: (T, T) -> bool

    /** At rest the storage holds exactly `count` values. */
    ghost predicate Valid()
      reads this
    {
      |items| == count
    }

    /** `Heap::new`: an empty heap with the given comparator. */
    constructor (comparator: (T, T) -> bool)
      ensures Valid() && count == 0 && items == []
      ensures this.comparator == comparator
    {
      this.count := 0;
      this.items := [];
      this.comparator := comparator;
    }

    /** `len`: the number of values held. */
    function Len(): (n: nat)
      reads this
      requires Valid()
      ensures n == |items|
    {
      count
    }

    /** `is_empty`. */
    function IsEmpty(): (b: bool)
      reads this
      requires Valid()
      ensures b <==> items == []
    {
      Len() == 0
    }

    /**
     * `add`: count up, push the value, sift it up from the new last index.
     * The values held grow by exactly `value`, and a heap stays a heap.
     */
    method Add(value: T)
      requires Valid()
      modifies this
      ensures Valid() && count == old(count) + 1
      ensures items == SiftUp(old(items) + [value], count, comparator)
      ensures multiset(items) == multiset(old(items)) + multiset{value}
      ensures StrictWeakOrder(comparator) && IsHeap(old(items), comparator) ==>
        IsHeap(items, comparator)
    {
      count := count + 1;
      items := items + [value];
      HeapifyUp(count);
      SiftUpKeepsMultiset(old(items) + [value], count, comparator);
      if StrictWeakOrder(comparator) && IsHeap(old(items), comparator) {
        InsertKeepsHeap(old(items), value, comparator);
      }
    }

    /** `heapify_up(idx)`, recursive as in the code; `idx` is 1-based. */
    method HeapifyUp(idx: nat)
      requires idx <= |items|
      modifies this`items
      ensures items == SiftUp(old(items), idx, comparator)
      decreases idx
    {
      var parent := ParentIdx(idx);
      if parent > 0 && comparator(items[idx - 1], items[parent - 1]) {
        items := Swap(items, idx - 1, parent - 1);
        HeapifyUp(parent);
      }
    }

    /**
     * `heapify_down(idx)`, recursive as in the code; `idx` is a 0-based
     * storage index, and `count` is the storage length here.
     */
    method HeapifyDown(idx: nat)
      requires Valid() && count >= 1 && Irreflexive(comparator)
      modifies this`items
      ensures Valid()
      ensures items == SiftDown(old(items), idx, comparator)
      decreases count - idx
    {
      match SmallestChildIdx(items, idx, comparator) {
        case Some(child) =>
          if comparator(items[child], items[idx]) {
            items := Swap(items, child, idx);
            HeapifyDown(child);
          }
        case None =>
      }
    }

    /**
     * `Iterator::next`: `None` and no change on an empty heap; otherwise the
     * old root, with the rest of the values kept, as `Extract` describes.
     */
    method Next() returns (r: Option<T>)
      requires Valid() && Irreflexive(comparator)
      modifies this
      ensures Valid()
      ensures (r, items) == Extract(old(items), comparator)
      ensures old(count) == 0 ==> r == None && items == old(items) && count == 0
      ensures old(count) > 0 ==> r == Some(old(items)[0]) && count == old(count) - 1
      ensures old(count) > 0 ==> multiset(items) + multiset{r.value} == multiset(old(items))
      ensures StrictWeakOrder(comparator) && IsHeap(old(items), comparator) && r.Some? ==>
        IsBest(old(items), comparator, r.value)
    {
      if IsEmpty() {
        return None;
      }
      items := Swap(items, 0, count - 1);
      var removed := SwapRemove(items, count - 1);
      var root := removed.0;
      items := removed.1;
      count := count - 1;
      if count > 0 {
        HeapifyDown(0);
      }
      r := Some(root);
      ExtractKeepsMultiset(old(items), comparator);
      if StrictWeakOrder(comparator) && IsHeap(old(items), comparator) {
        ExtractFromHeapIsBest(old(items), comparator);
      }
    }

    /** `Heap::new_min`: the comparator is the type's own `<`, here `less`. */
    static method NewMin(less: (T, T) -> bool) returns (h: Heap<T>)
      ensures fresh(h) && h.Valid() && h.count == 0 && h.items == []
      ensures h.comparator == less
    {
      h := new Heap(less);
    }

    /** `Heap::new_max`: the comparator is `a > b`, that is `less(b, a)`. */
    static method NewMax(less: (T, T) -> bool) returns (h: Heap<T>)
      ensures fresh(h) && h.Valid() && h.count == 0 && h.items == []
      ensures h.comparator == Greater(less)
    {
      h := new Heap(Greater(less));
    }
  }

  /** `a > b` for the order whose `<` is `less`. */
  function Greater<T(!new)>(less: (T, T) -> bool): (greater: (T, T) -> bool)
    ensures forall a, b :: greater(a, b) == less(b, a)
  {
    (a, b) => less(b, a)
  }

  /** If `less` is a strict weak ordering, so is its converse. */
  lemma GreaterIsStrictWeakOrder<T(!new)>(less: (T, T) -> bool)
    requires StrictWeakOrder(less)
    ensures StrictWeakOrder(Greater(less))
  {
    var greater := Greater(less);
    forall x, y, z | greater(x, y) && greater(y, z) ensures greater(x, z) {
      assert less(z, y) && less(y, x);
    }
    forall x, y, z | !greater(x, y) && !greater(y, z) ensures !greater(x, z) {
      assert !less(z, y) && !less(y, x);
    }
  }

  /** The `MinHeap` factory: holds no state. */
  class MinHeap {
    /** `MinHeap::new`: an empty heap ordered by `a < b`. */
    static method New<T(!new)>(less: (T, T) -> bool) returns (h: Heap<T>)
      ensures fresh(h) && h.Valid() && h.count == 0 && h.items == []
      ensures h.comparator == less
    {
      h := new Heap(less);
    }
  }

  /** The `MaxHeap` factory: holds no state. */
  class MaxHeap {
    /** `MaxHeap::new`: an empty heap ordered by `a > b`. */
    static method New<T(!new)>(less: (T, T) -> bool) returns (h: Heap<T>)
      ensures fresh(h) && h.Valid() && h.count == 0 && h.items == []
      ensures h.comparator == Greater(less)
    {
      h := new Heap(Greater(less));
    }
  }
}
