/**
 * Value-level model of the binary heap in exercises/algorithm/algorithm9.rs.
 *
 * The storage of a heap is a sequence `s` whose length is the heap's count.
 * Sift-up works with 1-based heap indices (slot `idx - 1`, parent `idx / 2`);
 * sift-down applies the child arithmetic `2 * i`, `2 * i + 1` directly to
 * 0-based storage indices, exactly as the code does.  The functions here are
 * the specifications that the methods of class `BinaryHeap.Heap` are proved
 * against.
 */
module HeapSpec {

  datatype Option<T> = None | Some(value: T)

  // ---------------------------------------------------------------------
  // Properties of the comparator

  /** No value ranks above itself (true of both `<` and `>`). */
  ghost predicate Irreflexive<T(!new)>(cmp: (T, T) -> bool) {
    forall x :: !cmp(x, x)
  }

  /**
   * A strict weak ordering: irreflexive, transitive, and "does not rank
   * above" is transitive too.  `<` and `>` on a totally ordered type are.
   */
  ghost predicate StrictWeakOrder<T(!new)>(cmp: (T, T) -> bool) {
    && Irreflexive(cmp)
    && (forall x, y, z :: cmp(x, y) && cmp(y, z) ==> cmp(x, z))
    && (forall x, y, z :: !cmp(x, y) && !cmp(y, z) ==> !cmp(x, z))
  }

  // ---------------------------------------------------------------------
  // The heap invariant

  /**
   * The heap property over 0-based storage: no slot ranks strictly above
   * its parent slot `(i - 1) / 2`.  In the 1-based terms of sift-up this is
   * "no heap index j in [2, count] ranks above heap index j / 2".
   */
  ghost predicate IsHeap<T>(s: seq<T>, cmp: (T, T) -> bool) {
    forall i {:trigger s[i]} :: 0 < i < |s| ==> !cmp(s[i], s[(i - 1) / 2])
  }

  /** No value held in `s` ranks above `x`. */
  ghost predicate IsBest<T>(s: seq<T>, cmp: (T, T) -> bool, x: T) {
    forall y :: y in s ==> !cmp(y, x)
  }

  // ---------------------------------------------------------------------
  // Vec operations

  /** `Vec::swap(i, j)`. */
  function Swap<T>(s: seq<T>, i: nat, j: nat): (r: seq<T>)
    requires i < |s| && j < |s|
    ensures |r| == |s| && r[i] == s[j] && r[j] == s[i]
    ensures forall k :: 0 <= k < |s| && k != i && k != j ==> r[k] == s[k]
  {
    s[i := s[j]][j := s[i]]
  }

  /** A swap keeps the values held, with their multiplicities. */
  lemma SwapKeepsMultiset<T>(s: seq<T>, i: nat, j: nat)
    requires i < |s| && j < |s|
    ensures multiset(Swap(s, i, j)) == multiset(s)
  {
  }

  /**
   * `Vec::swap_remove(i)`: removes slot `i` and returns it; the last slot
   * takes its place.
   */
  function SwapRemove<T>(s: seq<T>, i: nat): (r: (T, seq<T>))
    requires i < |s|
    ensures r.0 == s[i] && |r.1| == |s| - 1
    ensures i == |s| - 1 ==> r.1 == s[..i]
    ensures i < |s| - 1 ==>
      (r.1[i] == s[|s| - 1] && forall k :: 0 <= k < |s| - 1 && k != i ==> r.1[k] == s[k])
  {
    var last := |s| - 1;
    if i == last then (s[i], s[..i]) else (s[i], s[..last][i := s[last]])
  }

  /** `swap_remove` loses exactly the value it returns. */
  lemma SwapRemoveKeepsMultiset<T>(s: seq<T>, i: nat)
    requires i < |s|
    ensures multiset(SwapRemove(s, i).1) + multiset{SwapRemove(s, i).0} == multiset(s)
  {
    var last := |s| - 1;
    assert s == s[..last] + [s[last]];
  }

  // ---------------------------------------------------------------------
  // Index helpers (parent_idx, left_child_idx, right_child_idx)

  /** `parent_idx`: integer halving of a 1-based heap index. */
  function ParentIdx(idx: nat): (p: nat)
    ensures 2 * p <= idx <= 2 * p + 1
  {
    idx / 2
  }

  /** `left_child_idx`: the index whose parent, by `ParentIdx`, is `idx`. */
  function LeftChildIdx(idx: nat): (c: nat)
    ensures ParentIdx(c) == idx && c % 2 == 0
  {
    idx * 2
  }

  /** `right_child_idx`: the sibling just after the left child. */
  function RightChildIdx(idx: nat): (c: nat)
    ensures ParentIdx(c) == idx && c == LeftChildIdx(idx) + 1
  {
    LeftChildIdx(idx) + 1
  }

  /**
   * `children_present`: the left child index lies strictly below the last
   * storage position `count - 1`, so both `2 * idx` and `2 * idx + 1` are in
   * range.  The code subtracts from `count`, so it needs `count >= 1`.
   */
  function ChildrenPresent(count: nat, idx: nat): (b: bool)
    requires count >= 1
    ensures b <==> RightChildIdx(idx) < count
  {
    LeftChildIdx(idx) < count - 1
  }

  /**
   * `smallest_child_idx`: when both "children" `2 * idx` and `2 * idx + 1`
   * exist, the left one if the comparator ranks it above the right one,
   * otherwise the right one.  A lone left child is never considered.
   */
  function SmallestChildIdx<T>(s: seq<T>, idx: nat, cmp: (T, T) -> bool): (r: Option<nat>)
    requires |s| >= 1
    ensures r.None? <==> |s| <= 2 * idx + 1
    ensures r.Some? ==> idx <= r.value < |s| && ParentIdx(r.value) == idx
    ensures r.Some? ==> (r.value == 2 * idx <==> cmp(s[2 * idx], s[2 * idx + 1]))
  {
    if ChildrenPresent(|s|, idx) then
      var left := LeftChildIdx(idx);
      var right := RightChildIdx(idx);
      if cmp(s[left], s[right]) then Some(left) else Some(right)
    else
      None
  }

  /**
   * Under a strict weak ordering the chosen child is not outranked by
   * the other one of the pair.
   */
  lemma SmallestChildIsBestOfPair<T(!new)>(s: seq<T>, idx: nat, cmp: (T, T) -> bool)
    requires |s| >= 1 && StrictWeakOrder(cmp)
    requires SmallestChildIdx(s, idx, cmp).Some?
    ensures var c := SmallestChildIdx(s, idx, cmp).value;
      !cmp(s[2 * idx], s[c]) && !cmp(s[2 * idx + 1], s[c])
  {
    var c := SmallestChildIdx(s, idx, cmp).value;
    if c == 2 * idx {
      assert cmp(s[2 * idx], s[2 * idx + 1]);
    }
  }

  // ---------------------------------------------------------------------
  // Sift-up (heapify_up)

  /**
   * `heapify_up(idx)`: while the 1-based index `idx` has a parent and slot
   * `idx - 1` ranks above the parent slot, swap the two and continue at the
   * parent.  Only swaps are performed, so contents and length are kept.
   */
  function SiftUp<T>(s: seq<T>, idx: nat, cmp: (T, T) -> bool): (r: seq<T>)
    requires idx <= |s|
    ensures |r| == |s|
    decreases idx
  {
    var parent := ParentIdx(idx);
    if parent > 0 && cmp(s[idx - 1], s[parent - 1]) then
      SiftUp(Swap(s, idx - 1, parent - 1), parent, cmp)
    else
      s
  }

  /** Sift-up only permutes the storage. */
  lemma {:induction false} SiftUpKeepsMultiset<T>(s: seq<T>, idx: nat, cmp: (T, T) -> bool)
    requires idx <= |s|
    ensures multiset(SiftUp(s, idx, cmp)) == multiset(s)
    decreases idx
  {
    var parent := ParentIdx(idx);
    if parent > 0 && cmp(s[idx - 1], s[parent - 1]) {
      SwapKeepsMultiset(s, idx - 1, parent - 1);
      SiftUpKeepsMultiset(Swap(s, idx - 1, parent - 1), parent, cmp);
    }
  }

  /**
   * The heap property everywhere except between slot `k` and its parent;
   * moreover the children of `k` do not rank above `k`'s parent.
   */
  ghost predicate HeapExceptUp<T>(s: seq<T>, cmp: (T, T) -> bool, k: nat) {
    && (forall i {:trigger s[i]} :: 0 < i < |s| && i != k ==> !cmp(s[i], s[(i - 1) / 2]))
    && (0 < k < |s| ==> forall i {:trigger s[i]} :: 0 < i < |s| && (i - 1) / 2 == k ==> !cmp(s[i], s[(k - 1) / 2]))
  }

  /** One swap of sift-up moves the hole of `HeapExceptUp` to the parent. */
  lemma SiftUpStep<T(!new)>(s: seq<T>, cmp: (T, T) -> bool, k: nat)
    requires StrictWeakOrder(cmp) && 0 < k < |s|
    requires HeapExceptUp(s, cmp, k) && cmp(s[k], s[(k - 1) / 2])
    ensures HeapExceptUp(Swap(s, k, (k - 1) / 2), cmp, (k - 1) / 2)
  {
    var q := (k - 1) / 2;
    var t := Swap(s, k, q);
    forall i {:trigger t[i]} | 0 < i < |t| && i != q
      ensures !cmp(t[i], t[(i - 1) / 2])
    {
      var pi := (i - 1) / 2;
      if i == k {
        assert t[i] == s[q] && t[q] == s[k];
      } else if pi == k {
        assert t[i] == s[i] && t[k] == s[q];
      } else if pi == q {
        assert t[i] == s[i] && t[q] == s[k];
        assert !cmp(s[i], s[q]);
      } else {
        assert t[i] == s[i] && t[pi] == s[pi];
      }
    }
    if 0 < q {
      var g := (q - 1) / 2;
      forall i | 0 < i < |t| && (i - 1) / 2 == q
        ensures !cmp(t[i], t[g])
      {
        assert t[g] == s[g];
        assert !cmp(s[q], s[g]);
        if i != k {
          assert t[i] == s[i] && !cmp(s[i], s[q]);
        }
      }
    }
  }

  /** Sift-up from a slot whose only defect is with its parent yields a heap. */
  lemma {:induction false} SiftUpRestoresHeap<T(!new)>(s: seq<T>, idx: nat, cmp: (T, T) -> bool)
    requires StrictWeakOrder(cmp) && 1 <= idx <= |s|
    requires HeapExceptUp(s, cmp, idx - 1)
    ensures IsHeap(SiftUp(s, idx, cmp), cmp)
    decreases idx
  {
    var parent := ParentIdx(idx);
    if parent > 0 && cmp(s[idx - 1], s[parent - 1]) {
      assert parent - 1 == (idx - 2) / 2;
      SiftUpStep(s, cmp, idx - 1);
      SiftUpRestoresHeap(Swap(s, idx - 1, parent - 1), parent, cmp);
    } else {
      forall i {:trigger s[i]} | 0 < i < |s| ensures !cmp(s[i], s[(i - 1) / 2]) {
        if i == idx - 1 {
          assert parent - 1 == (i - 1) / 2;
        }
      }
    }
  }

  /**
   * What `add` does to the storage of a heap: append, then sift up from the
   * new last index.  The heap property is preserved.
   */
  lemma InsertKeepsHeap<T(!new)>(s: seq<T>, v: T, cmp: (T, T) -> bool)
    requires StrictWeakOrder(cmp) && IsHeap(s, cmp)
    ensures IsHeap(SiftUp(s + [v], |s| + 1, cmp), cmp)
  {
    var t := s + [v];
    forall i {:trigger t[i]} | 0 < i < |t| && i != |s|
      ensures !cmp(t[i], t[(i - 1) / 2])
    {
      assert t[i] == s[i] && t[(i - 1) / 2] == s[(i - 1) / 2];
    }
    SiftUpRestoresHeap(t, |s| + 1, cmp);
  }

  /** In a heap, slot `i` does not rank above the root. */
  lemma {:induction false} RootNotOutranked<T(!new)>(s: seq<T>, cmp: (T, T) -> bool, i: nat)
    requires StrictWeakOrder(cmp) && IsHeap(s, cmp) && i < |s|
    ensures !cmp(s[i], s[0])
    decreases i
  {
    if i > 0 {
      RootNotOutranked(s, cmp, (i - 1) / 2);
      assert !cmp(s[i], s[(i - 1) / 2]);
    }
  }

  /** The root of a heap is a highest-priority element. */
  lemma RootIsBest<T(!new)>(s: seq<T>, cmp: (T, T) -> bool)
    requires StrictWeakOrder(cmp) && IsHeap(s, cmp) && |s| > 0
    ensures IsBest(s, cmp, s[0])
  {
    forall y | y in s ensures !cmp(y, s[0]) {
      var j :| 0 <= j < |s| && s[j] == y;
      RootNotOutranked(s, cmp, j);
    }
  }

  // ---------------------------------------------------------------------
  // Sift-down (heapify_down), as written

  /**
   * `heapify_down(idx)`: take `smallest_child_idx(idx)`; if it ranks above
   * slot `idx`, swap the two and continue there.  From the root the chosen
   * "child" may be slot 0 itself; the comparator's irreflexivity is what
   * stops the walk there, so it is required for termination.
   */
  function SiftDown<T(!new)>(s: seq<T>, idx: nat, cmp: (T, T) -> bool): (r: seq<T>)
    requires |s| >= 1 && Irreflexive(cmp)
    ensures |r| == |s|
    decreases |s| - idx
  {
    match SmallestChildIdx(s, idx, cmp)
    case None => s
    case Some(child) =>
      if cmp(s[child], s[idx]) then
        SiftDown(Swap(s, child, idx), child, cmp)
      else
        s
  }

  /** Sift-down only permutes the storage. */
  lemma {:induction false} SiftDownKeepsMultiset<T(!new)>(s: seq<T>, idx: nat, cmp: (T, T) -> bool)
    requires |s| >= 1 && Irreflexive(cmp)
    ensures multiset(SiftDown(s, idx, cmp)) == multiset(s)
    decreases |s| - idx
  {
    match SmallestChildIdx(s, idx, cmp)
    case None =>
    case Some(child) =>
      if cmp(s[child], s[idx]) {
        SwapKeepsMultiset(s, child, idx);
        SiftDownKeepsMultiset(Swap(s, child, idx), child, cmp);
      }
  }

  /**
   * Sift-down swaps only when the chosen child ranks strictly above the
   * current slot; otherwise the storage is returned untouched.
   */
  lemma SiftDownSwapsOnlyWhenOutranked<T(!new)>(s: seq<T>, idx: nat, cmp: (T, T) -> bool)
    requires |s| >= 1 && Irreflexive(cmp)
    ensures SiftDown(s, idx, cmp) != s ==>
      var c := SmallestChildIdx(s, idx, cmp);
      c.Some? && c.value != idx && cmp(s[c.value], s[idx])
  {
  }

  /**
   * Extraction (`Iterator::next`) on storage `s`: nothing on an empty heap;
   * otherwise swap the root with the last slot, `swap_remove` the last slot
   * and, if anything is left, sift down from storage index 0.
   */
  function Extract<T(!new)>(s: seq<T>, cmp: (T, T) -> bool): (r: (Option<T>, seq<T>))
    requires Irreflexive(cmp)
    ensures |s| == 0 ==> r == (None, s)
    ensures |s| > 0 ==> r.0 == Some(s[0]) && |r.1| == |s| - 1
  {
    if |s| == 0 then
      (None, s)
    else
      var last := |s| - 1;
      var swapped := Swap(s, 0, last);
      var (root, rest) := SwapRemove(swapped, last);
      (Some(root), if |rest| > 0 then SiftDown(rest, 0, cmp) else rest)
  }

  /** Extraction loses exactly the value it returns. */
  lemma ExtractKeepsMultiset<T(!new)>(s: seq<T>, cmp: (T, T) -> bool)
    requires Irreflexive(cmp) && |s| > 0
    ensures multiset(Extract(s, cmp).1) + multiset{s[0]} == multiset(s)
  {
    var last := |s| - 1;
    SwapKeepsMultiset(s, 0, last);
    var swapped := Swap(s, 0, last);
    SwapRemoveKeepsMultiset(swapped, last);
    var rest := SwapRemove(swapped, last).1;
    if |rest| > 0 {
      SiftDownKeepsMultiset(rest, 0, cmp);
    }
  }

  /** The first value extracted from a heap ranks at least as high as any. */
  lemma ExtractFromHeapIsBest<T(!new)>(s: seq<T>, cmp: (T, T) -> bool)
    requires StrictWeakOrder(cmp) && IsHeap(s, cmp) && |s| > 0
    ensures Extract(s, cmp).0.Some? && IsBest(s, cmp, Extract(s, cmp).0.value)
  {
    RootIsBest(s, cmp);
  }
}
