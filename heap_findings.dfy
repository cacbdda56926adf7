/**
 * Sift-down as written in exercises/algorithm/algorithm9.rs mixes index
 * conventions: sift-up treats storage slot `k` as the child of slot
 * `(k - 1) / 2`, while sift-down treats slots `2 * i` and `2 * i + 1` as the
 * children of slot `i`, and ignores a lone left child.  Extraction from a
 * valid heap can therefore leave a storage that is no longer a heap, and the
 * values come out of order.
 *
 * This module exhibits that on a concrete heap, and proves that the sift-down
 * the rest of the code evidently intends (children `2 * i + 1` and
 * `2 * i + 2`, a lone child compared too) restores the heap property, so
 * that draining a heap yields its values in priority order.
 */
module HeapFindings {
  import opened HeapSpec
  import opened TestOrder

  // ---------------------------------------------------------------------
  // As written

  /** The storage [1, 5, 2, 10] is a min-heap. */
  lemma ExampleIsHeap()
    ensures IsHeap([1, 5, 2, 10], Less)
  {
    var s := [1, 5, 2, 10];
    forall i {:trigger s[i]} | 0 < i < 4 ensures !Less(s[i], s[(i - 1) / 2]) {
      assert i == 1 || i == 2 || i == 3;
    }
  }

  /** Swap with the last slot, then `swap_remove` it, on [1, 5, 2, 10]. */
  lemma FirstRemoveExample()
    ensures SwapRemove(Swap([1, 5, 2, 10], 0, 3), 3) == (1, [10, 5, 2])
  {
    assert Swap([1, 5, 2, 10], 0, 3) == [10, 5, 2, 1];
    assert [10, 5, 2, 1][..3] == [10, 5, 2];
  }

  /** Sift-down of storage [10, 5, 2] from slot 0 swaps slots 0 and 1 only. */
  lemma FirstSiftDownExample()
    ensures SiftDown([10, 5, 2], 0, Less) == [5, 10, 2]
  {
    assert SmallestChildIdx([10, 5, 2], 0, Less) == Some(1);
    assert Swap([10, 5, 2], 1, 0) == [5, 10, 2];
    assert SmallestChildIdx([5, 10, 2], 1, Less) == None;
  }

  /** Swap with the last slot, then `swap_remove` it, on [5, 10, 2]. */
  lemma SecondRemoveExample()
    ensures SwapRemove(Swap([5, 10, 2], 0, 2), 2) == (5, [2, 10])
  {
    assert Swap([5, 10, 2], 0, 2) == [2, 10, 5];
    assert [2, 10, 5][..2] == [2, 10];
  }

  /** Sift-down of storage [2, 10] picks slot 0 itself and stops. */
  lemma SecondSiftDownExample()
    ensures SiftDown([2, 10], 0, Less) == [2, 10]
  {
    assert SmallestChildIdx([2, 10], 0, Less) == Some(0);
  }

  /**
   * Storage [1, 5, 2, 10] is a valid min-heap (it is what adding 1, 5, 2,
   * 10 to an empty min-heap leaves, as `HeapScenarios` shows).  The first extraction returns 1 but leaves
   * storage [5, 10, 2], which is not a heap: slot 2 holds 2 below 5.
   */
  lemma AsWrittenFirstExtractBreaksHeap()
    ensures IsHeap([1, 5, 2, 10], Less)
    ensures Extract([1, 5, 2, 10], Less) == (Some(1), [5, 10, 2])
    ensures !IsHeap([5, 10, 2], Less)
  {
    ExampleIsHeap();
    FirstRemoveExample();
    FirstSiftDownExample();
    var t := [5, 10, 2];
    assert t[2] == 2 && t[(2 - 1) / 2] == 5;
  }

  /**
   * The second extraction from that heap returns 5 while the smaller 2 is
   * still held: extraction is not in priority order.
   */
  lemma AsWrittenSecondExtractOutOfOrder()
    ensures Extract([5, 10, 2], Less) == (Some(5), [2, 10])
    ensures 2 in Extract([5, 10, 2], Less).1 && Less(2, 5)
  {
    SecondRemoveExample();
    SecondSiftDownExample();
  }

  // ---------------------------------------------------------------------
  // Corrected

  /**
   * The evidently intended `smallest_child_idx`: children `2 * idx + 1` and
   * `2 * idx + 2` of a 0-based slot; a lone left child is the candidate.
   */
  function FixedSmallestChildIdx<T>(s: seq<T>, idx: nat, cmp: (T, T) -> bool): (r: Option<nat>)
    ensures r.None? <==> |s| <= 2 * idx + 1
    ensures r.Some? ==> idx < r.value < |s| && (r.value - 1) / 2 == idx
  {
    var left := 2 * idx + 1;
    var right := left + 1;
    if left >= |s| then None
    else if right >= |s| || cmp(s[left], s[right]) then Some(left)
    else Some(right)
  }

  /** The chosen child is not outranked by any child of `idx`. */
  lemma FixedSmallestChildIsBest<T(!new)>(s: seq<T>, idx: nat, cmp: (T, T) -> bool)
    requires StrictWeakOrder(cmp) && FixedSmallestChildIdx(s, idx, cmp).Some?
    ensures var c := FixedSmallestChildIdx(s, idx, cmp).value;
      forall i :: 0 < i < |s| && (i - 1) / 2 == idx ==> !cmp(s[i], s[c])
  {
    var c := FixedSmallestChildIdx(s, idx, cmp).value;
    forall i | 0 < i < |s| && (i - 1) / 2 == idx ensures !cmp(s[i], s[c]) {
      assert i == 2 * idx + 1 || i == 2 * idx + 2;
      if i != c && c == 2 * idx + 1 {
        assert cmp(s[c], s[i]);
      }
    }
  }

  /** The evidently intended `heapify_down` on a 0-based slot. */
  function FixedSiftDown<T>(s: seq<T>, idx: nat, cmp: (T, T) -> bool): (r: seq<T>)
    ensures |r| == |s|
    decreases |s| - idx
  {
    match FixedSmallestChildIdx(s, idx, cmp)
    case None => s
    case Some(child) =>
      if cmp(s[child], s[idx]) then FixedSiftDown(Swap(s, child, idx), child, cmp) else s
  }

  /** The corrected sift-down only permutes the storage. */
  lemma {:induction false} FixedSiftDownKeepsMultiset<T>(s: seq<T>, idx: nat, cmp: (T, T) -> bool)
    ensures multiset(FixedSiftDown(s, idx, cmp)) == multiset(s)
    decreases |s| - idx
  {
    match FixedSmallestChildIdx(s, idx, cmp)
    case None =>
    case Some(child) =>
      if cmp(s[child], s[idx]) {
        SwapKeepsMultiset(s, child, idx);
        FixedSiftDownKeepsMultiset(Swap(s, child, idx), child, cmp);
      }
  }

  /**
   * The heap property everywhere except between slot `k` and its children;
   * moreover the children of `k` do not rank above `k`'s parent.
   */
  ghost predicate HeapExceptDown<T>(s: seq<T>, cmp: (T, T) -> bool, k: nat) {
    && (forall i {:trigger s[i]} :: 0 < i < |s| && (i - 1) / 2 != k ==> !cmp(s[i], s[(i - 1) / 2]))
    && (0 < k < |s| ==> forall i {:trigger s[i]} :: 0 < i < |s| && (i - 1) / 2 == k ==> !cmp(s[i], s[(k - 1) / 2]))
  }

  /** One swap of the corrected sift-down moves the hole to the child. */
  lemma FixedSiftDownStep<T(!new)>(s: seq<T>, cmp: (T, T) -> bool, k: nat, c: nat)
    requires StrictWeakOrder(cmp) && k < |s| && HeapExceptDown(s, cmp, k)
    requires FixedSmallestChildIdx(s, k, cmp) == Some(c) && cmp(s[c], s[k])
    ensures HeapExceptDown(Swap(s, c, k), cmp, c)
  {
    FixedSmallestChildIsBest(s, k, cmp);
    var t := Swap(s, c, k);
    forall i {:trigger t[i]} | 0 < i < |t| && (i - 1) / 2 != c
      ensures !cmp(t[i], t[(i - 1) / 2])
    {
      var pi := (i - 1) / 2;
      if i == c {
        assert t[i] == s[k] && t[k] == s[c];
      } else if pi == k {
        assert t[i] == s[i] && t[k] == s[c];
      } else if i == k {
        assert t[k] == s[c] && t[pi] == s[pi];
      } else {
        assert t[i] == s[i] && t[pi] == s[pi];
      }
    }
    forall i {:trigger t[i]} | 0 < i < |t| && (i - 1) / 2 == c
      ensures !cmp(t[i], t[(c - 1) / 2])
    {
      assert t[i] == s[i] && t[(c - 1) / 2] == s[c];
    }
  }

  /** The corrected sift-down repairs a heap whose only defect is at `idx`. */
  lemma {:induction false} FixedSiftDownRestoresHeap<T(!new)>(s: seq<T>, idx: nat, cmp: (T, T) -> bool)
    requires StrictWeakOrder(cmp) && idx < |s| && HeapExceptDown(s, cmp, idx)
    ensures IsHeap(FixedSiftDown(s, idx, cmp), cmp)
    decreases |s| - idx
  {
    match FixedSmallestChildIdx(s, idx, cmp)
    case None =>
    case Some(child) =>
      if cmp(s[child], s[idx]) {
        FixedSiftDownStep(s, cmp, idx, child);
        FixedSiftDownRestoresHeap(Swap(s, child, idx), child, cmp);
      } else {
        FixedSmallestChildIsBest(s, idx, cmp);
        forall i {:trigger s[i]} | 0 < i < |s| && (i - 1) / 2 == idx
          ensures !cmp(s[i], s[idx])
        {
          assert !cmp(s[i], s[child]);
        }
      }
  }

  /** `next` with the corrected sift-down. */
  function FixedExtract<T>(s: seq<T>, cmp: (T, T) -> bool): (r: (Option<T>, seq<T>))
    ensures |s| == 0 ==> r == (None, s)
    ensures |s| > 0 ==> r.0 == Some(s[0]) && |r.1| == |s| - 1
  {
    if |s| == 0 then
      (None, s)
    else
      var last := |s| - 1;
      var swapped := Swap(s, 0, last);
      var (root, rest) := SwapRemove(swapped, last);
      (Some(root), if |rest| > 0 then FixedSiftDown(rest, 0, cmp) else rest)
  }

  /** Extraction with the corrected sift-down loses exactly the root. */
  lemma FixedExtractKeepsMultiset<T>(s: seq<T>, cmp: (T, T) -> bool)
    requires |s| > 0
    ensures multiset(FixedExtract(s, cmp).1) + multiset{s[0]} == multiset(s)
  {
    var last := |s| - 1;
    SwapKeepsMultiset(s, 0, last);
    var swapped := Swap(s, 0, last);
    SwapRemoveKeepsMultiset(swapped, last);
    var rest := SwapRemove(swapped, last).1;
    if |rest| > 0 {
      FixedSiftDownKeepsMultiset(rest, 0, cmp);
    }
  }

  /**
   * With the corrected sift-down, extraction from a heap returns a highest
   * priority value and leaves a heap.
   */
  lemma FixedExtractKeepsHeap<T(!new)>(s: seq<T>, cmp: (T, T) -> bool)
    requires StrictWeakOrder(cmp) && IsHeap(s, cmp) && |s| > 0
    ensures FixedExtract(s, cmp).0 == Some(s[0]) && IsBest(s, cmp, s[0])
    ensures IsHeap(FixedExtract(s, cmp).1, cmp)
  {
    RootIsBest(s, cmp);
    var last := |s| - 1;
    var rest := SwapRemove(Swap(s, 0, last), last).1;
    if |rest| > 0 {
      forall i {:trigger rest[i]} | 0 < i < |rest| && (i - 1) / 2 != 0
        ensures !cmp(rest[i], rest[(i - 1) / 2])
      {
        assert rest[i] == s[i] && rest[(i - 1) / 2] == s[(i - 1) / 2];
      }
      FixedSiftDownRestoresHeap(rest, 0, cmp);
    }
  }

  /** Extraction repeated until the heap is empty. */
  function FixedDrain<T>(s: seq<T>, cmp: (T, T) -> bool): (out: seq<T>)
    ensures |out| == |s|
    decreases |s|
  {
    if |s| == 0 then [] else
      var (root, rest) := FixedExtract(s, cmp);
      [root.value] + FixedDrain(rest, cmp)
  }

  /** No value of `out` ranks above the one before it. */
  ghost predicate Sorted<T>(out: seq<T>, cmp: (T, T) -> bool) {
    forall i {:trigger out[i]} :: 0 < i < |out| ==> !cmp(out[i], out[i - 1])
  }

  /** Prepending a value that its successor does not outrank keeps order. */
  lemma SortedCons<T>(x: T, tail: seq<T>, cmp: (T, T) -> bool)
    requires Sorted(tail, cmp) && (|tail| > 0 ==> !cmp(tail[0], x))
    ensures Sorted([x] + tail, cmp)
  {
    var out := [x] + tail;
    forall i {:trigger out[i]} | 0 < i < |out|
      ensures !cmp(out[i], out[i - 1])
    {
      if i > 1 {
        assert out[i] == tail[i - 1] && out[i - 1] == tail[i - 2];
      }
    }
  }

  /**
   * With the corrected sift-down, draining a heap yields a permutation of its
   * values in priority order.
   */
  lemma {:induction false} FixedDrainIsSortedPermutation<T(!new)>(s: seq<T>, cmp: (T, T) -> bool)
    requires StrictWeakOrder(cmp) && IsHeap(s, cmp)
    ensures Sorted(FixedDrain(s, cmp), cmp)
    ensures multiset(FixedDrain(s, cmp)) == multiset(s)
    decreases |s|
  {
    if |s| > 0 {
      FixedExtractKeepsHeap(s, cmp);
      FixedExtractKeepsMultiset(s, cmp);
      var rest := FixedExtract(s, cmp).1;
      FixedDrainIsSortedPermutation(rest, cmp);
      var tail := FixedDrain(rest, cmp);
      assert FixedDrain(s, cmp) == [s[0]] + tail;
      if |rest| > 0 {
        assert tail[0] == rest[0];
        assert rest[0] in multiset(s);
      }
      SortedCons(s[0], tail, cmp);
    }
  }
}
