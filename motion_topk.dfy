/**
 * Flow mode of `extract_frames` (annolid/data/videos.py:279-284): the
 * `num_frames` best-scoring frames are kept in a heapq min-heap of
 * `(q_score, frame_number, frame)` tuples. The heap operations follow
 * CPython's heapq: heappush appends and moves the new item toward the root
 * (`_siftdown`); heappushpop replaces the root only when the root is smaller
 * than the new item and then moves the hole down to a leaf along the smaller
 * children before moving the item back up (`_siftup`).
 */
module MotionTopK {

  import opened Wrappers
  import opened Records

  /**
   * Python's `<` on the tuples: by score, then by frame number. The pixel
   * component would only be compared on equal frame numbers, which a
   * selector never holds.
   */
  predicate Below<P>(a: Record<P>, b: Record<P>)
  {
    a.key < b.key || (a.key == b.key && a.number < b.number)
  }

  /** The heapq invariant: no element is smaller than its parent. */
  ghost predicate IsHeap<P>(h: seq<Record<P>>)
  {
    forall p, c {:trigger h[p], h[c]} :: 0 < c < |h| && p == (c - 1) / 2 ==> !Below(h[c], h[p])
  }

  /** A heap except that the element at `pos` may be smaller than its parent (during a move toward the root). */
  ghost predicate HeapExceptUp<P>(h: seq<Record<P>>, pos: nat)
  {
    && (forall p, c {:trigger h[p], h[c]} :: 0 < c < |h| && c != pos && p == (c - 1) / 2 ==> !Below(h[c], h[p]))
    && (0 < pos < |h| ==> forall c :: 0 < c < |h| && (c - 1) / 2 == pos ==> !Below(h[c], h[(pos - 1) / 2]))
  }

  /** A heap except for the edges into and out of `pos` (during the move of the hole toward a leaf). */
  ghost predicate HeapExceptAt<P>(h: seq<Record<P>>, pos: nat)
  {
    && (forall p, c {:trigger h[p], h[c]} :: 0 < c < |h| && c != pos && p != pos && p == (c - 1) / 2 ==> !Below(h[c], h[p]))
    && (0 < pos < |h| ==> forall c :: 0 < c < |h| && (c - 1) / 2 == pos ==> !Below(h[c], h[(pos - 1) / 2]))
  }

  /**
   * `kept` holds the k highest-scoring records of `scored` (all of them when
   * fewer were scored): as many as that, all taken from `scored`, and every
   * record that was left out is below every record that was kept.
   */
  ghost predicate IsTopK<P>(kept: seq<Record<P>>, scored: seq<Record<P>>, k: nat)
  {
    && |kept| == Min(k, |scored|)
    && multiset(kept) <= multiset(scored)
    && forall d, r :: d in multiset(scored) - multiset(kept) && r in kept ==> Below(d, r)
  }

  /** The root of a heap is its least element. */
  lemma {:induction false} RootIsLeast<P>(h: seq<Record<P>>, i: nat)
    requires IsHeap(h) && i < |h|
    ensures !Below(h[i], h[0])
    decreases i
  {
    if i > 0 {
      RootIsLeast(h, (i - 1) / 2);
    }
  }

  /** One step of heapq._siftdown: swapping a too-small item with its parent moves the fault one level up. */
  lemma RiseStep<P>(h: seq<Record<P>>, p: nat)
    requires 0 < p < |h| && HeapExceptUp(h, p) && Below(h[p], h[(p - 1) / 2])
    ensures HeapExceptUp(h[p := h[(p - 1) / 2]][(p - 1) / 2 := h[p]], (p - 1) / 2)
  {
    var q := (p - 1) / 2;
    var h' := h[p := h[q]][q := h[p]];
    forall u, c | 0 < c < |h'| && c != q && u == (c - 1) / 2
      ensures !Below(h'[c], h'[u])
    {
      if c == p {
      } else if u == p {
        assert !Below(h[c], h[u]);
      } else if u == q {
        assert !Below(h[c], h[q]);
      } else {
        assert h'[c] == h[c] && h'[u] == h[u];
      }
    }
    if 0 < q {
      forall c | 0 < c < |h'| && (c - 1) / 2 == q
        ensures !Below(h'[c], h'[(q - 1) / 2])
      {
        assert !Below(h[q], h[(q - 1) / 2]);
        if c != p {
          assert !Below(h[c], h[q]);
        }
      }
    }
  }

  /**
   * One step of heapq._siftup: swapping the item at `pos` with its smaller
   * child `child` moves the fault one level down.
   */
  lemma SinkStep<P>(h: seq<Record<P>>, pos: nat, child: nat)
    requires child < |h| && (child - 1) / 2 == pos && 0 < child
    requires HeapExceptAt(h, pos)
    requires forall s :: 0 < s < |h| && (s - 1) / 2 == pos && s != child ==> !Below(h[s], h[child])
    ensures HeapExceptAt(h[pos := h[child]][child := h[pos]], child)
  {
    var h' := h[pos := h[child]][child := h[pos]];
    forall c {:trigger h'[c]} | 0 < c < |h'| && c != child && (c - 1) / 2 != child
      ensures !Below(h'[c], h'[(c - 1) / 2])
    {
      if c == pos {
        assert !Below(h[child], h[(pos - 1) / 2]);
      } else if (c - 1) / 2 == pos {
        assert !Below(h[c], h[child]);
      } else {
        assert h'[c] == h[c] && h'[(c - 1) / 2] == h[(c - 1) / 2];
      }
    }
    forall c | 0 < c < |h'| && (c - 1) / 2 == child
      ensures !Below(h'[c], h'[(child - 1) / 2])
    {
      assert c != pos && c != child;
      assert !Below(h[c], h[child]);
    }
  }

  /** heapq._siftup's choice of child: no other child of `pos` is below the chosen one. */
  lemma SmallerChild<P>(h: seq<Record<P>>, pos: nat, child: nat)
    requires child < |h|
    requires || (child == 2 * pos + 1 && (child + 1 < |h| ==> Below(h[child], h[child + 1])))
             || (child == 2 * pos + 2 && !Below(h[child - 1], h[child]))
    ensures 0 < child && (child - 1) / 2 == pos
    ensures forall s :: 0 < s < |h| && (s - 1) / 2 == pos && s != child ==> !Below(h[s], h[child])
  {
    forall s | 0 < s < |h| && (s - 1) / 2 == pos && s != child
      ensures !Below(h[s], h[child])
    {
      assert s == 2 * pos + 1 || s == 2 * pos + 2;
    }
  }

  /** Once the hole of heapq._siftup is at a leaf, only the edge into it can be out of order. */
  lemma LeafIsExceptUp<P>(h: seq<Record<P>>, pos: nat)
    requires pos < |h| <= 2 * pos + 1 && HeapExceptAt(h, pos)
    ensures HeapExceptUp(h, pos)
  {
    forall c {:trigger h[c]} | 0 < c < |h| && c != pos
      ensures !Below(h[c], h[(c - 1) / 2])
    {
      assert (c - 1) / 2 != pos;
    }
  }

  /** Swapping two elements keeps the contents and keeps frame numbers distinct. */
  lemma SwapKeepsDistinct<P>(h: seq<Record<P>>, i: nat, j: nat)
    requires i < |h| && j < |h| && DistinctNumbers(h)
    ensures DistinctNumbers(h[i := h[j]][j := h[i]])
    ensures multiset(h[i := h[j]][j := h[i]]) == multiset(h)
  {
    var h' := h[i := h[j]][j := h[i]];
    forall a, b | 0 <= a < b < |h'|
      ensures h'[a].number != h'[b].number
    {
      var a' := if a == i then j else if a == j then i else a;
      var b' := if b == i then j else if b == j then i else b;
      assert h'[a] == h[a'] && h'[b] == h[b'] && a' != b';
    }
  }

  /** Below the capacity, heappush keeps everything scored so far. */
  lemma PushKeepsTopK<P>(kept: seq<Record<P>>, scored: seq<Record<P>>, k: nat, item: Record<P>, kept': seq<Record<P>>)
    requires |kept| < k && multiset(kept) == multiset(scored)
    requires multiset(kept') == multiset(kept) + multiset{item}
    ensures IsTopK(kept', scored + [item], k)
    ensures multiset(kept') == multiset(scored + [item])
  {
    assert |multiset(kept')| == |multiset(kept)| + 1;
    assert |multiset(kept)| == |multiset(scored)|;
  }

  /**
   * At capacity, an item above the root replaces it: the root joins the
   * left-out records, and it is below every record that stays.
   */
  lemma ReplaceKeepsTopK<P>(kept: seq<Record<P>>, scored: seq<Record<P>>, k: nat, item: Record<P>, kept': seq<Record<P>>)
    requires IsHeap(kept) && DistinctNumbers(kept) && IsTopK(kept, scored, k)
    requires |kept| == k > 0 && Below(kept[0], item)
    requires multiset(kept') == multiset(kept[0 := item])
    ensures IsTopK(kept', scored + [item], k)
  {
    var root := kept[0];
    var scored' := scored + [item];
    assert |multiset(kept')| == |multiset(kept[0 := item])| == |kept|;
    assert multiset(kept[0 := item]) == multiset(kept) - multiset{root} + multiset{item};
    assert multiset(scored') == multiset(scored) + multiset{item};
    forall r | r in kept'
      ensures Below(root, r)
    {
      assert r in multiset(kept[0 := item]);
      var i :| 0 <= i < |kept| && kept[0 := item][i] == r;
      if i != 0 {
        RootIsLeast(kept, i);
        assert kept[i].number != root.number;
      }
    }
    forall d, r | d in multiset(scored') - multiset(kept') && r in kept'
      ensures Below(d, r)
    {
      if d != root {
        assert d in multiset(scored) - multiset(kept);
        assert root in kept;
        assert Below(d, root);
      }
    }
  }

  /** At capacity, an item not above the root is dropped, and it is below every record kept. */
  lemma RejectKeepsTopK<P>(kept: seq<Record<P>>, scored: seq<Record<P>>, k: nat, item: Record<P>)
    requires IsHeap(kept) && IsTopK(kept, scored, k)
    requires |kept| == k && !(0 < k && Below(kept[0], item))
    requires forall r :: r in kept ==> r.number != item.number
    ensures IsTopK(kept, scored + [item], k)
  {
    var scored' := scored + [item];
    assert multiset(scored') == multiset(scored) + multiset{item};
    assert |kept| <= |scored|;
    forall d, r | d in multiset(scored') - multiset(kept) && r in kept
      ensures Below(d, r)
    {
      var i :| 0 <= i < |kept| && kept[i] == r;
      RootIsLeast(kept, i);
      if d != item {
        assert d in multiset(scored) - multiset(kept);
      } else {
        assert kept[0] in kept;
      }
    }
  }

  /** Two frames with the same score: whenever the earlier one is kept, so is the later one. */
  lemma EqualScoreKeepsLater<P>(kept: seq<Record<P>>, scored: seq<Record<P>>, k: nat, a: Record<P>, b: Record<P>)
    requires IsTopK(kept, scored, k)
    requires a in scored && b in scored && a.key == b.key && a.number < b.number
    requires a in kept
    ensures b in kept
  {
    assert b in multiset(scored) - multiset(kept) ==> Below(b, a);
  }

  /** The sequence with the items at `i` and `j` exchanged. */
  function Swap<P>(h: seq<Record<P>>, i: nat, j: nat): seq<Record<P>>
    requires i < |h| && j < |h|
  {
    h[i := h[j]][j := h[i]]
  }

  /** One iteration of heapq._siftup's loop: the fault moves to the chosen child and nothing is lost. */
  lemma SinkOneLevel<P>(h: seq<Record<P>>, pos: nat, child: nat)
    requires child < |h| && HeapExceptAt(h, pos) && DistinctNumbers(h)
    requires || (child == 2 * pos + 1 && (child + 1 < |h| ==> Below(h[child], h[child + 1])))
             || (child == 2 * pos + 2 && !Below(h[child - 1], h[child]))
    ensures HeapExceptAt(Swap(h, pos, child), child) && DistinctNumbers(Swap(h, pos, child))
    ensures multiset(Swap(h, pos, child)) == multiset(h)
  {
    SmallerChild(h, pos, child);
    SinkStep(h, pos, child);
    SwapKeepsDistinct(h, pos, child);
  }

  /**
   * The first loop of heapq._siftup(heap, 0): the hole at the root moves
   * down to a leaf, each time to the smaller child (the right one unless
   * the left is smaller).
   */
  method SinkToLeaf<P>(heap: seq<Record<P>>) returns (h: seq<Record<P>>, pos: nat)
    requires 0 < |heap| && HeapExceptAt(heap, 0) && DistinctNumbers(heap)
    ensures pos < |h| && HeapExceptUp(h, pos) && DistinctNumbers(h)
    ensures multiset(h) == multiset(heap)
  {
    var child := 1;
    h, pos := heap, 0;
    while child < |h|
      invariant child == 2 * pos + 1 && pos < |h|
      invariant HeapExceptAt(h, pos) && DistinctNumbers(h)
      invariant multiset(h) == multiset(heap)
      decreases |h| - pos
    {
      if child + 1 < |h| && !Below(h[child], h[child + 1]) {
        child := child + 1;
      }
      SinkOneLevel(h, pos, child);
      h, pos := Swap(h, pos, child), child;
      child := 2 * pos + 1;
    }
    LeafIsExceptUp(h, pos);
  }

  /** The `keeped_frames` heap of flow mode, with its capacity `num_frames`. */
  class MotionSelector<P> {
    const capacity: nat
    var heap: seq<Record<P>>
    ghost var scored: seq<Record<P>>

    ghost predicate Valid()
      reads this
    {
      && IsHeap(heap)
      && DistinctNumbers(heap)
      && IsTopK(heap, scored, capacity)
      && (|heap| < capacity ==> multiset(heap) == multiset(scored))
    }

    constructor (capacity: nat)
      ensures Valid() && this.capacity == capacity && heap == [] && scored == []
    {
      this.capacity := capacity;
      heap, scored := [], [];
    }

    /** Offers a scored frame whose number is above every number offered before. */
    method Offer(score: int, number: nat, pixels: P)
      requires Valid()
      requires forall r :: r in scored ==> r.number < number
      modifies this`heap, this`scored
      ensures Valid()
      ensures scored == old(scored) + [Record(score, number, pixels)]
      ensures old(|heap|) < capacity ==>
                multiset(heap) == multiset(old(heap)) + multiset{Record(score, number, pixels)}
      ensures old(|heap|) == capacity && 0 < capacity && Below(old(heap)[0], Record(score, number, pixels)) ==>
                multiset(heap) == multiset(old(heap)[0 := Record(score, number, pixels)])
      ensures old(|heap|) == capacity && !(0 < capacity && Below(old(heap)[0], Record(score, number, pixels))) ==>
                heap == old(heap)
    {
      var item := Record(score, number, pixels);
      assert forall r :: r in heap ==> r.number != number by {
        forall r | r in heap ensures r.number != number {
          assert r in multiset(heap);
        }
      }
      if |heap| < capacity {
        HeapPush(item);
        PushKeepsTopK(old(heap), scored, capacity, item, heap);
      } else {
        var before := heap;
        var _ := HeapPushPop(item);
        if 0 < |before| && Below(before[0], item) {
          ReplaceKeepsTopK(before, scored, capacity, item, heap);
        } else {
          RejectKeepsTopK(before, scored, capacity, item);
        }
      }
      scored := scored + [item];
    }

    /** heapq.heappush */
    method HeapPush(item: Record<P>)
      requires IsHeap(heap) && DistinctNumbers(heap)
      requires forall r :: r in heap ==> r.number != item.number
      modifies this`heap
      ensures IsHeap(heap) && DistinctNumbers(heap)
      ensures multiset(heap) == multiset(old(heap)) + multiset{item}
    {
      heap := heap + [item];
      SiftTowardRoot(|heap| - 1);
    }

    /** heapq.heappushpop: returns the smaller of the root and `item`, keeping the other. */
    method HeapPushPop(item: Record<P>) returns (out: Record<P>)
      requires IsHeap(heap) && DistinctNumbers(heap)
      requires forall r :: r in heap ==> r.number != item.number
      modifies this`heap
      ensures IsHeap(heap) && DistinctNumbers(heap) && |heap| == old(|heap|)
      ensures 0 < old(|heap|) && Below(old(heap)[0], item) ==>
                out == old(heap)[0] && multiset(heap) == multiset(old(heap)[0 := item])
      ensures !(0 < old(|heap|) && Below(old(heap)[0], item)) ==> out == item && heap == old(heap)
    {
      out := item;
      if 0 < |heap| && Below(heap[0], item) {
        out := heap[0];
        heap := heap[0 := item];
        SiftFromRoot();
      }
    }

    /** heapq._siftdown(heap, 0, pos): moves the item at `pos` up while it is smaller than its parent. */
    method SiftTowardRoot(pos: nat)
      requires pos < |heap| && HeapExceptUp(heap, pos) && DistinctNumbers(heap)
      modifies this`heap
      ensures IsHeap(heap) && DistinctNumbers(heap)
      ensures multiset(heap) == multiset(old(heap))
    {
      var p: nat := pos;
      while 0 < p && Below(heap[p], heap[(p - 1) / 2])
        invariant p < |heap| == |old(heap)|
        invariant HeapExceptUp(heap, p) && DistinctNumbers(heap)
        invariant multiset(heap) == multiset(old(heap))
      {
        var parent: nat := (p - 1) / 2;
        RiseStep(heap, p);
        SwapKeepsDistinct(heap, p, parent);
        heap := heap[p := heap[parent]][parent := heap[p]];
        p := parent;
      }
    }

    /**
     * heapq._siftup(heap, 0): moves the root down to a leaf, always toward
     * the smaller child (the right one on a tie), then back up.
     */
    method SiftFromRoot()
      requires 0 < |heap| && HeapExceptAt(heap, 0) && DistinctNumbers(heap)
      modifies this`heap
      ensures IsHeap(heap) && DistinctNumbers(heap)
      ensures multiset(heap) == multiset(old(heap))
    {
      var pos;
      heap, pos := SinkToLeaf(heap);
      SiftTowardRoot(pos);
    }
  }
}
