// The kernel heap as a list of segments: what kernel/src/memory/heap.cpp does to
// lengths, addresses and free marks, on values.

module HeapList {
  import opened Units

  // sizeof(HeapSegHdr), packed: three 8-byte fields and a bool.
  const HEADER: nat := 25
  const GRAIN: nat := 16

  datatype Seg = Seg(addr: nat, length: nat, free: bool)

  // The segments in address order, and the bounds of the heap.
  datatype Heap = Heap(segs: seq<Seg>, start: nat, end: nat)

  function EndOf(s: Seg): nat {
    s.addr + HEADER + s.length
  }

  function Next(h: Heap, i: nat): nat
    requires i < |h.segs|
  {
    if i + 1 < |h.segs| then h.segs[i + 1].addr else h.end
  }

  // The segments cover [start, end) with no gap and no overlap.
  predicate Tiles(h: Heap) {
    && |h.segs| > 0 && h.segs[0].addr == h.start
    && forall i :: 0 <= i < |h.segs| ==> EndOf(h.segs[i]) == Next(h, i)
  }

  predicate Coalesced(segs: seq<Seg>) {
    forall i :: 0 <= i < |segs| - 1 ==> !(segs[i].free && segs[i + 1].free)
  }

  predicate Valid(h: Heap) {
    Tiles(h) && Coalesced(h.segs) && forall i :: 0 <= i < |h.segs| ==> h.segs[i].length >= GRAIN
  }

  function Last(h: Heap): Seg
    requires |h.segs| > 0
  {
    h.segs[|h.segs| - 1]
  }

  // ----- The operations -----

  function Initial(start: nat, pageCount: nat): Heap
    requires pageCount > 0
  {
    Heap([Seg(start, pageCount * PAGE - HEADER, true)], start, start + pageCount * PAGE)
  }

  // The rounding at the head of malloc, on size_t.
  function Rounded(size: nat): (n: nat) {
    if size % GRAIN > 0 then (size - size % GRAIN + GRAIN) % WORD_LIMIT else size
  }

  predicate Fits(s: Seg, n: nat) {
    s.free && s.length >= n
  }

  // The first segment from index i on that fits.
  function FindFit(segs: seq<Seg>, n: nat, i: nat): (k: nat)
    requires i <= |segs|
    ensures i <= k <= |segs|
    ensures k < |segs| ==> Fits(segs[k], n)
    ensures forall j :: i <= j < k ==> !Fits(segs[j], n)
    decreases |segs| - i
  {
    if i == |segs| || Fits(segs[i], n) then i else FindFit(segs, n, i + 1)
  }

  // Split refuses a remainder that cannot hold a header and sixteen bytes.
  predicate Splits(length: nat, n: nat) {
    n >= GRAIN && length >= n + HEADER + GRAIN
  }

  // Allocation of segment k.
  function Take(h: Heap, k: nat, n: nat): Heap
    requires k < |h.segs|
  {
    var s := h.segs[k];
    if Splits(s.length, n)
    then h.(segs := h.segs[..k]
                    + [Seg(s.addr, n, false), Seg(s.addr + n + HEADER, s.length - n - HEADER, true)]
                    + h.segs[k + 1..])
    else h.(segs := h.segs[k := s.(free := false)])
  }

  // Segment k swallows its successor.
  function Merge(segs: seq<Seg>, k: nat): seq<Seg>
    requires k + 1 < |segs|
  {
    segs[..k] + [segs[k].(length := segs[k].length + segs[k + 1].length + HEADER)] + segs[k + 2..]
  }

  function CombineForward(segs: seq<Seg>, k: nat): seq<Seg>
    requires k < |segs|
  {
    if k + 1 < |segs| && segs[k + 1].free then Merge(segs, k) else segs
  }

  function CombineBackward(segs: seq<Seg>, k: nat): (r: seq<Seg>)
    requires k < |segs|
  {
    if k > 0 && segs[k - 1].free then CombineForward(segs, k - 1) else segs
  }

  function Free(h: Heap, k: nat): Heap
    requires k < |h.segs|
  {
    var marked := h.segs[k := h.segs[k].(free := true)];
    h.(segs := CombineBackward(CombineForward(marked, k), k))
  }

  // The rounding at the head of ExpandHeap, on size_t.
  function Pages(length: nat): nat {
    if length % PAGE > 0 then (length - length % PAGE + PAGE) % WORD_LIMIT else length
  }

  // ExpandHeap by `length` bytes, a positive multiple of the page size.
  function Expand(h: Heap, length: nat): Heap
    requires |h.segs| > 0 && length > HEADER
  {
    var segs := h.segs + [Seg(h.end, length - HEADER, true)];
    Heap(CombineBackward(segs, |h.segs|), h.start, h.end + length)
  }

  // ----- Every operation keeps the list invariant -----

  lemma InitialValid(start: nat, pageCount: nat)
    requires pageCount > 0
    ensures Valid(Initial(start, pageCount))
  {
  }

  // The segments after a split.
  lemma SplitAt(h: Heap, k: nat, n: nat, i: nat)
    requires k < |h.segs| && Splits(h.segs[k].length, n) && i <= |h.segs|
    ensures |Take(h, k, n).segs| == |h.segs| + 1
    ensures Take(h, k, n).segs[i]
         == (if i < k then h.segs[i] else if i == k then Seg(h.segs[k].addr, n, false)
             else if i == k + 1 then Seg(h.segs[k].addr + n + HEADER, h.segs[k].length - n - HEADER, true)
             else h.segs[i - 1])
  {
  }

  lemma SplitValid(h: Heap, k: nat, n: nat)
    requires Valid(h) && k < |h.segs| && h.segs[k].free && Splits(h.segs[k].length, n)
    ensures Valid(Take(h, k, n))
  {
    var r := Take(h, k, n);
    SplitAt(h, k, n, 0);
    forall i | 0 <= i < |r.segs|
      ensures EndOf(r.segs[i]) == Next(r, i) && r.segs[i].length >= GRAIN
    {
      SplitTilesAt(h, k, n, i);
    }
    forall i | 0 <= i < |r.segs| - 1
      ensures !(r.segs[i].free && r.segs[i + 1].free)
    {
      SplitCoalescedAt(h, k, n, i);
    }
  }

  lemma SplitTilesAt(h: Heap, k: nat, n: nat, i: nat)
    requires Valid(h) && k < |h.segs| && Splits(h.segs[k].length, n) && i <= |h.segs|
    ensures var r := Take(h, k, n);
            |r.segs| == |h.segs| + 1 && EndOf(r.segs[i]) == Next(r, i) && r.segs[i].length >= GRAIN
  {
    SplitAt(h, k, n, i);
    if i < |h.segs| {
      SplitAt(h, k, n, i + 1);
    }
    if i < k {
      assert EndOf(h.segs[i]) == Next(h, i);
    } else if i > k {
      var j := i - 1;
      assert EndOf(h.segs[j]) == Next(h, j);
    }
  }

  lemma SplitCoalescedAt(h: Heap, k: nat, n: nat, i: nat)
    requires Valid(h) && k < |h.segs| && h.segs[k].free && Splits(h.segs[k].length, n) && i < |h.segs|
    ensures var r := Take(h, k, n);
            |r.segs| == |h.segs| + 1 && !(r.segs[i].free && r.segs[i + 1].free)
  {
    SplitAt(h, k, n, i);
    SplitAt(h, k, n, i + 1);
    if i + 1 < k {
      assert !(h.segs[i].free && h.segs[i + 1].free);
    } else if i > k {
      var j := i - 1;
      assert !(h.segs[j].free && h.segs[j + 1].free);
    }
  }

  // Changing the mark of one segment keeps the tiling.
  lemma MarkSound(h: Heap, k: nat, free: bool)
    requires Sound(h) && k < |h.segs|
    ensures Sound(h.(segs := h.segs[k := h.segs[k].(free := free)]))
  {
    var marked := h.(segs := h.segs[k := h.segs[k].(free := free)]);
    forall i | 0 <= i < |marked.segs|
      ensures EndOf(marked.segs[i]) == Next(marked, i)
    {
      assert EndOf(h.segs[i]) == Next(h, i);
    }
  }

  /** Allocating keeps the invariant; the segment given out holds what was asked for and at most 40 bytes more. */
  lemma TakeValid(h: Heap, k: nat, n: nat)
    requires Valid(h) && k < |h.segs| && Fits(h.segs[k], n) && n >= GRAIN
    ensures var r := Take(h, k, n);
            Valid(r) && k < |r.segs| && r.segs[..k] == h.segs[..k]
            && r.segs[k].addr == h.segs[k].addr && !r.segs[k].free && n <= r.segs[k].length <= n + HEADER + 15
  {
    if Splits(h.segs[k].length, n) {
      SplitValid(h, k, n);
      SplitAt(h, k, n, k);
    } else {
      MarkSound(h, k, false);
    }
  }

  lemma MergeAt(segs: seq<Seg>, k: nat, i: nat)
    requires k + 1 < |segs| && i < |segs| - 1
    ensures |Merge(segs, k)| == |segs| - 1
    ensures Merge(segs, k)[i] == (if i < k then segs[i]
                                  else if i == k then segs[k].(length := segs[k].length + segs[k + 1].length + HEADER)
                                  else segs[i + 1])
  {
  }

  /** Merging keeps the tiling and every length at least sixteen. */
  lemma MergeTiles(h: Heap, k: nat)
    requires Tiles(h) && k + 1 < |h.segs| && (forall i :: 0 <= i < |h.segs| ==> h.segs[i].length >= GRAIN)
    ensures Tiles(h.(segs := Merge(h.segs, k)))
    ensures forall i :: 0 <= i < |h.segs| - 1 ==> Merge(h.segs, k)[i].length >= GRAIN
  {
    var r := h.(segs := Merge(h.segs, k));
    MergeAt(h.segs, k, 0);
    forall i | 0 <= i < |r.segs|
      ensures EndOf(r.segs[i]) == Next(r, i) && r.segs[i].length >= GRAIN
    {
      MergeAt(h.segs, k, i);
      if i + 1 < |r.segs| {
        MergeAt(h.segs, k, i + 1);
      }
    }
  }

  predicate Sound(h: Heap) {
    Tiles(h) && forall i :: 0 <= i < |h.segs| ==> h.segs[i].length >= GRAIN
  }

  /** CombineForward removes the pair of free neighbours at its segment. */
  lemma CombineForwardValid(h: Heap, k: nat)
    requires Sound(h) && k < |h.segs| && h.segs[k].free
    requires forall i :: k < i < |h.segs| - 1 ==> !(h.segs[i].free && h.segs[i + 1].free)
    ensures var r := CombineForward(h.segs, k);
            Sound(h.(segs := r)) && k < |r| && r[k].free && r[k].addr == h.segs[k].addr && r[..k] == h.segs[..k]
            && forall i :: k <= i < |r| - 1 ==> !(r[i].free && r[i + 1].free)
  {
    if k + 1 < |h.segs| && h.segs[k + 1].free {
      MergeTiles(h, k);
      MergeCoalesced(h.segs, k, Merge(h.segs, k));
    }
  }

  // No pair of free neighbours is left from the merged segment on.
  lemma MergeCoalesced(segs: seq<Seg>, k: nat, r: seq<Seg>)
    requires k + 1 < |segs| && segs[k].free && segs[k + 1].free && r == Merge(segs, k)
    requires forall i :: k < i < |segs| - 1 ==> !(segs[i].free && segs[i + 1].free)
    ensures k < |r| && r[k].free && r[k].addr == segs[k].addr && r[..k] == segs[..k]
    ensures forall i :: k <= i < |r| - 1 ==> !(r[i].free && r[i + 1].free)
  {
    MergeAt(segs, k, k);
    forall i | k <= i < |r| - 1
      ensures !(r[i].free && r[i + 1].free)
    {
      MergeAt(segs, k, i);
      MergeAt(segs, k, i + 1);
      assert !(segs[i + 1].free && segs[i + 2].free);
    }
  }

  /** Freeing any segment, even one already free, keeps the invariant. */
  lemma FreeValid(h: Heap, k: nat)
    requires Valid(h) && k < |h.segs|
    ensures Valid(Free(h, k))
  {
    var marked := h.(segs := h.segs[k := h.segs[k].(free := true)]);
    MarkSound(h, k, true);
    CombineForwardValid(marked, k);
    var f := CombineForward(marked.segs, k);
    PrefixCoalesced(h.segs, f, k);
    BackwardValid(h.(segs := f), k);
  }

  lemma PrefixCoalesced(segs: seq<Seg>, r: seq<Seg>, k: nat)
    requires Coalesced(segs) && k < |segs| && k < |r| && r[..k] == segs[..k]
    ensures forall i :: 0 <= i < k - 1 ==> !(r[i].free && r[i + 1].free)
  {
    forall i | 0 <= i < k - 1
      ensures !(r[i].free && r[i + 1].free)
    {
      assert r[i] == r[..k][i] == segs[i] && r[i + 1] == r[..k][i + 1] == segs[i + 1];
    }
  }

  lemma BackwardValid(f: Heap, k: nat)
    requires Sound(f) && k < |f.segs| && f.segs[k].free
    requires forall i :: 0 <= i < |f.segs| - 1 && i != k - 1 ==> !(f.segs[i].free && f.segs[i + 1].free)
    ensures Valid(f.(segs := CombineBackward(f.segs, k)))
  {
    if k > 0 && f.segs[k - 1].free {
      CombineForwardValid(f, k - 1);
      MergedBehind(f.segs, k - 1, CombineForward(f.segs, k - 1));
    }
  }

  lemma MergedBehind(segs: seq<Seg>, k: nat, r: seq<Seg>)
    requires k + 1 < |segs| && segs[k].free && segs[k + 1].free && k < |r| && r[..k] == segs[..k]
    requires r[k].free && r[k].addr == segs[k].addr
    requires forall i :: 0 <= i < |segs| - 1 && i != k ==> !(segs[i].free && segs[i + 1].free)
    requires forall i :: k <= i < |r| - 1 ==> !(r[i].free && r[i + 1].free)
    ensures Coalesced(r)
  {
    forall i | 0 <= i < |r| - 1
      ensures !(r[i].free && r[i + 1].free)
    {
      if i < k {
        assert r[i] == r[..k][i] == segs[i];
        assert !(segs[i].free && segs[i + 1].free);
        assert i + 1 < k ==> r[i + 1] == r[..k][i + 1] == segs[i + 1];
      }
    }
  }

  /** Growing the heap keeps the invariant. */
  lemma ExpandValid(h: Heap, length: nat)
    requires Valid(h) && length >= HEADER + GRAIN
    ensures Valid(Expand(h, length))
  {
    var k := |h.segs|;
    var f := Heap(h.segs + [Seg(h.end, length - HEADER, true)], h.start, h.end + length);
    forall i | 0 <= i < |f.segs|
      ensures EndOf(f.segs[i]) == Next(f, i)
    {
      if i < k {
        assert EndOf(h.segs[i]) == Next(h, i);
      }
    }
    BackwardValid(f, k);
  }
}
