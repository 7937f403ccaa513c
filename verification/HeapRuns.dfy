// What runs of malloc and free do to the segment list.

module HeapRuns {
  import opened Units
  import opened HeapList

  // ----- Growing until the request fits -----

  predicate Fitting(h: Heap, n: nat) {
    FindFit(h.segs, n, 0) < |h.segs|
  }

  // How many times malloc calls ExpandHeap.
  function Expansions(h: Heap, n: nat): nat
    requires |h.segs| > 0
  {
    if Fitting(h, n) then 0
    else if Last(h).free || Pages(n) - HEADER >= n then 1
    else 2
  }

  // Lengths that ExpandHeap can round up to pages.
  predicate Request(n: nat) {
    0 < n && n <= WORD_LIMIT - PAGE
  }

  lemma PagesExact(n: nat)
    requires Request(n)
    ensures n <= Pages(n) < n + PAGE && Pages(n) % PAGE == 0 && Pages(n) >= PAGE
  {
  }

  lemma FitsAt(h: Heap, n: nat, k: nat)
    requires k < |h.segs| && Fits(h.segs[k], n)
    ensures Fitting(h, n)
  {
  }

  lemma ExpandedLast(h: Heap, length: nat)
    requires Valid(h) && length >= HEADER + GRAIN
    ensures Valid(Expand(h, length)) && Last(Expand(h, length)).free
    ensures Last(Expand(h, length)).length == if Last(h).free then Last(h).length + length else length - HEADER
  {
    ExpandValid(h, length);
  }

  // One call of ExpandHeap.
  function OncePaged(h: Heap, n: nat): Heap
    requires |h.segs| > 0 && Request(n)
  {
    PagesExact(n);
    Expand(h, Pages(n))
  }

  /** Each expansion lowers the number still needed: malloc's recursion ends after at most two. */
  lemma ExpandHelps(h: Heap, n: nat)
    requires Valid(h) && Request(n) && !Fitting(h, n)
    ensures Valid(OncePaged(h, n)) && Expansions(OncePaged(h, n), n) < Expansions(h, n) <= 2
  {
    PagesExact(n);
    ExpandedLast(h, Pages(n));
    var e := Expand(h, Pages(n));
    if Last(e).length >= n {
      FitsAt(e, n, |e.segs| - 1);
    }
  }

  function Grown(h: Heap, n: nat): (r: Heap)
    requires Valid(h) && Request(n)
    ensures Valid(r) && Fitting(r, n)
    decreases Expansions(h, n)
  {
    if Fitting(h, n) then h
    else
      ExpandHelps(h, n);
      Grown(OncePaged(h, n), n)
  }

  // The segment malloc(n) gives out, and the heap after it, for rounded n.
  function Chosen(h: Heap, n: nat): (k: nat)
    requires Valid(h) && Request(n)
    ensures k < |Grown(h, n).segs|
  {
    FindFit(Grown(h, n).segs, n, 0)
  }

  function Malloc(h: Heap, n: nat): (r: Heap)
    requires Valid(h) && Request(n) && n >= GRAIN
    ensures Valid(r) && Chosen(h, n) < |r.segs|
  {
    TakeValid(Grown(h, n), Chosen(h, n), n);
    Take(Grown(h, n), Chosen(h, n), n)
  }

  lemma RoundedExact(size: nat)
    requires size < WORD_LIMIT
    ensures Rounded(size) == 0 <==> size == 0 || size > WORD_LIMIT - GRAIN
    ensures Rounded(size) != 0 ==> size <= Rounded(size) <= size + 15 && GRAIN <= Rounded(size)
  {
  }

  predicate GrowsBy(start: nat, end: nat, times: nat, p: nat) {
    end == start + times * p
  }

  lemma GrowsOnce(start: nat, mid: nat, end: nat, fewer: nat, more: nat, p: nat)
    requires mid == start + p && GrowsBy(mid, end, fewer, p) && more == fewer + 1
    ensures GrowsBy(start, end, more, p)
  {
  }

  lemma {:induction false} GrownEnd(h: Heap, n: nat)
    requires Valid(h) && Request(n)
    ensures GrowsBy(h.end, Grown(h, n).end, Expansions(h, n), Pages(n))
    decreases Expansions(h, n)
  {
    if Fitting(h, n) {
      GrownAlready(h, n);
    } else {
      ExpandHelps(h, n);
      GrownEnd(OncePaged(h, n), n);
      GrownStep(h, n, OncePaged(h, n));
    }
  }

  lemma GrownAlready(h: Heap, n: nat)
    requires Valid(h) && Request(n) && Fitting(h, n)
    ensures GrowsBy(h.end, Grown(h, n).end, Expansions(h, n), Pages(n))
  {
  }

  lemma GrownStep(h: Heap, n: nat, once: Heap)
    requires Valid(h) && Request(n) && !Fitting(h, n) && Valid(once) && once == OncePaged(h, n)
    requires GrowsBy(once.end, Grown(once, n).end, Expansions(once, n), Pages(n))
    ensures GrowsBy(h.end, Grown(h, n).end, Expansions(h, n), Pages(n))
  {
    GrownOn(h, n, once);
    LastExpansion(h, n);
    GrowsOnce(h.end, once.end, Grown(once, n).end, Expansions(once, n), Expansions(h, n), Pages(n));
  }

  lemma GrownOn(h: Heap, n: nat, once: Heap)
    requires Valid(h) && Request(n) && !Fitting(h, n) && Valid(once) && once == OncePaged(h, n)
    ensures Grown(h, n) == Grown(once, n) && once.end == h.end + Pages(n)
  {
    PagesExact(n);
  }

  // One expansion less is needed behind each.
  lemma LastExpansion(h: Heap, n: nat)
    requires Valid(h) && Request(n) && !Fitting(h, n)
    ensures Valid(OncePaged(h, n)) && Expansions(OncePaged(h, n), n) + 1 == Expansions(h, n)
  {
    PagesExact(n);
    ExpandedLast(h, Pages(n));
    ExpandHelps(h, n);
    var e := Expand(h, Pages(n));
    if Last(h).free || Pages(n) - HEADER >= n {
    } else if Fitting(e, n) {
      NewlyFits(h, n);
    }
  }

  // What fits only behind an expansion is the last segment.
  lemma NewlyFits(h: Heap, n: nat)
    requires Valid(h) && Request(n) && !Fitting(h, n) && !Last(h).free
    ensures Fitting(OncePaged(h, n), n) ==> Pages(n) - HEADER >= n
  {
    PagesExact(n);
    var e, last := OncePaged(h, n), |h.segs|;
    assert e.segs == h.segs + [Seg(h.end, Pages(n) - HEADER, true)];
    assert forall j :: 0 <= j < last ==> e.segs[j] == h.segs[j] && !Fits(h.segs[j], n);
  }

  // The least multiples of 16 and of 4096 that hold a size.
  lemma RoundedUp(size: nat)
    requires size <= WORD_LIMIT - GRAIN
    ensures Rounded(size) == (size + 15) / 16 * 16
  {
    if size % 16 > 0 {
      assert size - size % 16 == size / 16 * 16;
    }
  }

  lemma PagesUp(n: nat)
    requires Request(n)
    ensures Pages(n) == (n + 4095) / 4096 * 4096
  {
    if n % 4096 > 0 {
      assert n - n % 4096 == n / 4096 * 4096;
    }
  }

  /**
   * What malloc does with a size: it rounds it up to a multiple of 16, grows the heap by whole multiples of its
   * pages until some segment holds it, and gives out the lowest such segment, cut to just that length if a header
   * and 16 bytes are left behind it, and else whole.
   */
  lemma MallocBounds(h: Heap, size: nat, n: nat)
    requires Valid(h) && 0 < size && size <= WORD_LIMIT - PAGE - GRAIN && n == (size + 15) / 16 * 16
    ensures Rounded(size) == n && Request(n) && n >= GRAIN
    ensures var g, k := Grown(h, n), Chosen(h, n);
            && g.end == h.end + Expansions(h, n) * ((n + 4095) / 4096 * 4096) && Expansions(h, n) <= 2
            && (forall j :: 0 <= j < k ==> !Fits(g.segs[j], n)) && Fits(g.segs[k], n)
            && var block := Malloc(h, n).segs[k];
               block == Seg(g.segs[k].addr, if g.segs[k].length >= n + 41 then n else g.segs[k].length, false)
               && size <= block.length <= size + 55
  {
    RoundedExact(size);
    RoundedUp(size);
    PagesUp(n);
    GrownEnd(h, n);
    TakenBlock(Grown(h, n), Chosen(h, n), n);
  }

  lemma TakenBlock(h: Heap, k: nat, n: nat)
    requires Valid(h) && k < |h.segs| && Fits(h.segs[k], n) && n >= GRAIN
    ensures k < |Take(h, k, n).segs|
    ensures Take(h, k, n).segs[k] == Seg(h.segs[k].addr, if h.segs[k].length >= n + 41 then n else h.segs[k].length, false)
    ensures n <= Take(h, k, n).segs[k].length <= n + 40
  {
    TakeValid(h, k, n);
    if Splits(h.segs[k].length, n) {
      SplitAt(h, k, n, k);
    }
  }

  // ----- Segments never overlap -----

  lemma {:induction false} InOrder(h: Heap, i: nat, j: nat)
    requires Tiles(h) && i < j < |h.segs|
    ensures EndOf(h.segs[i]) <= h.segs[j].addr
    decreases j
  {
    assert EndOf(h.segs[j - 1]) == Next(h, j - 1);
    if i < j - 1 {
      InOrder(h, i, j - 1);
    }
  }

  function Total(segs: seq<Seg>): nat {
    if segs == [] then 0 else Total(segs[..|segs| - 1]) + segs[|segs| - 1].length + HEADER
  }

  lemma {:induction false} PrefixTotal(h: Heap, k: nat)
    requires Tiles(h) && 0 < k <= |h.segs|
    ensures h.start + Total(h.segs[..k]) == EndOf(h.segs[k - 1])
    decreases k
  {
    assert h.segs[..k][..k - 1] == h.segs[..k - 1];
    if k > 1 {
      PrefixTotal(h, k - 1);
      assert EndOf(h.segs[k - 2]) == Next(h, k - 2);
    } else {
      assert h.segs[..0] == [];
    }
  }

  /** Conservation: the lengths and headers add up to the heap. */
  lemma Conservation(h: Heap)
    requires Tiles(h)
    ensures Total(h.segs) == h.end - h.start
  {
    PrefixTotal(h, |h.segs|);
    assert h.segs[..|h.segs|] == h.segs;
    assert EndOf(h.segs[|h.segs| - 1]) == Next(h, |h.segs| - 1);
  }

  // ----- free undoes malloc -----

  // Merging the two halves of a split segment restores it.
  lemma MergeUndoesSplit(h: Heap, k: nat, n: nat)
    requires k < |h.segs| && h.segs[k].free && Splits(h.segs[k].length, n)
    ensures var t := Take(h, k, n);
            k + 1 < |t.segs| && t.segs[k + 1].free
            && Merge(t.segs[k := t.segs[k].(free := true)], k) == h.segs
  {
    var t := Take(h, k, n);
    SplitAt(h, k, n, k);
    SplitAt(h, k, n, k + 1);
    var marked := t.segs[k := t.segs[k].(free := true)];
    forall i | 0 <= i < |h.segs|
      ensures Merge(marked, k)[i] == h.segs[i]
    {
      MergeAt(marked, k, i);
      SplitAt(h, k, n, i);
      SplitAt(h, k, n, i + 1);
    }
    MergeAt(marked, k, 0);
  }

  /** Freeing a block just taken gives back the same segment list, split or not. */
  lemma FreeUndoesTake(h: Heap, k: nat, n: nat)
    requires Valid(h) && k < |h.segs| && Fits(h.segs[k], n) && n >= GRAIN
    ensures k < |Take(h, k, n).segs| && Free(Take(h, k, n), k) == h
  {
    assert k > 0 ==> !h.segs[k - 1].free;
    if Splits(h.segs[k].length, n) {
      MergeUndoesSplit(h, k, n);
    } else {
      var t := Take(h, k, n);
      assert t.segs[k := t.segs[k].(free := true)] == h.segs;
    }
  }

  // ----- Live blocks -----

  function Live(segs: seq<Seg>): set<Seg> {
    set i | 0 <= i < |segs| && !segs[i].free :: segs[i]
  }

  lemma Distinct(h: Heap, i: nat, j: nat)
    requires Tiles(h) && i < |h.segs| && j < |h.segs| && h.segs[i].addr == h.segs[j].addr
    ensures i == j
  {
    if i < j {
      InOrder(h, i, j);
    } else if j < i {
      InOrder(h, j, i);
    }
  }

  lemma LiveConcat(a: seq<Seg>, b: seq<Seg>)
    ensures Live(a + b) == Live(a) + Live(b)
  {
    forall s | s in Live(a) + Live(b)
      ensures s in Live(a + b)
    {
      if s in Live(a) {
        var i :| 0 <= i < |a| && !a[i].free && a[i] == s;
        assert (a + b)[i] == s;
      } else {
        var i :| 0 <= i < |b| && !b[i].free && b[i] == s;
        assert (a + b)[|a| + i] == s;
      }
    }
  }

  lemma LiveOne(s: Seg)
    ensures Live([s]) == if s.free then {} else {s}
  {
    if !s.free {
      assert [s][0] == s;
    }
  }

  // Three parts around segment k.
  lemma LiveAround(segs: seq<Seg>, k: nat)
    requires k < |segs|
    ensures Live(segs) == Live(segs[..k]) + Live([segs[k]]) + Live(segs[k + 1..])
  {
    assert segs == segs[..k] + [segs[k]] + segs[k + 1..];
    LiveConcat(segs[..k] + [segs[k]], segs[k + 1..]);
    LiveConcat(segs[..k], [segs[k]]);
  }

  lemma MergeKeepsLive(segs: seq<Seg>, k: nat)
    requires k + 1 < |segs| && segs[k].free && segs[k + 1].free
    ensures Live(Merge(segs, k)) == Live(segs)
  {
    var merged := segs[k].(length := segs[k].length + segs[k + 1].length + HEADER);
    LiveAround(segs, k);
    LiveAround(segs[k + 1..], 0);
    assert segs[k + 1..][1..] == segs[k + 2..] && segs[k + 1..][..0] == [];
    LiveOne(segs[k]);
    LiveOne(segs[k + 1]);
    LiveOne(merged);
    LiveConcat(segs[..k] + [merged], segs[k + 2..]);
    LiveConcat(segs[..k], [merged]);
  }

  lemma MarkedLive(h: Heap, k: nat)
    requires Tiles(h) && k < |h.segs|
    ensures Live(h.segs[k := h.segs[k].(free := true)]) == Live(h.segs) - {h.segs[k]}
  {
    var marked := h.segs[k := h.segs[k].(free := true)];
    forall s
      ensures s in Live(marked) <==> s in Live(h.segs) && s != h.segs[k]
    {
      if s in Live(marked) {
        var i :| 0 <= i < |marked| && !marked[i].free && marked[i] == s;
        assert h.segs[i] == s;
        if s == h.segs[k] {
          Distinct(h, i, k);
        }
      }
      if s in Live(h.segs) && s != h.segs[k] {
        var i :| 0 <= i < |h.segs| && !h.segs[i].free && h.segs[i] == s;
        assert marked[i] == s;
      }
    }
  }

  /** free drops exactly its own block: every other live block keeps its address and length. */
  lemma FreeLive(h: Heap, k: nat)
    requires Valid(h) && k < |h.segs|
    ensures Live(Free(h, k).segs) == Live(h.segs) - {h.segs[k]}
  {
    MarkedLive(h, k);
    var marked := h.segs[k := h.segs[k].(free := true)];
    if k + 1 < |marked| && marked[k + 1].free {
      MergeKeepsLive(marked, k);
    }
    var f := CombineForward(marked, k);
    if k > 0 && f[k - 1].free {
      assert f[k].free;
      MergeKeepsLive(f, k - 1);
    }
  }

  /** malloc adds exactly one live block and moves none. */
  lemma TakeLive(h: Heap, k: nat, n: nat)
    requires Valid(h) && k < |h.segs| && Fits(h.segs[k], n) && n >= GRAIN
    ensures k < |Take(h, k, n).segs|
    ensures Live(Take(h, k, n).segs) == Live(h.segs) + {Take(h, k, n).segs[k]}
    ensures Take(h, k, n).segs[k] !in Live(h.segs)
  {
    TakeValid(h, k, n);
    FreeUndoesTake(h, k, n);
    FreeLive(Take(h, k, n), k);
    var t := Take(h, k, n);
    assert t.segs[k] in Live(t.segs);
  }

  lemma ExpandLive(h: Heap, length: nat)
    requires Valid(h) && length >= HEADER + GRAIN
    ensures Live(Expand(h, length).segs) == Live(h.segs)
  {
    var new' := Seg(h.end, length - HEADER, true);
    var segs := h.segs + [new'];
    LiveConcat(h.segs, [new']);
    LiveOne(new');
    if segs[|h.segs| - 1].free {
      MergeKeepsLive(segs, |h.segs| - 1);
    }
  }

  lemma {:induction false} GrownLive(h: Heap, n: nat)
    requires Valid(h) && Request(n)
    ensures Live(Grown(h, n).segs) == Live(h.segs) && Grown(h, n).start == h.start && Grown(h, n).end >= h.end
    decreases Expansions(h, n)
  {
    if !Fitting(h, n) {
      ExpandHelps(h, n);
      PagesExact(n);
      ExpandLive(h, Pages(n));
      GrownLive(OncePaged(h, n), n);
    }
  }

  // ----- Runs -----

  function IndexOf(segs: seq<Seg>, addr: nat): (k: nat)
    ensures k <= |segs| && (k < |segs| ==> segs[k].addr == addr)
    ensures k == |segs| ==> forall i :: 0 <= i < |segs| ==> segs[i].addr != addr
  {
    if segs == [] then 0 else if segs[0].addr == addr then 0 else 1 + IndexOf(segs[1..], addr)
  }

  // free(address of the block), for a live block.
  function FreeBlock(h: Heap, block: Seg): Heap {
    var k := IndexOf(h.segs, block.addr);
    if k < |h.segs| then Free(h, k) else h
  }

  lemma FreeBlockExact(h: Heap, block: Seg)
    requires Valid(h) && block in Live(h.segs)
    ensures Valid(FreeBlock(h, block)) && Live(FreeBlock(h, block).segs) == Live(h.segs) - {block}
    ensures FreeBlock(h, block).start == h.start && FreeBlock(h, block).end == h.end
  {
    var i :| 0 <= i < |h.segs| && !h.segs[i].free && h.segs[i] == block;
    var k := IndexOf(h.segs, block.addr);
    Distinct(h, i, k);
    FreeValid(h, k);
    FreeLive(h, k);
  }

  function FreeAll(h: Heap, order: seq<Seg>): Heap
    decreases |order|
  {
    if order == [] then h else FreeAll(FreeBlock(h, order[0]), order[1..])
  }

  predicate NoRepeats(order: seq<Seg>) {
    forall i, j :: 0 <= i < j < |order| ==> order[i] != order[j]
  }

  function Elements(order: seq<Seg>): set<Seg> {
    set s | s in order
  }

  // One free segment covers the heap.
  predicate Whole(h: Heap) {
    |h.segs| == 1 && h.segs[0].free && h.segs[0].addr == h.start && EndOf(h.segs[0]) == h.end
  }

  lemma NoLiveMeansWhole(h: Heap)
    requires Valid(h) && Live(h.segs) == {}
    ensures Whole(h)
  {
    assert forall i :: 0 <= i < |h.segs| && !h.segs[i].free ==> h.segs[i] in Live(h.segs);
    assert EndOf(h.segs[0]) == Next(h, 0);
  }

  lemma ElementsOfRest(order: seq<Seg>)
    requires NoRepeats(order) && order != []
    ensures order[0] in Elements(order) && Elements(order[1..]) == Elements(order) - {order[0]} && NoRepeats(order[1..])
  {
    var rest := order[1..];
    assert forall j :: 0 <= j < |rest| ==> rest[j] == order[j + 1];
    assert order == [order[0]] + rest;
  }

  /** Freeing every live block, in any order, leaves one free segment covering the whole heap. */
  lemma {:induction false} FreeAllCoalesces(h: Heap, order: seq<Seg>)
    requires Valid(h) && NoRepeats(order) && Elements(order) == Live(h.segs)
    ensures Whole(FreeAll(h, order)) && FreeAll(h, order).start == h.start && FreeAll(h, order).end == h.end
    decreases |order|
  {
    if order == [] {
      NoLiveMeansWhole(h);
    } else {
      ElementsOfRest(order);
      FreeBlockExact(h, order[0]);
      FreeAllCoalesces(FreeBlock(h, order[0]), order[1..]);
    }
  }

  datatype Call = Alloc(size: nat) | Release(block: Seg)

  // One call of a client that frees only blocks it holds; `held` are the blocks it has been given.
  ghost predicate Step(h: Heap, held: set<Seg>, call: Call, h': Heap, held': set<Seg>)
    requires Valid(h)
  {
    match call
    case Alloc(size) =>
      var n := Rounded(size);
      if n == 0 then h' == h && held' == held
      else Request(n) && n >= GRAIN && h' == Malloc(h, n) && held' == held + {Malloc(h, n).segs[Chosen(h, n)]}
    case Release(block) => block in held && h' == FreeBlock(h, block) && held' == held - {block}
  }

  ghost predicate Reaches(h: Heap, held: set<Seg>, calls: seq<Call>, h': Heap, held': set<Seg>)
    decreases |calls|
  {
    Valid(h) &&
    if calls == [] then h' == h && held' == held
    else exists m, mid :: Step(h, held, calls[0], m, mid) && Reaches(m, mid, calls[1..], h', held')
  }

  /** Whatever the client does, the blocks it holds are exactly the live segments of a valid heap. */
  lemma {:induction false} HeldBlocksAreLive(h: Heap, held: set<Seg>, calls: seq<Call>, h': Heap, held': set<Seg>)
    requires Reaches(h, held, calls, h', held') && held == Live(h.segs)
    ensures Valid(h') && held' == Live(h'.segs) && h'.start == h.start
    decreases |calls|
  {
    if calls != [] {
      var m, mid :| Step(h, held, calls[0], m, mid) && Reaches(m, mid, calls[1..], h', held');
      match calls[0] {
        case Alloc(size) =>
          if Rounded(size) != 0 {
            MallocLive(h, Rounded(size));
          }
        case Release(block) =>
          FreeBlockExact(h, block);
      }
      HeldBlocksAreLive(m, mid, calls[1..], h', held');
    }
  }

  lemma MallocLive(h: Heap, n: nat)
    requires Valid(h) && Request(n) && n >= GRAIN
    ensures Live(Malloc(h, n).segs) == Live(h.segs) + {Malloc(h, n).segs[Chosen(h, n)]}
    ensures Malloc(h, n).start == h.start
  {
    GrownLive(h, n);
    TakeLive(Grown(h, n), Chosen(h, n), n);
  }

  /** From any state a client can reach, giving back all its blocks in any order restores one free segment. */
  lemma RunThenFreeAll(start: nat, pageCount: nat, calls: seq<Call>, h: Heap, held: set<Seg>, order: seq<Seg>)
    requires pageCount > 0
    requires Reaches(Initial(start, pageCount), {}, calls, h, held)
    requires NoRepeats(order) && Elements(order) == held
    ensures Whole(FreeAll(h, order)) && FreeAll(h, order).start == start && FreeAll(h, order).end == h.end
  {
    InitialValid(start, pageCount);
    LiveOne(Initial(start, pageCount).segs[0]);
    HeldBlocksAreLive(Initial(start, pageCount), {}, calls, h, held);
    FreeAllCoalesces(h, order);
  }
}
