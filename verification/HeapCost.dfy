// When malloc and InitializeHeap run out of memory: kernel/src/memory/heap.cpp over ptm.cpp and pfa.cpp.

module HeapCost {
  import opened Units
  import opened PageIndex
  import opened PageTables
  import opened VmSpec
  import opened MapCost
  import opened HeapList
  import opened HeapRuns
  import opened HeapMemory
  import opened HeapMachine
  import F = FrameSpec

  /**
   * A fresh page panics exactly when fewer frames are available than it needs: its own and one for each missing
   * table. Otherwise it takes just these.
   */
  lemma FreshCosts(vm: Vm, root: nat, page: nat)
    requires Inv(vm, root)
    ensures var r, missing := MapFresh(vm, root, page), MissingTables(vm.words, root, Route(page));
            && Inv(r.vm, root)
            && (r.Panic? <==> F.Available(vm.frames) < 1 + missing)
            && (r.Panic? ==> F.Exhausted(r.vm.frames))
            && (r.Done? ==> F.Available(r.vm.frames) == F.Available(vm.frames) - 1 - missing)
  {
    F.RequestAvailable(vm.frames);
    RequestExtends(vm, root);
    RouteExact(page);
    var requested := vm.(frames := F.AfterRequest(vm.frames));
    if F.Exhausted(vm.frames) {
      F.RequestAvailable(requested.frames);
    } else {
      MapExact(requested, root, Route(page), F.Requested(vm.frames));
      MapCosts(requested, root, Route(page), F.Requested(vm.frames));
    }
  }

  // Frames for some pages: it panics only when none is left, and four for each page are enough.
  ghost predicate CostsPages(vm: Vm, r: Outcome, pages: nat)
    requires F.Valid(vm.frames) && F.Valid(r.vm.frames)
  {
    && (r.Panic? ==> F.Exhausted(r.vm.frames) && F.Available(vm.frames) < 4 * pages)
    && (r.Done? ==> pages <= F.Available(vm.frames) - F.Available(r.vm.frames) <= 4 * pages)
  }

  lemma {:induction false} PagesCost(vm: Vm, root: nat, pages: seq<nat>, r: Outcome)
    requires Inv(vm, root) && Ends(vm, root, pages, r)
    ensures Inv(r.vm, root) && CostsPages(vm, r, |pages|)
    decreases |pages|
  {
    if pages == [] {
      EndsAtOnce(vm, root, pages, r);
    } else {
      var first := MapFresh(vm, root, pages[0]);
      FreshCosts(vm, root, pages[0]);
      MapAllUnfold(vm, root, pages, first, r);
      if first.Done? {
        PagesCost(first.vm, root, pages[1..], r);
      }
    }
  }

  /** InitializeHeap panics only when no frame is left, and never with four available for each page. */
  lemma InitializeCosts(vm: Vm, root: nat, lo: nat, pageCount: nat)
    requires Inv(vm, root) && pageCount > 0
    ensures var r := Initialize(vm, root, lo, pageCount);
            && !r.Faulted?
            && (r.Panicked? ==> F.Valid(r.vm.frames) && F.Exhausted(r.vm.frames))
            && (F.Available(vm.frames) >= 4 * pageCount ==> r.Returned?)
  {
    PagesCost(vm, root, PageRange(lo, pageCount), MapPages(vm, root, lo, pageCount));
  }

  lemma GrowCosts(m: Machine, root: nat, n: nat, count: nat)
    requires Inv(m.vm, root) && |m.heap.segs| > 0 && Request(n) && count == Pages(n) / 0x1000
    ensures var r := Grow(m, root, n);
            && !r.Faulted?
            && (r.Panicked? ==> F.Valid(r.vm.frames) && F.Exhausted(r.vm.frames) && F.Available(m.vm.frames) < 4 * count)
            && (r.Returned? ==>
                  Inv(r.m.vm, root) && r.m.heap == OncePaged(m.heap, n)
                  && F.Available(r.m.vm.frames) >= F.Available(m.vm.frames) - 4 * count)
  {
    var hi := m.heap.end / 0x1000;
    PagesCost(m.vm, root, PageRange(hi, count), MapPages(m.vm, root, hi, count));
  }

  lemma {:induction false} AllocateCosts(m: Machine, root: nat, n: nat, count: nat)
    requires Inv(m.vm, root) && HeapList.Valid(m.heap) && Request(n) && count == Pages(n) / 0x1000
    ensures var r := Allocate(m, root, n);
            && !r.Faulted?
            && (r.Panicked? ==> F.Valid(r.vm.frames) && F.Exhausted(r.vm.frames))
            && (F.Available(m.vm.frames) >= 4 * (count * Expansions(m.heap, n)) ==> r.Returned?)
    decreases Expansions(m.heap, n)
  {
    AllocateUnfold(m, root, n);
    if !Fitting(m.heap, n) {
      ExpandHelps(m.heap, n);
      GrowCosts(m, root, n, count);
      var grown := Grow(m, root, n);
      Products(count, Expansions(OncePaged(m.heap, n), n), Expansions(m.heap, n));
      if grown.Returned? {
        AllocateCosts(grown.m, root, n, count);
      }
    }
  }

  lemma Products(count: nat, fewer: nat, more: nat)
    requires fewer < more <= 2
    ensures count * fewer + count <= count * more
  {
    if more == 1 {
    } else if fewer == 0 {
    } else {
    }
  }

  /**
   * malloc panics only when no frame is left. It returns whenever a segment fits, and whenever eight frames are
   * available for each page of the request.
   */
  lemma MallocCosts(m: Machine, root: nat, size: nat)
    requires Inv(m.vm, root) && HeapList.Valid(m.heap) && size <= WORD_LIMIT - PAGE - GRAIN
    ensures var r := MallocEnding(m, root, size);
            && !r.Faulted?
            && (r.Panicked? ==> F.Valid(r.vm.frames) && F.Exhausted(r.vm.frames))
            && (Fitting(m.heap, Rounded(size)) ==> r.Returned?)
            && (F.Available(m.vm.frames) >= 8 * (Pages(Rounded(size)) / 0x1000) ==> r.Returned?)
  {
    var n := Rounded(size);
    RoundedExact(size);
    if n != 0 {
      var count := Pages(n) / 0x1000;
      AllocateCosts(m, root, n, count);
      AtMostTwo(m.heap, n, count);
    }
  }

  lemma AtMostTwo(h: Heap, n: nat, count: nat)
    requires HeapList.Valid(h) && Request(n)
    ensures Fitting(h, n) ==> count * Expansions(h, n) == 0
    ensures 4 * (count * Expansions(h, n)) <= 8 * count
  {
    if Expansions(h, n) == 1 {
    } else if Expansions(h, n) == 2 {
    } else {
    }
  }
}
