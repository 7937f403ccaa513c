// malloc, free and InitializeHeap over all three layers (kernel/src/memory/heap.cpp).

module HeapMachine {
  import opened Units
  import opened Paging
  import opened PageIndex
  import opened PageTables
  import opened VmSpec
  import opened VmShare
  import opened HeapList
  import opened HeapRuns
  import opened HeapMemory
  import F = FrameSpec

  datatype Machine = Machine(vm: Vm, heap: Heap)

  // How malloc ends: with an address, in a kernel panic because memory ran out,
  // or in a page fault because the rounded size wrapped to zero.
  datatype Ending = Returned(m: Machine, address: nat) | Panicked(vm: Vm) | Faulted

  // The segments tile whole pages, and each page is backed by its own frame.
  ghost predicate Sane(m: Machine, root: nat, others: set<nat>) {
    var lo, hi := m.heap.start / 0x1000, m.heap.end / 0x1000;
    && Ready(m.vm, root, lo, hi, others)
    && HeapList.Valid(m.heap)
    && m.heap.start == lo * 0x1000 && m.heap.end == hi * 0x1000
  }

  // A call that returned kept everything; one that panicked kept the page tables.
  ghost predicate Kept(vm: Vm, r: Ending, root: nat, others: set<nat>) {
    match r
    case Returned(m, _) => Sane(m, root, others) && Extends(vm, m.vm, root) && KeepsUsers(vm.words, m.vm.words, root)
    case Panicked(after) => Inv(after, root)
    case Faulted => true
  }

  // InitializeHeap at page `lo`.
  function Initialize(vm: Vm, root: nat, lo: nat, pageCount: nat): Ending
    requires F.Valid(vm.frames) && pageCount > 0
  {
    var r := MapPages(vm, root, lo, pageCount);
    if r.Panic? then Panicked(r.vm) else Returned(Machine(r.vm, Initial(lo * 0x1000, pageCount)), lo * 0x1000)
  }

  // ExpandHeap, for a length that does not wrap.
  function Grow(m: Machine, root: nat, n: nat): Ending
    requires F.Valid(m.vm.frames) && |m.heap.segs| > 0 && Request(n)
  {
    var r := MapPages(m.vm, root, m.heap.end / 0x1000, Pages(n) / 0x1000);
    if r.Panic? then Panicked(r.vm) else Returned(Machine(r.vm, OncePaged(m.heap, n)), 0)
  }

  // malloc after rounding.
  function Allocate(m: Machine, root: nat, n: nat): Ending
    requires F.Valid(m.vm.frames) && HeapList.Valid(m.heap)
    decreases Expansions(m.heap, n)
  {
    var k := FindFit(m.heap.segs, n, 0);
    if k < |m.heap.segs| then
      Returned(m.(heap := Take(m.heap, k, n)), m.heap.segs[k].addr + HEADER)
    else if !Request(n) then Faulted
    else
      var grown := Grow(m, root, n);
      ExpandHelps(m.heap, n);
      if grown.Returned? then Allocate(grown.m, root, n) else grown
  }

  function MallocEnding(m: Machine, root: nat, size: nat): Ending
    requires F.Valid(m.vm.frames) && HeapList.Valid(m.heap)
  {
    if Rounded(size) == 0 then Returned(m, 0) else Allocate(m, root, Rounded(size))
  }

  lemma BackedIsSane(vm: Vm, r: Outcome, root: nat, lo: nat, hi: nat, others: set<nat>, heap: Heap)
    requires BackedOr(vm, r, root, lo, hi, others) && r.Done? && Roomy(vm, lo) && lo <= hi
    requires HeapList.Valid(heap) && heap.start == lo * 0x1000 && heap.end == hi * 0x1000
    ensures Sane(Machine(r.vm, heap), root, others)
  {
    assert heap.start / 0x1000 == lo && heap.end / 0x1000 == hi;
  }

  /** InitializeHeap leaves a backed heap of one free segment, or memory ran out. */
  lemma InitializeExact(vm: Vm, root: nat, lo: nat, pageCount: nat, others: set<nat>)
    requires Ready(vm, root, lo, lo, others) && pageCount > 0
    ensures Kept(vm, Initialize(vm, root, lo, pageCount), root, others)
    ensures !Initialize(vm, root, lo, pageCount).Faulted?
  {
    var r := MapPages(vm, root, lo, pageCount);
    MapPagesExact(vm, root, lo, lo, lo + pageCount, pageCount, others, r);
    var heap := Initial(lo * 0x1000, pageCount);
    InitialValid(lo * 0x1000, pageCount);
    assert heap.end == (lo + pageCount) * 0x1000;
    if r.Done? {
      BackedIsSane(vm, r, root, lo, lo + pageCount, others, heap);
    }
  }

  /** One expansion maps the new pages behind the old ones. */
  lemma GrowExact(m: Machine, root: nat, others: set<nat>, n: nat)
    requires Sane(m, root, others) && Request(n)
    ensures Kept(m.vm, Grow(m, root, n), root, others)
  {
    var lo, hi, count := m.heap.start / 0x1000, m.heap.end / 0x1000, Pages(n) / 0x1000;
    var r := MapPages(m.vm, root, hi, count);
    MapPagesExact(m.vm, root, lo, hi, hi + count, count, others, r);
    ExpandedBounds(m.heap, n);
    if r.Done? {
      BackedIsSane(m.vm, r, root, lo, hi + count, others, OncePaged(m.heap, n));
    }
  }

  lemma ExpandedBounds(h: Heap, n: nat)
    requires HeapList.Valid(h) && Request(n)
    ensures HeapList.Valid(OncePaged(h, n))
    ensures OncePaged(h, n).start == h.start && OncePaged(h, n).end == h.end + Pages(n)
    ensures Pages(n) == Pages(n) / 0x1000 * 0x1000
  {
    PagesExact(n);
    ExpandValid(h, Pages(n));
  }

  lemma KeptTransitive(vm: Vm, mid: Vm, r: Ending, root: nat, others: set<nat>)
    requires Extends(vm, mid, root) && KeepsUsers(vm.words, mid.words, root) && Kept(mid, r, root, others)
    ensures Kept(vm, r, root, others)
  {
    if r.Returned? {
      KeepsUsersTransitive(vm.words, mid.words, r.m.vm.words, root);
      ExtendsTransitive(vm, mid, r.m.vm, root);
    }
  }

  lemma TakeKept(m: Machine, root: nat, others: set<nat>, n: nat, k: nat, a: nat)
    requires Sane(m, root, others) && n >= GRAIN && k < |m.heap.segs| && Fits(m.heap.segs[k], n)
    ensures Kept(m.vm, Returned(m.(heap := Take(m.heap, k, n)), a), root, others)
  {
    TakeValid(m.heap, k, n);
    ExtendsReflexive(m.vm, root);
  }

  /** malloc keeps all three layers' invariants, whether it returns or runs out of memory. */
  lemma {:induction false} AllocateKeeps(m: Machine, root: nat, others: set<nat>, n: nat)
    requires Sane(m, root, others) && n >= GRAIN
    ensures Kept(m.vm, Allocate(m, root, n), root, others)
    decreases Expansions(m.heap, n)
  {
    AllocateUnfold(m, root, n);
    var k := FindFit(m.heap.segs, n, 0);
    if k < |m.heap.segs| {
      TakeKept(m, root, others, n, k, m.heap.segs[k].addr + HEADER);
    } else if Request(n) {
      GrowExact(m, root, others, n);
      ExpandHelps(m.heap, n);
      var grown := Grow(m, root, n);
      if grown.Returned? {
        AllocateKeeps(grown.m, root, others, n);
        KeptTransitive(m.vm, grown.m.vm, Allocate(grown.m, root, n), root, others);
      }
    }
  }

  lemma AllocateUnfold(m: Machine, root: nat, n: nat)
    requires F.Valid(m.vm.frames) && HeapList.Valid(m.heap)
    ensures Fitting(m.heap, n) ==>
              var k := FindFit(m.heap.segs, n, 0);
              Allocate(m, root, n) == Returned(m.(heap := Take(m.heap, k, n)), m.heap.segs[k].addr + HEADER)
    ensures !Fitting(m.heap, n) && !Request(n) ==> Allocate(m, root, n) == Faulted
    ensures !Fitting(m.heap, n) && Request(n) ==>
              var grown := Grow(m, root, n);
              if grown.Returned?
              then HeapList.Valid(grown.m.heap) && F.Valid(grown.m.vm.frames)
                   && Allocate(m, root, n) == Allocate(grown.m, root, n)
              else Allocate(m, root, n) == grown && grown.Panicked?
  {
    if !Fitting(m.heap, n) && Request(n) {
      ExpandHelps(m.heap, n);
    }
  }

  // The three ways malloc goes on after rounding, as malloc itself.
  lemma MallocFound(m: Machine, root: nat, size: nat, k: nat)
    requires F.Valid(m.vm.frames) && HeapList.Valid(m.heap) && Rounded(size) != 0
    requires k == FindFit(m.heap.segs, Rounded(size), 0) && k < |m.heap.segs|
    ensures MallocEnding(m, root, size)
         == Returned(m.(heap := Take(m.heap, k, Rounded(size))), m.heap.segs[k].addr + HEADER)
  {
    AllocateUnfold(m, root, Rounded(size));
  }

  lemma MallocFaults(m: Machine, root: nat, size: nat)
    requires F.Valid(m.vm.frames) && HeapList.Valid(m.heap) && Rounded(size) != 0
    requires !Fitting(m.heap, Rounded(size)) && !Request(Rounded(size))
    ensures MallocEnding(m, root, size) == Faulted
  {
    AllocateUnfold(m, root, Rounded(size));
  }

  lemma MallocGrows(m: Machine, root: nat, size: nat, grown: Ending)
    requires F.Valid(m.vm.frames) && HeapList.Valid(m.heap) && Rounded(size) != 0 && size < WORD_LIMIT
    requires !Fitting(m.heap, Rounded(size)) && Request(Rounded(size)) && grown == Grow(m, root, Rounded(size))
    ensures grown.Panicked? ==> MallocEnding(m, root, size) == grown
    ensures grown.Returned? ==>
              F.Valid(grown.m.vm.frames) && HeapList.Valid(grown.m.heap)
              && MallocEnding(m, root, size) == MallocEnding(grown.m, root, Rounded(size))
              && Expansions(grown.m.heap, Rounded(size)) < Expansions(m.heap, Rounded(size))
  {
    AllocateUnfold(m, root, Rounded(size));
    RoundedAgain(size);
    ExpandHelps(m.heap, Rounded(size));
  }

  lemma RoundedAgain(size: nat)
    requires size < WORD_LIMIT && Rounded(size) != 0
    ensures Rounded(Rounded(size)) == Rounded(size) && GRAIN <= Rounded(size) < WORD_LIMIT
  {
    if size % GRAIN > 0 {
      RemainderOfRounded(size - size % GRAIN + GRAIN);
    }
  }

  lemma RemainderOfRounded(up: nat)
    requires up % 16 == 0
    ensures up % 0x1_0000_0000_0000_0000 % 16 == 0
  {
  }

  /** What malloc returns is the block that `Malloc` chooses, unless memory runs out; it faults only on sizes that wrap. */
  lemma {:induction false} AllocateReturns(m: Machine, root: nat, n: nat)
    requires F.Valid(m.vm.frames) && HeapList.Valid(m.heap) && n >= GRAIN
    ensures var r := Allocate(m, root, n);
            (r.Returned? && Request(n) ==>
               r.m.heap == Malloc(m.heap, n)
               && r.address == Malloc(m.heap, n).segs[Chosen(m.heap, n)].addr + HEADER)
            && (r.Faulted? <==> !Fitting(m.heap, n) && n > WORD_LIMIT - PAGE)
    decreases Expansions(m.heap, n)
  {
    AllocateUnfold(m, root, n);
    var k := FindFit(m.heap.segs, n, 0);
    if k < |m.heap.segs| {
      TakeValid(m.heap, k, n);
    } else if Request(n) {
      ExpandHelps(m.heap, n);
      var grown := Grow(m, root, n);
      if grown.Returned? {
        AllocateReturns(grown.m, root, n);
        GrownOnce(m.heap, n);
      }
    }
  }

  /**
   * malloc by the size asked for: nothing for zero and for sizes that round up to 2^64; else a block of at least the
   * least multiple of 16 that holds it, behind the header of the lowest segment that fits.
   */
  lemma MallocReturns(m: Machine, root: nat, size: nat, n: nat)
    requires F.Valid(m.vm.frames) && HeapList.Valid(m.heap) && size < WORD_LIMIT && n == (size + 15) / 16 * 16
    ensures size == 0 || size > WORD_LIMIT - 16 ==> MallocEnding(m, root, size) == Returned(m, 0)
    ensures 0 < size <= WORD_LIMIT - 16 ==>
              Rounded(size) == n && MallocEnding(m, root, size) == Allocate(m, root, n)
              && (MallocEnding(m, root, size).Faulted? <==> !Fitting(m.heap, n) && n > WORD_LIMIT - PAGE)
    ensures 0 < size <= WORD_LIMIT - PAGE - 16 && MallocEnding(m, root, size).Returned? ==>
              Request(n) && n >= GRAIN
              && var r := MallocEnding(m, root, size);
                 r.m.heap == Malloc(m.heap, n) && r.address == Malloc(m.heap, n).segs[Chosen(m.heap, n)].addr + 25
  {
    RoundedExact(size);
    if 0 < size <= WORD_LIMIT - 16 {
      RoundedUp(size);
      AllocateReturns(m, root, n);
    }
  }

  lemma GrownOnce(h: Heap, n: nat)
    requires HeapList.Valid(h) && Request(n) && n >= GRAIN && !Fitting(h, n)
    ensures HeapList.Valid(OncePaged(h, n)) && Malloc(OncePaged(h, n), n) == Malloc(h, n)
    ensures Chosen(OncePaged(h, n), n) == Chosen(h, n)
  {
    ExpandHelps(h, n);
  }

  /** The heap ends below 2^48, so its lengths survive the signed arithmetic of Split. */
  lemma SaneBound(m: Machine, root: nat, others: set<nat>)
    requires Sane(m, root, others)
    ensures m.heap.end < 0x1_0000_0000_0000
    ensures forall k :: 0 <= k < |m.heap.segs| ==> EndOf(m.heap.segs[k]) <= m.heap.end
  {
    HeapBounded(m.vm, root, m.heap.start / 0x1000, m.heap.end / 0x1000, others);
    forall k | 0 <= k < |m.heap.segs|
      ensures EndOf(m.heap.segs[k]) <= m.heap.end
    {
      var last := |m.heap.segs| - 1;
      assert EndOf(m.heap.segs[last]) == Next(m.heap, last);
      if k < last {
        InOrder(m.heap, k, last);
      }
    }
  }
}
