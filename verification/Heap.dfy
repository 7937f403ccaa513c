// The kernel heap object: kernel/src/memory/heap.cpp.

module Heaps {
  import opened Units
  import opened Word
  import opened PageIndex
  import opened PageTables
  import opened VmSpec
  import opened TableManagers
  import opened HeapList
  import opened HeapRuns
  import opened HeapLinks
  import opened HeapMemory
  import opened HeapMachine
  import F = FrameSpec

  class KernelHeap {
    const GlobalTableManager: PageTableManager
    var HeapStart: nat
    var HeapEnd: nat
    var LastHdr: nat
    var Hdrs: Headers
    // The list the headers spell.
    ghost var Segs: seq<Seg>

    ghost function List(): Heap
      reads this
    {
      Heap(Segs, HeapStart, HeapEnd)
    }

    ghost function View(): Machine
      requires GlobalTableManager.Valid()
      reads this, GlobalTableManager.Memory, GlobalTableManager.Allocator,
            GlobalTableManager.Allocator.PageBitmap, GlobalTableManager.Allocator.PageBitmap.Buffer
    {
      Machine(GlobalTableManager.View(), List())
    }

    // The headers spell a list that tiles the heap, and LastHdr is its tail.
    ghost predicate Linked()
      reads this
    {
      HeapList.Sound(List()) && Spells(Hdrs, Segs) && LastHdr == Last(List()).addr
    }

    ghost predicate Valid()
      reads this
    {
      Linked() && HeapList.Valid(List())
    }

    // Before InitializeHeap; page 0 is mapped and holds whatever it holds.
    constructor (manager: PageTableManager, pageZero: Header)
      ensures GlobalTableManager == manager && Hdrs == map[0 := pageZero]
    {
      GlobalTableManager := manager;
      HeapStart, HeapEnd, LastHdr, Hdrs, Segs := 0, 0, 0, map[0 := pageZero], [];
    }

    method CombineForward(segment: nat, ghost k: nat)
      requires Linked() && k < |Segs| && Segs[k].addr == segment
      modifies this`Hdrs, this`LastHdr, this`Segs
      ensures Segs == HeapList.CombineForward(old(Segs), k) && Linked()
    {
      assert Cell(Hdrs, Segs, k);
      assert k + 1 < |Segs| ==> Cell(Hdrs, Segs, k + 1);
      var next := Hdrs[segment].next;
      if next == 0 {
        return;
      }
      if !Hdrs[next].free {
        return;
      }
      ghost var h, before := List(), Hdrs;
      CombineFacts(before, h, k);
      if next == LastHdr {
        LastHdr := segment;
      }
      var nextNext := Hdrs[next].next;
      if nextNext != 0 {
        Hdrs := Hdrs[nextNext := Hdrs[nextNext].(last := segment)];
      }
      Hdrs := Hdrs[segment := Hdrs[segment].(length := Hdrs[segment].length + Hdrs[next].length + HEADER)];
      Hdrs := Hdrs[segment := Hdrs[segment].(next := Hdrs[next].next)];
      assert Hdrs == Merged(before, segment, next, nextNext);
      Segs := Merge(Segs, k);
    }

    method CombineBackward(segment: nat, ghost k: nat)
      requires Linked() && k < |Segs| && Segs[k].addr == segment
      modifies this`Hdrs, this`LastHdr, this`Segs
      ensures Segs == HeapList.CombineBackward(old(Segs), k) && Linked()
    {
      assert Cell(Hdrs, Segs, k);
      assert k > 0 ==> Cell(Hdrs, Segs, k - 1);
      var last := Hdrs[segment].last;
      if last != 0 && Hdrs[last].free {
        CombineForward(last, k - 1);
      }
    }

    // free, for the address of any segment of the heap: a block given out, or one already freed.
    method Free(address: nat, ghost k: nat)
      requires Valid() && k < |Segs| && address == Segs[k].addr + HEADER
      modifies this`Hdrs, this`LastHdr, this`Segs
      ensures Valid() && List() == HeapList.Free(old(List()), k)
    {
      ghost var h := List();
      var segment := address - HEADER;
      TilesIncrease(h);
      assert Cell(Hdrs, Segs, k);
      MarkSpells(Hdrs, Segs, k, true);
      MarkSound(h, k, true);
      Hdrs := Hdrs[segment := Hdrs[segment].(free := true)];
      Segs := Segs[k := Segs[k].(free := true)];
      CombineForward(segment, k);
      CombineBackward(segment, k);
      FreeValid(h, k);
    }

    // Split: zero when it refuses.
    method Split(segment: nat, splitLength: nat, ghost k: nat) returns (newSplitHdr: nat)
      requires Linked() && k < |Segs| && Segs[k].addr == segment
      requires splitLength <= Segs[k].length < 0x8000_0000_0000_0000
      modifies this`Hdrs, this`LastHdr, this`Segs
      ensures Linked() && (newSplitHdr != 0 <==> Splits(old(Segs[k].length), splitLength))
      ensures newSplitHdr == 0 ==> Segs == old(Segs) && Hdrs == old(Hdrs)
      ensures newSplitHdr != 0 ==> Segs == SplitSegs(old(Segs), k, splitLength) && newSplitHdr == segment + splitLength + HEADER
      ensures newSplitHdr != 0 && k + 1 == |old(Segs)| ==> Hdrs[0] == old(Hdrs[0]).(last := newSplitHdr)
      ensures newSplitHdr == 0 || k + 1 < |old(Segs)| ==> Hdrs[0] == old(Hdrs[0])
    {
      assert Cell(Hdrs, Segs, k);
      assert k + 1 < |Segs| ==> Cell(Hdrs, Segs, k + 1);
      if splitLength < 0x10 {
        return 0;
      }
      var splitSegLength := AsInt64(Hdrs[segment].length - splitLength - HEADER);
      if splitSegLength < 0x10 {
        return 0;
      }
      newSplitHdr := Divide(segment, splitLength, splitSegLength, k);
    }

    // The stores of Split.
    method Divide(segment: nat, splitLength: nat, splitSegLength: nat, ghost k: nat) returns (newSplitHdr: nat)
      requires Linked() && k < |Segs| && Segs[k].addr == segment && Splits(Segs[k].length, splitLength)
      requires splitSegLength == Segs[k].length - splitLength - HEADER
      modifies this`Hdrs, this`LastHdr, this`Segs
      ensures Linked() && newSplitHdr == segment + splitLength + HEADER
      ensures Segs == SplitSegs(old(Segs), k, splitLength)
      ensures Hdrs[0] == if k + 1 == |old(Segs)| then old(Hdrs[0]).(last := newSplitHdr) else old(Hdrs[0])
    {
      ghost var h, before := List(), Hdrs;
      assert Cell(Hdrs, Segs, k);
      newSplitHdr := segment + splitLength + HEADER;
      var next := Hdrs[segment].next;
      SplitApart(before, h, k, splitLength, newSplitHdr, next);
      Hdrs := Hdrs[next := Hdrs[next].(last := newSplitHdr)];
      Hdrs := Hdrs[newSplitHdr := Header(splitSegLength, next, segment, Hdrs[segment].free)];
      Hdrs := Hdrs[segment := Hdrs[segment].(next := newSplitHdr, length := splitLength)];
      DividedInSteps(before, segment, newSplitHdr, next, splitLength, splitSegLength);
      if LastHdr == segment {
        LastHdr := newSplitHdr;
      }
      Segs := SplitSegs(Segs, k, splitLength);
      SplitDone(before, h, k, splitLength, newSplitHdr, next, splitSegLength, Hdrs, List());
    }

    // One turn of the mapping loops; `panic` stands for KernelPanic.
    method MapOnePage(address: nat) returns (panic: bool)
      requires GlobalTableManager.Valid()
      modifies GlobalTableManager.Memory, GlobalTableManager.Allocator`PageBitmapIndex,
               GlobalTableManager.Allocator`FreeMemory, GlobalTableManager.Allocator`UsedMemory,
               GlobalTableManager.Allocator.PageBitmap`Bits, GlobalTableManager.Allocator.PageBitmap.Buffer
      ensures GlobalTableManager.Valid()
      ensures var r := MapFresh(old(GlobalTableManager.View()), GlobalTableManager.Root(), address / 0x1000);
              GlobalTableManager.View() == r.vm && panic == r.Panic?
    {
      var frame;
      ghost var z := F.Requested(GlobalTableManager.Allocator.View());
      frame, panic := GlobalTableManager.Allocator.RequestPage();
      if panic {
        return;
      }
      PageShift(z);
      RouteOfAddress(address);
      panic := GlobalTableManager.MapMemory(address, frame);
    }

    // The loop shared by InitializeHeap and ExpandHeap: `count` pages from `address` on.
    method MapRun(address: nat, count: nat) returns (panic: bool)
      requires GlobalTableManager.Valid()
      modifies GlobalTableManager.Memory, GlobalTableManager.Allocator`PageBitmapIndex,
               GlobalTableManager.Allocator`FreeMemory, GlobalTableManager.Allocator`UsedMemory,
               GlobalTableManager.Allocator.PageBitmap`Bits, GlobalTableManager.Allocator.PageBitmap.Buffer
      ensures GlobalTableManager.Valid()
      ensures var r := MapPages(old(GlobalTableManager.View()), GlobalTableManager.Root(), address / 0x1000, count);
              GlobalTableManager.View() == r.vm && panic == r.Panic?
    {
      ghost var page := address / 0x1000;
      ghost var pages := PageRange(page, count);
      ghost var r := MapAll(GlobalTableManager.View(), GlobalTableManager.Root(), pages);
      var pos := address;
      var i := 0;
      while i < count
        invariant i <= count && |pages| == count - i
        invariant page == pos / 0x1000 && Consecutive(pages, page)
        invariant GlobalTableManager.Valid()
        invariant Ends(GlobalTableManager.View(), GlobalTableManager.Root(), pages, r)
      {
        RestConsecutive(pages, page, page + 1);
        panic, pages := MapTurn(pos, pages, r);
        if panic {
          return;
        }
        pos := pos + 0x1000;
        page := page + 1;
        i := i + 1;
      }
      EndsAtOnce(GlobalTableManager.View(), GlobalTableManager.Root(), pages, r);
      panic := false;
    }

    // One turn of that loop, which is to end in r.
    method MapTurn(pos: nat, ghost pages: seq<nat>, ghost r: Outcome) returns (panic: bool, ghost rest: seq<nat>)
      requires GlobalTableManager.Valid() && pages != [] && pages[0] == pos / 0x1000
      requires Ends(GlobalTableManager.View(), GlobalTableManager.Root(), pages, r)
      modifies GlobalTableManager.Memory, GlobalTableManager.Allocator`PageBitmapIndex,
               GlobalTableManager.Allocator`FreeMemory, GlobalTableManager.Allocator`UsedMemory,
               GlobalTableManager.Allocator.PageBitmap`Bits, GlobalTableManager.Allocator.PageBitmap.Buffer
      ensures GlobalTableManager.Valid() && rest == pages[1..]
      ensures panic ==> r == Panic(GlobalTableManager.View())
      ensures !panic ==> Ends(GlobalTableManager.View(), GlobalTableManager.Root(), rest, r)
    {
      rest := pages[1..];
      ghost var first := MapFresh(GlobalTableManager.View(), GlobalTableManager.Root(), pages[0]);
      MapAllUnfold(GlobalTableManager.View(), GlobalTableManager.Root(), pages, first, r);
      panic := MapOnePage(pos);
      assert panic == first.Panic? && GlobalTableManager.View() == first.vm;
    }

    // How InitializeHeap and ExpandHeap end, against their specification.
    ghost predicate Ended(r: Ending, panic: bool, others: set<nat>)
      requires GlobalTableManager.Valid()
      reads this, GlobalTableManager.Memory, GlobalTableManager.Allocator,
            GlobalTableManager.Allocator.PageBitmap, GlobalTableManager.Allocator.PageBitmap.Buffer
    {
      if panic then r == Panicked(GlobalTableManager.View())
      else Valid() && r.Returned? && r.m == View() && Sane(View(), GlobalTableManager.Root(), others)
    }

    method InitializeHeap(heapAddress: nat, pageCount: nat, ghost others: set<nat>) returns (panic: bool)
      requires GlobalTableManager.Valid() && 0 in Hdrs
      requires heapAddress > 0 && heapAddress % 0x1000 == 0 && pageCount > 0
      requires Ready(GlobalTableManager.View(), GlobalTableManager.Root(), heapAddress / 0x1000, heapAddress / 0x1000, others)
      modifies this, GlobalTableManager.Memory, GlobalTableManager.Allocator`PageBitmapIndex,
               GlobalTableManager.Allocator`FreeMemory, GlobalTableManager.Allocator`UsedMemory,
               GlobalTableManager.Allocator.PageBitmap`Bits, GlobalTableManager.Allocator.PageBitmap.Buffer
      ensures GlobalTableManager.Valid()
      ensures Ended(Initialize(old(GlobalTableManager.View()), GlobalTableManager.Root(), heapAddress / 0x1000, pageCount),
                    panic, others)
    {
      ghost var vm, root, lo := GlobalTableManager.View(), GlobalTableManager.Root(), heapAddress / 0x1000;
      InitializeExact(vm, root, lo, pageCount, others);
      panic := MapRun(heapAddress, pageCount);
      if panic {
        return;
      }
      FirstSegment(heapAddress, pageCount, lo);
    }

    // The second half of InitializeHeap.
    method FirstSegment(heapAddress: nat, pageCount: nat, ghost lo: nat)
      requires 0 in Hdrs && heapAddress > 0 && heapAddress == lo * 0x1000 && pageCount > 0
      modifies this`HeapStart, this`HeapEnd, this`LastHdr, this`Hdrs, this`Segs
      ensures Valid() && List() == Initial(lo * 0x1000, pageCount)
    {
      var heapLength := pageCount * 0x1000;
      HeapStart := heapAddress;
      HeapEnd := HeapStart + heapLength;
      Hdrs := Hdrs[heapAddress := Header(heapLength - HEADER, 0, 0, true)];
      LastHdr := heapAddress;
      Segs := [Seg(heapAddress, heapLength - HEADER, true)];
      InitialValid(heapAddress, pageCount);
    }

    // ExpandHeap. `fault` is the page fault on storing a header behind the heap
    // when the rounded length has wrapped to zero and no page was mapped.
    method ExpandHeap(length: nat, ghost others: set<nat>) returns (panic: bool, fault: bool)
      requires GlobalTableManager.Valid() && Valid() && Sane(View(), GlobalTableManager.Root(), others)
      requires length < WORD_LIMIT
      modifies this, GlobalTableManager.Memory, GlobalTableManager.Allocator`PageBitmapIndex,
               GlobalTableManager.Allocator`FreeMemory, GlobalTableManager.Allocator`UsedMemory,
               GlobalTableManager.Allocator.PageBitmap`Bits, GlobalTableManager.Allocator.PageBitmap.Buffer
      ensures GlobalTableManager.Valid()
      ensures fault <==> !Request(length)
      ensures Request(length) ==> Ended(Grow(old(View()), GlobalTableManager.Root(), length), panic, others)
    {
      ghost var m, root := View(), GlobalTableManager.Root();
      var rounded := length;
      if rounded % 0x1000 > 0 {
        rounded := (rounded - rounded % 0x1000 + 0x1000) % WORD_LIMIT;
      }
      RoundedPages(length, rounded);
      var pageCount := rounded / 0x1000;
      if pageCount == 0 {
        return false, true;
      }
      fault := false;
      GrowExact(m, root, others, length);
      var newSegment := HeapEnd;
      panic := MapRun(HeapEnd, pageCount);
      if panic {
        return;
      }
      HeapEnd := HeapEnd + pageCount * 0x1000;
      LinkNewSegment(newSegment, rounded, m.heap);
      assert List() == OncePaged(m.heap, length);
    }

    // The second half of ExpandHeap: the new segment's header, linked and combined.
    method LinkNewSegment(newSegment: nat, length: nat, ghost h: Heap)
      requires HeapList.Valid(h) && h.segs == Segs && h.start == HeapStart && h.end == newSegment
      requires Spells(Hdrs, Segs) && LastHdr == Last(h).addr && newSegment != 0
      requires HeapEnd == newSegment + length && length >= HEADER + GRAIN
      modifies this`Hdrs, this`LastHdr, this`Segs
      ensures Valid() && List() == Expand(h, length)
    {
      ExpandValid(h, length);
      AppendSegment(newSegment, length, h);
      CombineBackward(newSegment, |h.segs|);
      assert List() == Expand(h, length);
    }

    method AppendSegment(newSegment: nat, length: nat, ghost h: Heap)
      requires HeapList.Valid(h) && h.segs == Segs && h.start == HeapStart && h.end == newSegment
      requires Spells(Hdrs, Segs) && LastHdr == Last(h).addr && newSegment != 0
      requires HeapEnd == newSegment + length && length >= HEADER + GRAIN
      modifies this`Hdrs, this`LastHdr, this`Segs
      ensures Linked() && Segs == h.segs + [Seg(newSegment, length - HEADER, true)]
    {
      ghost var segs := Segs + [Seg(newSegment, length - HEADER, true)];
      AppendFacts(Hdrs, h, length, segs);
      Hdrs := Hdrs[LastHdr := Hdrs[LastHdr].(next := newSegment)][newSegment := Header(length - HEADER, 0, LastHdr, true)];
      LastHdr := newSegment;
      Segs := segs;
    }

    // malloc's search from segment i: the first fitting segment, or one past the tail.
    method FindSegment(size: nat) returns (currentSeg: nat, found: bool, ghost k: nat)
      requires Valid()
      ensures k == FindFit(Segs, size, 0) && found == (k < |Segs|)
      ensures found ==> currentSeg == Segs[k].addr
    {
      currentSeg := HeapStart;
      k := 0;
      while true
        invariant k < |Segs| && currentSeg == Segs[k].addr
        invariant FindFit(Segs, size, 0) == FindFit(Segs, size, k)
        decreases |Segs| - k
      {
        assert Cell(Hdrs, Segs, k);
        assert k + 1 < |Segs| ==> Cell(Hdrs, Segs, k + 1);
        if Hdrs[currentSeg].free && Hdrs[currentSeg].length >= size {
          return currentSeg, true, k;
        }
        if Hdrs[currentSeg].next == 0 {
          return currentSeg, false, k + 1;
        }
        currentSeg := Hdrs[currentSeg].next;
        k := k + 1;
      }
    }

    // How malloc ends, against its specification.
    ghost predicate Delivered(r: Ending, address: nat, panic: bool, fault: bool, others: set<nat>)
      requires GlobalTableManager.Valid()
      reads this, GlobalTableManager.Memory, GlobalTableManager.Allocator,
            GlobalTableManager.Allocator.PageBitmap, GlobalTableManager.Allocator.PageBitmap.Buffer
    {
      match r
      case Returned(m, a) =>
        !panic && !fault && address == a && Valid() && m == View() && Sane(m, GlobalTableManager.Root(), others)
      case Panicked(vm) => panic && GlobalTableManager.View() == vm
      case Faulted => fault && !panic
    }

    method Malloc(size: nat, ghost others: set<nat>) returns (address: nat, panic: bool, fault: bool)
      requires GlobalTableManager.Valid() && Valid() && Sane(View(), GlobalTableManager.Root(), others)
      requires size < WORD_LIMIT
      modifies this, GlobalTableManager.Memory, GlobalTableManager.Allocator`PageBitmapIndex,
               GlobalTableManager.Allocator`FreeMemory, GlobalTableManager.Allocator`UsedMemory,
               GlobalTableManager.Allocator.PageBitmap`Bits, GlobalTableManager.Allocator.PageBitmap.Buffer
      ensures GlobalTableManager.Valid()
      ensures Delivered(MallocEnding(old(View()), GlobalTableManager.Root(), size), address, panic, fault, others)
      decreases Expansions(List(), Rounded(size)), 1
    {
      var rounded := size;
      if rounded % 0x10 > 0 {
        rounded := (rounded - rounded % 0x10 + 0x10) % WORD_LIMIT;
      }
      assert rounded == Rounded(size);
      if rounded == 0 {
        assert MallocEnding(View(), GlobalTableManager.Root(), size) == Returned(View(), 0);
        return 0, false, false;
      }
      RoundedAgain(size);
      var currentSeg, found; ghost var k;
      currentSeg, found, k := FindSegment(rounded);
      if found {
        address := Deliver(currentSeg, rounded, k, size, others);
        return address, false, false;
      }
      address, panic, fault := ExpandAndRetry(rounded, size, others);
    }

    // malloc's `ExpandHeap(size); return malloc(size);`.
    method ExpandAndRetry(rounded: nat, ghost size: nat, ghost others: set<nat>)
      returns (address: nat, panic: bool, fault: bool)
      requires GlobalTableManager.Valid() && Valid() && Sane(View(), GlobalTableManager.Root(), others)
      requires size < WORD_LIMIT && rounded == Rounded(size) == Rounded(rounded) && GRAIN <= rounded < WORD_LIMIT
      requires !Fitting(List(), rounded)
      modifies this, GlobalTableManager.Memory, GlobalTableManager.Allocator`PageBitmapIndex,
               GlobalTableManager.Allocator`FreeMemory, GlobalTableManager.Allocator`UsedMemory,
               GlobalTableManager.Allocator.PageBitmap`Bits, GlobalTableManager.Allocator.PageBitmap.Buffer
      ensures GlobalTableManager.Valid()
      ensures Delivered(MallocEnding(old(View()), GlobalTableManager.Root(), size), address, panic, fault, others)
      decreases Expansions(List(), rounded), 0
    {
      ghost var m, root := View(), GlobalTableManager.Root();
      ghost var r := MallocEnding(m, root, size);
      panic, fault := ExpandHeap(rounded, others);
      address := 0;
      if fault {
        MallocFaults(m, root, size);
        panic := false;
        return;
      }
      ghost var grown := Grow(m, root, rounded);
      MallocGrows(m, root, size, grown);
      if panic {
        assert r == Panicked(GlobalTableManager.View());
        return;
      }
      assert View() == grown.m;
      assert List() == grown.m.heap;
      assert r == MallocEnding(View(), root, rounded);
      address, panic, fault := Malloc(rounded, others);
    }

    // malloc's return of a segment that fits.
    method Deliver(segment: nat, rounded: nat, ghost k: nat, ghost size: nat, ghost others: set<nat>) returns (address: nat)
      requires GlobalTableManager.Valid() && Valid() && Sane(View(), GlobalTableManager.Root(), others)
      requires rounded == Rounded(size) >= GRAIN && k == FindFit(Segs, rounded, 0) < |Segs| && segment == Segs[k].addr
      modifies this`Hdrs, this`LastHdr, this`Segs
      ensures GlobalTableManager.Valid()
      ensures Delivered(MallocEnding(old(View()), GlobalTableManager.Root(), size), address, false, false, others)
    {
      ghost var m, root := View(), GlobalTableManager.Root();
      SaneBound(m, root, others);
      TakeKept(m, root, others, rounded, k, segment + HEADER);
      MallocFound(m, root, size, k);
      GiveOut(segment, rounded, k);
      assert GlobalTableManager.View() == m.vm;
      assert List() == Take(m.heap, k, rounded);
      address := segment + HEADER;
    }

    // The chosen segment, split if it is larger than asked for and the rest is worth keeping.
    method GiveOut(segment: nat, size: nat, ghost k: nat)
      requires Valid() && k < |Segs| && Segs[k].addr == segment && Fits(Segs[k], size) && size >= GRAIN
      requires Segs[k].length < 0x8000_0000_0000_0000
      modifies this`Hdrs, this`LastHdr, this`Segs
      ensures Valid() && List() == Take(old(List()), k, size)
    {
      ghost var h := List();
      SplitIfLarger(segment, size, k);
      GiveOutFacts(h, List(), k, size);
      TakeValid(h, k, size);
      MarkUsed(segment, k);
      assert List() == Take(h, k, size);
    }

    method MarkUsed(segment: nat, ghost k: nat)
      requires Linked() && k < |Segs| && Segs[k].addr == segment
      modifies this`Hdrs, this`Segs
      ensures Linked() && Segs == Used(old(Segs), k)
    {
      ghost var used := Used(Segs, k);
      MarkSpellsAt(Hdrs, List(), k, segment, used);
      MarkSound(List(), k, false);
      UsedTail(List(), k);
      Hdrs := Hdrs[segment := Hdrs[segment].(free := false)];
      Segs := used;
    }

    method SplitIfLarger(segment: nat, size: nat, ghost k: nat)
      requires Linked() && k < |Segs| && Segs[k].addr == segment
      requires size <= Segs[k].length < 0x8000_0000_0000_0000
      modifies this`Hdrs, this`LastHdr, this`Segs
      ensures Linked() && Segs == AfterSplit(old(List()), k, size)
    {
      assert Cell(Hdrs, Segs, k);
      if Hdrs[segment].length > size {
        var _ := Split(segment, size, k);
      }
    }
  }

  // The two's complement reading of a 64-bit word.
  function AsInt64(x: int): int {
    var word := x % 0x1_0000_0000_0000_0000;
    if word >= 0x8000_0000_0000_0000 then word - 0x1_0000_0000_0000_0000 else word
  }

  lemma RoundedPages(length: nat, rounded: nat)
    requires length < WORD_LIMIT && rounded == Pages(length)
    ensures Request(length) <==> rounded != 0
    ensures rounded == rounded / 0x1000 * 0x1000
  {
  }

  function AfterSplit(h: Heap, k: nat, n: nat): seq<Seg>
    requires k < |h.segs|
  {
    if Splits(h.segs[k].length, n) then SplitSegs(h.segs, k, n) else h.segs
  }

  function Used(segs: seq<Seg>, k: nat): seq<Seg>
    requires k < |segs|
  {
    segs[k := segs[k].(free := false)]
  }

  // Marking the segment after the split completes Take.
  lemma GiveOutFacts(h: Heap, g: Heap, k: nat, n: nat)
    requires HeapList.Valid(h) && k < |h.segs| && Fits(h.segs[k], n) && n >= GRAIN
    requires g == h.(segs := AfterSplit(h, k, n)) && HeapList.Sound(g)
    ensures k < |g.segs| && g.segs[k].addr == h.segs[k].addr && h.(segs := Used(g.segs, k)) == Take(h, k, n)
  {
    AfterSplitAt(h, k, n);
    MarkTaken(h, k, n, g.segs);
  }

  lemma UsedTail(g: Heap, k: nat)
    requires k < |g.segs|
    ensures Last(g.(segs := Used(g.segs, k))).addr == Last(g).addr
  {
  }

  lemma MarkSpellsAt(hdrs: Headers, g: Heap, k: nat, a: nat, segs: seq<Seg>)
    requires HeapList.Sound(g) && Spells(hdrs, g.segs) && k < |g.segs| && a == g.segs[k].addr && segs == Used(g.segs, k)
    ensures a in hdrs && Spells(hdrs[a := hdrs[a].(free := false)], segs)
  {
    TilesIncrease(g);
    assert Cell(hdrs, g.segs, k);
    MarkSpells(hdrs, g.segs, k, false);
  }

  lemma AfterSplitAt(h: Heap, k: nat, n: nat)
    requires k < |h.segs|
    ensures k < |AfterSplit(h, k, n)| && AfterSplit(h, k, n)[k].addr == h.segs[k].addr
  {
    if Splits(h.segs[k].length, n) {
      SplitSegsAt(h.segs, k, n, k);
    }
  }

  lemma AppendFacts(hdrs: Headers, h: Heap, length: nat, segs: seq<Seg>)
    requires HeapList.Valid(h) && Spells(hdrs, h.segs) && length >= HEADER + GRAIN
    requires segs == h.segs + [Seg(h.end, length - HEADER, true)]
    ensures Last(h).addr in hdrs && Spells(Appended(hdrs, Last(h).addr, h.end, length - HEADER), segs)
    ensures HeapList.Sound(Heap(segs, h.start, h.end + length))
  {
    AppendSpells(hdrs, h, length - HEADER);
    AppendSound(h, length);
  }

  lemma AppendSound(h: Heap, length: nat)
    requires HeapList.Valid(h) && length >= HEADER + GRAIN
    ensures HeapList.Sound(Heap(h.segs + [Seg(h.end, length - HEADER, true)], h.start, h.end + length))
  {
    var f := Heap(h.segs + [Seg(h.end, length - HEADER, true)], h.start, h.end + length);
    forall i | 0 <= i < |f.segs|
      ensures EndOf(f.segs[i]) == Next(f, i) && f.segs[i].length >= GRAIN
    {
      if i < |h.segs| {
        assert EndOf(h.segs[i]) == Next(h, i);
      }
    }
  }

  // Split puts a new header at b, in front of c.
  lemma SplitApart(hdrs: Headers, h: Heap, k: nat, n: nat, b: nat, c: nat)
    requires HeapList.Sound(h) && Spells(hdrs, h.segs) && k < |h.segs| && Splits(h.segs[k].length, n)
    requires b == h.segs[k].addr + n + HEADER && c == NextOf(h.segs, k)
    ensures var a := h.segs[k].addr; a in hdrs && c in hdrs && a != b && a != c && b != c
  {
    OldCells(hdrs, h, k, k);
    NewHeaderApart(h, k, n, k);
    NewApartFromNext(h, k, n);
  }

  lemma SplitDone(hdrs: Headers, h: Heap, k: nat, n: nat, b: nat, c: nat, rest: nat, hdrs': Headers, r: Heap)
    requires HeapList.Sound(h) && Spells(hdrs, h.segs) && k < |h.segs| && Splits(h.segs[k].length, n)
    requires b == h.segs[k].addr + n + HEADER && c == NextOf(h.segs, k) && rest == h.segs[k].length - n - HEADER
    requires h.segs[k].addr in hdrs && c in hdrs && hdrs' == Divided(hdrs, h.segs[k].addr, b, c, n, rest)
    requires r == h.(segs := SplitSegs(h.segs, k, n))
    ensures Spells(hdrs', r.segs)
    ensures hdrs'[0] == if k + 1 == |h.segs| then hdrs[0].(last := b) else hdrs[0]
    ensures HeapList.Sound(r) && Last(r).addr == if h.segs[k].addr == Last(h).addr then b else Last(h).addr
  {
    SplitSpells(hdrs, h, k, n, hdrs', r.segs);
    SplitNullStore(hdrs, h, k, n);
    SplitSound(h, k, n);
    SplitTail(h, k, n);
  }

  lemma SplitSound(h: Heap, k: nat, n: nat)
    requires HeapList.Sound(h) && k < |h.segs| && Splits(h.segs[k].length, n)
    ensures HeapList.Sound(h.(segs := SplitSegs(h.segs, k, n)))
  {
    var r := h.(segs := SplitSegs(h.segs, k, n));
    SplitSegsAt(h.segs, k, n, 0);
    forall i | 0 <= i < |r.segs|
      ensures EndOf(r.segs[i]) == Next(r, i) && r.segs[i].length >= GRAIN
    {
      SplitSoundAt(h, k, n, i);
    }
  }

  lemma SplitSoundAt(h: Heap, k: nat, n: nat, i: nat)
    requires HeapList.Sound(h) && k < |h.segs| && Splits(h.segs[k].length, n) && i <= |h.segs|
    ensures var r := h.(segs := SplitSegs(h.segs, k, n));
            |r.segs| == |h.segs| + 1 && EndOf(r.segs[i]) == Next(r, i) && r.segs[i].length >= GRAIN
  {
    SplitSegsAt(h.segs, k, n, i);
    if i < |h.segs| {
      SplitSegsAt(h.segs, k, n, i + 1);
    }
    if i < k {
      assert EndOf(h.segs[i]) == Next(h, i);
    } else if i > k {
      var j := i - 1;
      assert EndOf(h.segs[j]) == Next(h, j);
    }
  }

  lemma SplitTail(h: Heap, k: nat, n: nat)
    requires HeapList.Sound(h) && k < |h.segs| && Splits(h.segs[k].length, n)
    ensures |SplitSegs(h.segs, k, n)| == |h.segs| + 1
    ensures Last(h.(segs := SplitSegs(h.segs, k, n))).addr
         == (if h.segs[k].addr == Last(h).addr then h.segs[k].addr + n + HEADER else Last(h).addr)
  {
    SplitSegsAt(h.segs, k, n, |h.segs|);
    TilesIncrease(h);
  }

  // Splitting, if it is done, and marking make up Take.
  lemma MarkTaken(h: Heap, k: nat, n: nat, segs: seq<Seg>)
    requires k < |h.segs| && Fits(h.segs[k], n)
    requires segs == if Splits(h.segs[k].length, n) then SplitSegs(h.segs, k, n) else h.segs
    ensures k < |segs| && segs[k := segs[k].(free := false)] == Take(h, k, n).segs
  {
    if Splits(h.segs[k].length, n) {
      SplitSegsAt(h.segs, k, n, k);
      var t := Take(h, k, n).segs;
      SplitAt(h, k, n, k);
      forall i | 0 <= i < |t|
        ensures segs[k := segs[k].(free := false)][i] == t[i]
      {
        SplitSegsAt(h.segs, k, n, i);
        SplitAt(h, k, n, i);
      }
    }
  }

  // What CombineForward's stores do at segment k.
  lemma CombineFacts(hdrs: Headers, h: Heap, k: nat)
    requires HeapList.Sound(h) && Spells(hdrs, h.segs) && k + 1 < |h.segs|
    ensures var a, b, c := h.segs[k].addr, h.segs[k + 1].addr, NextOf(h.segs, k + 1);
            a in hdrs && b in hdrs && c in hdrs && a != b && hdrs[a].next == b && hdrs[b].next == c
            && Spells(Merged(hdrs, a, b, c), Merge(h.segs, k))
    ensures var a, b, c := h.segs[k].addr, h.segs[k + 1].addr, NextOf(h.segs, k + 1);
            var r0 := if c != 0 then hdrs[c := hdrs[c].(last := a)] else hdrs;
            var r1 := r0[a := r0[a].(length := r0[a].length + r0[b].length + HEADER)];
            r1[a := r1[a].(next := r1[b].next)] == Merged(hdrs, a, b, c)
    ensures var m := h.(segs := Merge(h.segs, k));
            HeapList.Sound(m)
            && Last(m).addr == (if h.segs[k + 1].addr == Last(h).addr then h.segs[k].addr else Last(h).addr)
  {
    TilesIncrease(h);
    MergeSpells(hdrs, h.segs, k);
    MergedInSteps(hdrs, h.segs[k].addr, h.segs[k + 1].addr, NextOf(h.segs, k + 1));
    MergeTiles(h, k);
    MergedTail(h, k);
  }

  lemma MergedTail(h: Heap, k: nat)
    requires Tiles(h) && k + 1 < |h.segs|
    ensures |Merge(h.segs, k)| > 0
    ensures Last(h.(segs := Merge(h.segs, k))).addr
         == (if h.segs[k + 1].addr == Last(h).addr then h.segs[k].addr else Last(h).addr)
  {
    MergeAt(h.segs, k, |h.segs| - 2);
    TilesIncrease(h);
  }
}
