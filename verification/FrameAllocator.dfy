// The page frame allocator object: kernel/src/memory/pfa.cpp.

module FrameAllocators {
  import opened Units
  import opened Bitmaps
  import opened FrameSpec
  import opened BootSpec

  // The "legacy" memory area, in pages.
  const LEGACY: nat := 0x100

  class PageFrameAllocator {
    var PageBitmap: Bitmap
    var PageBitmapIndex: nat
    var FreeMemory: nat
    var UsedMemory: nat
    var ReservedMemory: nat
    // The static cache of GetMemorySize.
    var MemorySizeBytes: nat

    ghost predicate Valid()
      reads this, PageBitmap, PageBitmap.Buffer
    {
      PageBitmap.Valid()
    }

    ghost function View(): (s: Frames)
      requires Valid()
      reads this, PageBitmap, PageBitmap.Buffer
      ensures FrameSpec.Valid(s)
    {
      Frames(PageBitmap.Size, PageBitmap.Bits, PageBitmapIndex, FreeMemory, UsedMemory, ReservedMemory)
    }

    // The state of the globals before boot: an empty bitmap and zero counters.
    constructor ()
      ensures Valid() && fresh(PageBitmap) && fresh(PageBitmap.Buffer)
      ensures View() == UNBOOTED && MemorySizeBytes == 0
    {
      var buffer := new bv8[1](_ => 0);
      PageBitmap := new Bitmap(0, 0, buffer);
      PageBitmapIndex, FreeMemory, UsedMemory, ReservedMemory, MemorySizeBytes := 0, 0, 0, 0, 0;
      new;
      assert PageBitmap.Bits[0] == At(PageBitmap.Buffer[..], 0);
      ZeroByte(0);
    }

    method LockPage(address: nat)
      requires Valid()
      modifies this`FreeMemory, this`UsedMemory, PageBitmap`Bits, PageBitmap.Buffer
      ensures Valid() && View() == Take(old(View()), address / PAGE, Used)
    {
      var index := address / PAGE;
      var taken := PageBitmap.Get(index);
      if taken {
        return;
      }
      var done := PageBitmap.Set(index, true);
      if done {
        FreeMemory := Minus(FreeMemory, PAGE);
        UsedMemory := Plus(UsedMemory, PAGE);
      }
    }

    method ReservePage(address: nat)
      requires Valid()
      modifies this`FreeMemory, this`ReservedMemory, PageBitmap`Bits, PageBitmap.Buffer
      ensures Valid() && View() == Take(old(View()), address / PAGE, Reserved)
    {
      var index := address / PAGE;
      var taken := PageBitmap.Get(index);
      if taken {
        return;
      }
      var done := PageBitmap.Set(index, true);
      if done {
        FreeMemory := Minus(FreeMemory, PAGE);
        ReservedMemory := Plus(ReservedMemory, PAGE);
      }
    }

    method FreePage(address: nat)
      requires Valid()
      modifies this`FreeMemory, this`UsedMemory, this`PageBitmapIndex, PageBitmap`Bits, PageBitmap.Buffer
      ensures Valid() && View() == Release(old(View()), address / PAGE, Used)
    {
      var index := address / PAGE;
      var taken := PageBitmap.Get(index);
      if !taken {
        return;
      }
      var done := PageBitmap.Set(index, false);
      if done {
        FreeMemory := Plus(FreeMemory, PAGE);
        UsedMemory := Minus(UsedMemory, PAGE);
        if PageBitmapIndex > index {
          PageBitmapIndex := index;
        }
      }
    }

    method UnreservePage(address: nat)
      requires Valid()
      modifies this`FreeMemory, this`ReservedMemory, this`PageBitmapIndex, PageBitmap`Bits, PageBitmap.Buffer
      ensures Valid() && View() == Release(old(View()), address / PAGE, Reserved)
    {
      var index := address / PAGE;
      var taken := PageBitmap.Get(index);
      if !taken {
        return;
      }
      var done := PageBitmap.Set(index, false);
      if done {
        FreeMemory := Plus(FreeMemory, PAGE);
        ReservedMemory := Minus(ReservedMemory, PAGE);
        if PageBitmapIndex > index {
          PageBitmapIndex := index;
        }
      }
    }

    method LockPages(address: nat, pageCount: nat)
      requires Valid() && pageCount < WORD_LIMIT
      modifies this`FreeMemory, this`UsedMemory, PageBitmap`Bits, PageBitmap.Buffer
      ensures Valid() && View() == TakeRun(old(View()), address, pageCount, Used)
    {
      var t := 0;
      ghost var n: nat := 0;
      while t % WORD_LIMIT < pageCount
        invariant t == AsInt(n) && n <= Turns(pageCount)
        invariant Valid() && View() == TakeTurns(old(View()), address, n, Used)
        decreases Turns(pageCount) - n
      {
        TurnsExact(n, pageCount);
        TurnWraps(address, n);
        LockPage(TurnAddress(address, t));
        t, n := AsInt(t + 1), n + 1;
      }
      TurnsExact(n, pageCount);
    }

    method ReservePages(address: nat, pageCount: nat)
      requires Valid() && pageCount < WORD_LIMIT
      modifies this`FreeMemory, this`ReservedMemory, PageBitmap`Bits, PageBitmap.Buffer
      ensures Valid() && View() == TakeRun(old(View()), address, pageCount, Reserved)
    {
      var t := 0;
      ghost var n: nat := 0;
      while t % WORD_LIMIT < pageCount
        invariant t == AsInt(n) && n <= Turns(pageCount)
        invariant Valid() && View() == TakeTurns(old(View()), address, n, Reserved)
        decreases Turns(pageCount) - n
      {
        TurnsExact(n, pageCount);
        TurnWraps(address, n);
        ReservePage(TurnAddress(address, t));
        t, n := AsInt(t + 1), n + 1;
      }
      TurnsExact(n, pageCount);
    }

    method FreePages(address: nat, pageCount: nat)
      requires Valid() && pageCount < WORD_LIMIT
      modifies this`FreeMemory, this`UsedMemory, this`PageBitmapIndex, PageBitmap`Bits, PageBitmap.Buffer
      ensures Valid() && View() == ReleaseRun(old(View()), address, pageCount, Used)
    {
      var t := 0;
      ghost var n: nat := 0;
      while t % WORD_LIMIT < pageCount
        invariant t == AsInt(n) && n <= Turns(pageCount)
        invariant Valid() && View() == ReleaseTurns(old(View()), address, n, Used)
        decreases Turns(pageCount) - n
      {
        TurnsExact(n, pageCount);
        TurnWraps(address, n);
        FreePage(TurnAddress(address, t));
        t, n := AsInt(t + 1), n + 1;
      }
      TurnsExact(n, pageCount);
    }

    method UnreservePages(address: nat, pageCount: nat)
      requires Valid() && pageCount < WORD_LIMIT
      modifies this`FreeMemory, this`ReservedMemory, this`PageBitmapIndex, PageBitmap`Bits, PageBitmap.Buffer
      ensures Valid() && View() == ReleaseRun(old(View()), address, pageCount, Reserved)
    {
      var t := 0;
      ghost var n: nat := 0;
      while t % WORD_LIMIT < pageCount
        invariant t == AsInt(n) && n <= Turns(pageCount)
        invariant Valid() && View() == ReleaseTurns(old(View()), address, n, Reserved)
        decreases Turns(pageCount) - n
      {
        TurnsExact(n, pageCount);
        TurnWraps(address, n);
        UnreservePage(TurnAddress(address, t));
        t, n := AsInt(t + 1), n + 1;
      }
      TurnsExact(n, pageCount);
    }

    // `panic` stands for KernelPanic, which never returns.
    method RequestPage() returns (address: nat, panic: bool)
      requires Valid()
      modifies this`PageBitmapIndex, this`FreeMemory, this`UsedMemory, PageBitmap`Bits, PageBitmap.Buffer
      ensures Valid() && View() == AfterRequest(old(View()))
      ensures panic == Exhausted(old(View()))
      ensures !panic ==> address == Requested(old(View())) * PAGE
    {
      ghost var s := View();
      while PageBitmapIndex < PageBitmap.Size * 8
        invariant Valid() && Scanning(s, PageBitmapIndex)
        invariant Requested(s) == NextFree(s.bits, PageBitmapIndex, 8 * s.size)
        decreases PageBitmap.Size * 8 - PageBitmapIndex
      {
        var taken := PageBitmap.Get(PageBitmapIndex);
        NextFreeStep(s.bits, PageBitmapIndex, 8 * s.size);
        if taken {
          PageBitmapIndex := PageBitmapIndex + 1;
          continue;
        }
        LockPage(PageBitmapIndex * PAGE);
        return PageBitmapIndex * PAGE, false;
      }
      return 0, true;
    }

    // Only the hint has moved since state s.
    ghost predicate Scanning(s: Frames, hint: nat)
      requires Valid()
      reads this, PageBitmap, PageBitmap.Buffer
    {
      View() == s.(hint := hint)
    }

    method RequestPages(pages: nat) returns (address: nat)
      requires Valid() && PageBitmap.Size + pages < WORD_LIMIT
      modifies this`PageBitmapIndex, this`FreeMemory, this`UsedMemory, PageBitmap`Bits, PageBitmap.Buffer
      ensures Valid() && View() == AfterRequests(old(View()), pages)
      ensures var start := Search(old(View()).bits, old(View()).size, old(View()).hint, pages);
              address == if start < old(View()).size then start * PAGE else 0
    {
      ghost var s := View();
      ghost var start := Search(s.bits, s.size, s.hint, pages);
      while PageBitmapIndex < PageBitmap.Size
        invariant Valid() && Scanning(s, PageBitmapIndex)
        invariant Seeks(s.bits, s.size, PageBitmapIndex, pages, start)
        decreases PageBitmap.Size - PageBitmapIndex
      {
        assert PageBitmap.Bits == s.bits;
        var j := FirstTakenPage(PageBitmapIndex, pages);
        var next := PageBitmapIndex + j + 1;
        SeekOn(s.bits, s.size, PageBitmapIndex, pages, start, j, next);
        if j < pages {
          PageBitmapIndex := next;
          continue;
        }
        address := TakeFound(pages, s, start);
        return;
      }
      SeekEnd(s.bits, s.size, PageBitmapIndex, pages, start);
      return 0;
    }

    // The end of RequestPages, at a run of free pages.
    method TakeFound(pages: nat, ghost s: Frames, ghost start: nat) returns (address: nat)
      requires Valid() && PageBitmap.Size + pages < WORD_LIMIT
      requires Scanning(s, start) && start < s.size && start == Search(s.bits, s.size, s.hint, pages)
      modifies this`PageBitmapIndex, this`FreeMemory, this`UsedMemory, PageBitmap`Bits, PageBitmap.Buffer
      ensures Valid() && View() == AfterRequests(s, pages) && address == start * PAGE
    {
      address := PageBitmapIndex * PAGE;
      PageBitmapIndex := PageBitmapIndex + pages;
      assert View() == s.(hint := start + pages);
      LockPages(address, pages);
    }

    // The inner loop of RequestPages: the offset of the first taken page, or `pages`.
    method FirstTakenPage(index: nat, pages: nat) returns (j: nat)
      requires Valid()
      ensures j == FirstTaken(PageBitmap.Bits, index, 0, pages)
    {
      j := 0;
      while j < pages
        invariant j <= pages
        invariant FirstTaken(PageBitmap.Bits, index, 0, pages) == FirstTaken(PageBitmap.Bits, index, j, pages)
      {
        var taken := PageBitmap.Get(index + j);
        FirstTakenStep(PageBitmap.Bits, index, j, pages);
        if taken {
          return;
        }
        j := j + 1;
      }
    }

    // What GetMemorySize answers: the first non-zero sum is cached for ever.
    function SizeFrom(cache: nat, descriptors: seq<Descriptor>): nat {
      if cache > 0 then cache else MemorySize(descriptors)
    }

    method GetMemorySize(descriptors: seq<Descriptor>) returns (size: nat)
      modifies this`MemorySizeBytes
      ensures size == MemorySizeBytes == SizeFrom(old(MemorySizeBytes), descriptors)
      ensures old(MemorySizeBytes) > 0 ==> size == old(MemorySizeBytes)
      ensures old(MemorySizeBytes) == 0 && PageSum(descriptors) * 4096 < WORD_LIMIT ==> size == PageSum(descriptors) * 4096
    {
      if PageSum(descriptors) * 4096 < WORD_LIMIT {
        MemorySizeExact(descriptors);
      }
      if MemorySizeBytes > 0 {
        return MemorySizeBytes;
      }
      var i := 0;
      while i < |descriptors|
        invariant i <= |descriptors| && MemorySizeBytes == MemorySize(descriptors[..i])
      {
        assert descriptors[..i + 1][..i] == descriptors[..i];
        MemorySizeBytes := Plus(MemorySizeBytes, descriptors[i].numPages * PAGE % WORD_LIMIT);
        i := i + 1;
      }
      assert descriptors[..i] == descriptors;
      return MemorySizeBytes;
    }

    // `tail` is the byte that happens to follow the bitmap in memory; memset does not reach it.
    method InitBitmap(bitmapSize: nat, bufferAddress: nat, tail: bv8)
      modifies this`PageBitmap
      ensures fresh(PageBitmap) && fresh(PageBitmap.Buffer) && PageBitmap.Valid()
      ensures PageBitmap.Size == bitmapSize && PageBitmap.Address == bufferAddress
      ensures PageBitmap.Bits == EmptyBits(bitmapSize, Tested(tail, 0))
    {
      var buffer := new bv8[bitmapSize + 1](_ => tail);
      var i := 0;
      while i < bitmapSize
        invariant i <= bitmapSize
        invariant forall j :: 0 <= j < i ==> buffer[j] == 0
        invariant buffer[bitmapSize] == tail
      {
        buffer[i] := 0;
        i := i + 1;
      }
      PageBitmap := new Bitmap(bitmapSize, bufferAddress, buffer);
      forall k | 0 <= k < 8 * bitmapSize + 1
        ensures PageBitmap.Bits[k] == EmptyBits(bitmapSize, Tested(tail, 0))[k]
      {
        assert PageBitmap.Bits[k] == At(buffer[..], k);
        ZeroByte(k % 8);
      }
    }

    // `descriptors` are the mMapSize / mMapDescSize entries of the map.
    method ReadEFIMemoryMap(descriptors: seq<Descriptor>, tail: bv8)
      requires Valid() && Words(descriptors) && MemorySizeBytes < WORD_LIMIT
      modifies this
      ensures Valid() && fresh(PageBitmap) && fresh(PageBitmap.Buffer)
      ensures MemorySizeBytes == SizeFrom(old(MemorySizeBytes), descriptors)
      ensures PageBitmap.Address == Largest(descriptors).0
      ensures View() == AfterBoot(old(View()), descriptors, MemorySizeBytes, Tested(tail, 0), LEGACY)
      ensures Small(descriptors) && MemorySizeBytes < 0x8000_0000 ==>
                RightlyBooted(descriptors, MemorySizeBytes, 0x100, View())
    {
      BootIsRight(View(), descriptors, SizeFrom(MemorySizeBytes, descriptors), Tested(tail, 0), LEGACY);
      var largestFreeMemSeg := FindLargest(descriptors);
      var memorySize := GetMemorySize(descriptors);
      ReserveEverything(largestFreeMemSeg, memorySize, tail);
      UnreserveConventional(descriptors);
      ClaimPages(LEGACY, memorySize);
    }

    // The blank bitmap at its home, with every page of memory reserved.
    method ReserveEverything(largestFreeMemSeg: nat, memorySize: nat, tail: bv8)
      requires Valid() && memorySize < WORD_LIMIT
      modifies this`FreeMemory, this`ReservedMemory, this`PageBitmap
      ensures Valid() && fresh(PageBitmap) && fresh(PageBitmap.Buffer)
      ensures PageBitmap.Address == largestFreeMemSeg && PageBitmap.Size == BitmapSize(memorySize)
      ensures View() == Prepared(old(View()), largestFreeMemSeg, memorySize, Tested(tail, 0))
    {
      FreeMemory := memorySize;
      var bitmapSize := memorySize / 4096 / 8 + 1;
      InitBitmap(bitmapSize, largestFreeMemSeg, tail);
      assert View() == Blank(old(View()), memorySize, Tested(tail, 0));
      ReservePages(largestFreeMemSeg, (memorySize / 4096 / 8 + 1) / 4096);
      ReservePages(0, memorySize / 4096 + 1);
    }

    // The first pass over the map.
    static method FindLargest(descriptors: seq<Descriptor>) returns (largestFreeMemSeg: nat)
      ensures largestFreeMemSeg == Largest(descriptors).0
    {
      largestFreeMemSeg := 0;
      var largestFreeMemSegSize := 0;
      var i := 0;
      while i < |descriptors|
        invariant i <= |descriptors|
        invariant (largestFreeMemSeg, largestFreeMemSegSize) == Largest(descriptors[..i])
      {
        var desc := descriptors[i];
        assert descriptors[..i + 1][..i] == descriptors[..i];
        if desc.kind == CONVENTIONAL {
          if desc.numPages * PAGE % WORD_LIMIT > largestFreeMemSegSize {
            largestFreeMemSeg := desc.physAddr;
            largestFreeMemSegSize := desc.numPages * PAGE % WORD_LIMIT;
          }
        }
        i := i + 1;
      }
      assert descriptors[..i] == descriptors;
    }

    // The second pass over the map.
    method UnreserveConventional(descriptors: seq<Descriptor>)
      requires Valid() && Words(descriptors)
      modifies this`FreeMemory, this`ReservedMemory, this`PageBitmapIndex, PageBitmap`Bits, PageBitmap.Buffer
      ensures Valid() && View() == UnreserveAll(old(View()), descriptors)
    {
      var i := 0;
      while i < |descriptors|
        invariant i <= |descriptors|
        invariant Valid() && View() == UnreserveAll(old(View()), descriptors[..i])
      {
        var desc := descriptors[i];
        assert desc in descriptors;
        assert descriptors[..i + 1][..i] == descriptors[..i];
        if desc.kind == CONVENTIONAL {
          UnreservePages(desc.physAddr, desc.numPages);
        }
        i := i + 1;
      }
      assert descriptors[..i] == descriptors;
    }

    // The last two lines: the legacy area, then the pages the bitmap occupies.
    method ClaimPages(legacy: nat, ghost memorySize: nat)
      requires Valid() && legacy < WORD_LIMIT && PageBitmap.Size == BitmapSize(memorySize) < WORD_LIMIT
      modifies this`FreeMemory, this`UsedMemory, this`ReservedMemory, PageBitmap`Bits, PageBitmap.Buffer
      ensures Valid()
      ensures View() == Claimed(old(View()), PageBitmap.Address, memorySize, legacy)
    {
      ReservePages(0, legacy);
      LockPages(PageBitmap.Address, PageBitmap.Size / 4096 + 1);
    }
  }

  lemma ZeroByte(k: nat)
    requires k < 8
    ensures !Tested(0, k)
  {
    ShiftValues(k);
  }
}
