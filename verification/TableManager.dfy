// The page table manager object: kernel/src/memory/ptm.cpp.

module TableManagers {
  import opened Units
  import opened Word
  import opened Paging
  import opened PageIndex
  import opened PageTables
  import opened VmSpec
  import opened VmShare
  import opened FrameAllocators
  import F = FrameSpec

  // Physical memory seen as page tables, at its identity-mapped addresses.
  class PhysicalMemory {
    var words: Words

    method Read(table: nat, index: nat) returns (value: nat)
      ensures value == Entry(words, table / PAGE, index)
    {
      value := if (table / PAGE, index) in words then words[(table / PAGE, index)] else 0;
    }

    method Store(table: nat, index: nat, value: nat)
      modifies this
      ensures words == Write(old(words), table / PAGE, index, value)
    {
      words := words[(table / PAGE, index) := value];
    }

    // memset(table, 0, 0x1000), eight bytes at a time
    method Clear(table: nat)
      modifies this
      ensures words == Zeroed(old(words), table / PAGE)
    {
      ghost var before, frame := words, table / PAGE;
      var k := 0;
      while k < 512
        invariant k <= 512
        invariant words == ZeroedTo(before, frame, k)
      {
        ZeroedStep(before, frame, k);
        Store(table, k, 0);
        k := k + 1;
      }
    }
  }

  class PageTableManager {
    const PML4: nat
    const Memory: PhysicalMemory
    const Allocator: PageFrameAllocator

    ghost predicate Valid()
      reads Allocator, Allocator.PageBitmap, Allocator.PageBitmap.Buffer
    {
      Allocator.Valid()
    }

    ghost function View(): (vm: Vm)
      requires Valid()
      reads Memory, Allocator, Allocator.PageBitmap, Allocator.PageBitmap.Buffer
      ensures F.Valid(vm.frames)
    {
      Vm(Memory.words, Allocator.View())
    }

    // The frame of the PML4 table.
    function Root(): nat {
      PML4 / PAGE
    }

    constructor (pml4Address: nat, memory: PhysicalMemory, allocator: PageFrameAllocator)
      ensures PML4 == pml4Address && Memory == memory && Allocator == allocator
    {
      PML4, Memory, Allocator := pml4Address, memory, allocator;
    }

    // One of MapMemory's three descents.
    method TableBelow(table: nat, index: nat) returns (next: nat, panic: bool)
      requires Valid()
      modifies Memory, Allocator`PageBitmapIndex, Allocator`FreeMemory, Allocator`UsedMemory,
               Allocator.PageBitmap`Bits, Allocator.PageBitmap.Buffer
      ensures Valid()
      ensures var r := NextTable(old(View()), table / PAGE, index);
              View() == r.vm && panic == r.Panic? && (!panic ==> next / PAGE == r.frame)
    {
      var value := Memory.Read(table, index);
      var PDE := new PageDirectoryEntry(value);
      var present := PDE.GetFlag(PRESENT);
      ReadsBitZero(value, PRESENT);
      if !present {
        next, panic := Allocator.RequestPage();
        if panic {
          return;
        }
        Memory.Clear(next);
        ghost var z := F.Requested(old(Allocator.View()));
        PageShift(z);
        PDE.SetAddress(Shr(next, 12));
        PDE.SetFlag(PRESENT, true);
        PDE.SetFlag(READ_WRITE, true);
        assert PDE.Value == Mapped(value, z);
        Memory.Store(table, index, PDE.Value);
        assert Memory.words == Linked(old(Memory.words), table / PAGE, index, z, Mapped(value, z));
        assert Allocator.View() == F.AfterRequest(old(Allocator.View()));
      } else {
        var frame := PDE.GetAddress();
        PageShift(frame);
        next, panic := Shl(frame, 12), false;
      }
    }

    method MapMemory(virtualMemory: nat, physicalMemory: nat) returns (panic: bool)
      requires Valid()
      modifies Memory, Allocator`PageBitmapIndex, Allocator`FreeMemory, Allocator`UsedMemory,
               Allocator.PageBitmap`Bits, Allocator.PageBitmap.Buffer
      ensures Valid()
      ensures var r := Map(old(View()), Root(), Route(PageNumber(virtualMemory)), Shr(physicalMemory, 12));
              View() == r.vm && panic == r.Panic?
    {
      var indexer := new PageMapIndexer(virtualMemory);
      ghost var route := Route(PageNumber(virtualMemory));
      ghost var s0 := Done(View(), Root());
      DescendThree(View(), Root(), route);
      var PDP, PD, PT;
      PDP, panic := TableBelow(PML4, indexer.PDP_i);
      ghost var s1 := Below(s0, route[0]);
      if panic {
        assert Below(Below(s1, route[1]), route[2]) == s1;
        return;
      }
      PD, panic := TableBelow(PDP, indexer.PD_i);
      ghost var s2 := Below(s1, route[1]);
      if panic {
        return;
      }
      PT, panic := TableBelow(PD, indexer.PT_i);
      ghost var s3 := Below(s2, route[2]);
      if panic {
        return;
      }
      assert View() == s3.vm && PT / PAGE == s3.frame;
      var value := Memory.Read(PT, indexer.P_i);
      var PDE := new PageDirectoryEntry(value);
      PDE.SetAddress(Shr(physicalMemory, 12));
      PDE.SetFlag(PRESENT, true);
      PDE.SetFlag(READ_WRITE, true);
      Memory.Store(PT, indexer.P_i, PDE.Value);
    }

    // The four read-modify-write steps, each following the entry just written.
    method ShareEntry(table: nat, index: nat) returns (next: nat)
      modifies Memory
      ensures Memory.words == ShareAt(old(Memory.words), table / PAGE, index)
      ensures next / PAGE == Frame(Entry(Memory.words, table / PAGE, index))
    {
      var value := Memory.Read(table, index);
      var entry := new PageDirectoryEntry(value);
      entry.SetFlag(USER_SUPER, true);
      Memory.Store(table, index, entry.Value);
      var frame := entry.GetAddress();
      PageShift(frame);
      next := Shl(frame, 12);
    }

    method MapUserspaceMemory(virtualMemory: nat)
      modifies Memory
      ensures Memory.words == Share(old(Memory.words), Root(), Route(PageNumber(virtualMemory)))
    {
      var indexes := GetIndexes(virtualMemory);
      ghost var route := Route(PageNumber(virtualMemory));
      assert route == [indexes.L4_i, indexes.L3_i, indexes.L2_i, indexes.L1_i];
      var l3 := ShareEntry(PML4, indexes.L4_i);
      var l2 := ShareEntry(l3, indexes.L3_i);
      var l1 := ShareEntry(l2, indexes.L2_i);
      var _ := ShareEntry(l1, indexes.L1_i);
    }
  }

  // Addresses of frames and back.
  lemma PageShift(frame: nat)
    ensures Shl(frame, 12) == frame * PAGE && Shr(frame * PAGE, 12) == frame && frame * PAGE / PAGE == frame
  {
    ShlPage(frame);
    ShrIsDivision(frame * PAGE);
  }
}
