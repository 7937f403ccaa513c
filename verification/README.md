# moldOS, modelled and proved in Dafny

moldOS is a small x86-64 kernel in C++ booted through gnu-efi. This project models the parts of it
that carry the most state, each in its own form, and proves what they are for.

| files | source | what is modelled |
|---|---|---|
| Word, Paging, PageIndex | kernel/src/memory/paging.cpp, pmi.cpp, ptm.cpp | 64-bit words bit by bit, page-table entries, the four indices of an address |
| Bitmap, FrameSpec, FrameCharges, FrameAllocator, BootSpec | kernel/src/misc/bitmap/bitmap.cpp, kernel/src/memory/pfa.cpp, memory.cpp | the frame bitmap, the roving hint, the three counters, the boot-time memory map |
| PageTables, VmSpec, VmShare, MapCost, TableManager | kernel/src/memory/ptm.cpp | the tree of page tables in physical memory, and what MapMemory and MapUserspaceMemory do to every walk (Intel SDM volume 3A, sections 4.5 and 4.6) |
| HeapList, HeapLinks, HeapRuns, Heap | kernel/src/memory/heap.cpp | the segment list as a list, as linked headers in memory, and over runs |
| HeapMemory, HeapMachine, HeapCost, KernelRuns | the three layers together | the heap on its mapped pages, when memory runs out, and runs of the whole memory stack |
| SchedulerSpec, Scheduler, SchedulerRuns, Processes | kernel/src/scheduling/taskmgr.cpp | round robin, fairness, and what a process sees |
| MetaMatch, GlobPatterns | gnu-efi/lib/str.c | the glob matcher against the language of a pattern |
| CrcTable, CrcRegister, Crc, CrcHeader | gnu-efi/lib/crc.c | CRC-32 of table headers (UEFI specification, section 4.2) |
| PrintSpec, Print, Numbers, Decimals, NumberTexts, FormatSpec, FormatTexts, Format | gnu-efi/lib/print.c, gnu-efi/lib/str.c | the chunked print engine; numbers to text and back; format strings |
| Llfs, LlfsReader | tools/buildllfs.py, kernel/src/filesystem/llfs.cpp | the image packager and the image walk |
| DevicePathSpec, DevicePath, DevicePathBuild, DevicePathJoin | gnu-efi/lib/dpath.c, gnu-efi/inc/efidevp.h | device paths as bytes and as lists of nodes (UEFI specification 2.4, section 9.3) |
| Units | | pages and words, bytes and CHAR16 |

Check the whole project with `dafny verify dfyconfig.toml --resource-limit 2000000 --verification-time-limit 0`.

**How it is built.** Code that changes state is a class or a method over arrays with loops; its contract
equates the new state with a function of the old one, and lemmas prove what the source promises about that
function. Page tables are a map from (frame, index) to 64-bit words, identity mapped as in the kernel: an
address in the kernel is the frame itself. A walk is the processor's: a path of indices leads to a frame and
the access collected on the way, or stops at an entry that is not present. The tables form a tree when no frame
is reached as a table by two different paths. Loop bodies that are proved one turn at a time are methods of
their own, called where the source has them inline.

**How failure is modelled.** `KernelPanic` is an outcome: `panic` results, and `Panic`/`Panicked` values. The
firmware's memory is a parameter that says for which sizes `AllocatePool` and `ReallocatePool` have a block.

**Where the code departs from its intent** the model follows the code, and the exact condition is proved:

- `Bitmap::Get` and `Set` guard with `>` (bitmap.cpp:10, 16), so index `8 * Size` is accepted. The model gives
  the bitmap that spare bit, one byte behind its `Size` bytes; it is what decides `8 * Size + 1` in
  `HeapMemory.HeapBounded` and `7 * Size + 1` in `FrameSpec.StaysInsideExact`.
- The page loops (pfa.cpp:112, 133, 151, 170) multiply an `int` by 4096. Behind 2^19 pages the product turns
  negative and the loop goes to other pages; behind 2^31 the counter itself does, and the loop ends. C++ leaves
  this undefined; the model takes the wrap-around of unoptimised code (std.mk:18-19 asks for no optimisation
  level). Exactly from 2 GiB of memory on, boot does not reserve everything: `FrameSpec.TakeRunExact`,
  `FrameSpec.ReleaseRunExact`, `BootSpec.BootsRightlyExact`.
- `GetFlag` (paging.cpp:16) parses as `Value & (bitSelector > 0)` and reads bit 0: `Paging.GetFlagExact`.
- `RequestPages` (pfa.cpp:74) compares a page index with the byte count `Size`, moves the hint behind the run
  it takes, and so can leave free pages behind the hint that `RequestPage` will not find:
  `FrameSpec.RequestsKeepHintTightExact` says for which page counts it cannot, and
  `BootSpec.BootedPanicMeansFull` that "Out of memory" then is true.
- `Split` (heap.cpp:78) stores through `next` when the tail is split. Page 0 is mapped in this kernel, so this
  is a store into a header at address 0: `HeapLinks.SplitNullStore`.
- `ExpandHeap` with a length that wraps to zero maps nothing and stores behind the heap: `Faulted`.
- `Schedule` keeps `KernelRsp` in an `int` (taskmgr.cpp:29): `SchedulerSpec.NarrowedExact`. `AddTask` may take
  the slot of the process on the processor, and then the next interrupt overwrites the new registers:
  `Processes.ReuseLosesExactly`, `Processes.FirstTaskIsTheKernel`.
- `%lu` goes through the INT64 of `ValueToString` (print.c:1153-1160), so it prints numbers from 2^63 on as
  negative ones: `FormatTexts.DecPrints`.
- `VSPrint` with room for one unit leaves the buffer alone, without a terminator: `Formats.VSPrint`.
  In string printing the attributes are zero, so `%N`, `%H` and `%E` do not end their directive: the characters
  behind them are read as more of it (`FormatSpec.OneTurn`).
- `UnpackDevicePath` writes a length of zero for a node longer than 0xFFFC, and then the result is no path:
  `DevicePathSpec.UnpackedLengthExact`, `DevicePathSpec.UnpackedIsPathExactly`. `DevicePathInstance` gives up
  behind 513 nodes: `DevicePaths.FirstInstanceExactly`.
- `AppendDevicePath` is to put the second path behind every instance of the first (dpath.c:129-132), but copies
  the second path's own end with it, so the result ends there: `DevicePathSpec.JoinsEachExactly`.
- The packager pads names by characters, the reader counts bytes: `Llfs.PaddedExact`. The kernel's `strlen` is
  one short, so `LLFSOpenFile` ignores the last character: `LlfsReader.OpenExact`.

## Model

| member | source | states |
|---|---|---|
| `Paging.WithFlagExact` | kernel/src/memory/paging.cpp:3-11 | setting or clearing a flag changes that bit and no other flag, and leaves the frame address alone |
| `Paging.WithFrameExact` | kernel/src/memory/paging.cpp:24-29 | storing an address replaces the 40 frame bits and keeps every flag |
| `Paging.MappedExact` | kernel/src/memory/ptm.cpp:101-103 | an entry after MapMemory's three updates is present, writable, points at the frame, and is as open to user mode as before |
| `Paging.SharedExact` | kernel/src/memory/ptm.cpp:29-31 | setting the user flag keeps present, writable and frame |
| `Paging.GetFlagExact` | kernel/src/memory/paging.cpp:13-17 | GetFlag answers for every value what it is asked, if and only if the flag asked for is Present |
| `Paging.PageDirectoryEntry.SetFlag` | kernel/src/memory/paging.cpp:3-11 | the new value is the old one with that flag set or cleared |
| `Paging.PageDirectoryEntry.SetAddress` | kernel/src/memory/paging.cpp:24-29 | the new value is the old one with its frame replaced |
| `PageIndex.Digits` | kernel/src/memory/ptm.cpp:10-21 | the shifted and masked pieces of an address are the base-512 digits of its page number |
| `PageIndex.PageAtExact` | kernel/src/memory/pmi.cpp:3-13 | every four indices are the route of one page, and routes determine pages: no two pages share all four indices |
| `PageIndex.RouteOfAddress` | kernel/src/memory/pmi.cpp:3-13 | those digits are the route of the page |
| `PageIndex.GetIndexes` | kernel/src/memory/ptm.cpp:10-21 | the four indices are the route of the page, the same as PageMapIndexer's |
| `Bitmaps.StoredExact` | kernel/src/misc/bitmap/bitmap.cpp:14-20 | the arithmetic shift of the complemented selector clears exactly one bit: a store changes that bit of its byte and no other |
| `Bitmaps.StoreIsUpdate` | kernel/src/misc/bitmap/bitmap.cpp:14-20 | a store into the packed buffer is the update of one element of the sequence of bits |
| `Bitmaps.Bitmap.Set` | kernel/src/misc/bitmap/bitmap.cpp:14-20 | exactly that bit changes, if the index passes the guard, and the answer says so |
| `FrameSpec.TakeRunExact` | kernel/src/memory/pfa.cpp:129-135 | locking or reserving a run takes exactly its pages and moves nothing else, in every state and at every address, if and only if it has at most 2^19 pages |
| `FrameSpec.ReleaseRunExact` | kernel/src/memory/pfa.cpp:110-116 | freeing or unreserving a run frees exactly its pages and draws the hint back to the least of those it frees, if and only if it has at most 2^19 pages |
| `FrameSpec.RequestExact` | kernel/src/memory/pfa.cpp:58-70 | RequestPage gives the least free page at or above the hint, takes that one bit, and panics exactly when there is none |
| `FrameSpec.PanicMeansFull` | kernel/src/memory/pfa.cpp:58-70 | if no free page lies below the hint, "Out of memory" means that every page is taken |
| `FrameSpec.SearchLeast` | kernel/src/memory/pfa.cpp:72-96 | skipping `j + 1` pages never jumps over a free run: the search stops at the least start below the limit with that many free pages, or finds none |
| `FrameSpec.RequestsExact` | kernel/src/memory/pfa.cpp:72-96 | RequestPages takes exactly the pages of the least free run at or above the hint and below Size, all free before, or nothing when there is no such run; in a run of more than 2^19 pages it keeps every taken page taken |
| `FrameSpec.StaysInsideExact` | kernel/src/memory/pfa.cpp:72-96 | every run that can be handed out lies within the bitmap exactly when at most 7 * Size + 1 pages are asked for |
| `FrameSpec.RequestsKeepHintTightExact` | kernel/src/memory/pfa.cpp:72-96 | RequestPages never strands a free page below the hint exactly when it is asked for at most one page |
| `BootSpec.BootedPanicMeansFull` | kernel/src/memory/pfa.cpp:8-174 | from boot, over any calls of lock, free, reserve, unreserve, RequestPage and RequestPages for at most one page, RequestPage panics exactly when every page is taken |
| `FrameSpec.RequestAvailable` | kernel/src/memory/pfa.cpp:58-70 | RequestPage panics exactly when no page at or above the hint is free, and each page it gives leaves one less |
| `FrameCharges.CallCharges` | kernel/src/memory/pfa.cpp:58-174 | every call charges the pages it takes, and credits those it gives back, to freeMemory and to its own counter, reservedMemory for reserving and usedMemory for all else, and to no other |
| `FrameCharges.BootCharges` | kernel/src/memory/pfa.cpp:8-48 | after boot usedMemory counts just the pages locked for the bitmap that were free by then, reservedMemory all others that are taken |
| `FrameSpec.RequestBalanced` | kernel/src/memory/pfa.cpp:58-70 | a request keeps free + used + reserved, and charges exactly the page it takes |
| `FrameSpec.RequestsBalanced` | kernel/src/memory/pfa.cpp:72-96 | so does a request of many pages |
| `BootSpec.LargestExact` | kernel/src/memory/pfa.cpp:15-26 | the bitmap is put at the first conventional region that no other exceeds in bytes, and at address 0 when none has a page |
| `BootSpec.BootsRightlyExact` | kernel/src/memory/pfa.cpp:8-48 | after ReadEFIMemoryMap a page of memory is free exactly when a conventional descriptor covers it, it lies above the legacy area and it holds no part of the bitmap: so for every memory map of that many pages, if and only if they are less than 2 GiB |
| `BootSpec.BitmapIsTaken` | kernel/src/memory/pfa.cpp:46-47 | the page of each byte of the bitmap itself is taken then |
| `BootSpec.BootBalanced` | kernel/src/memory/pfa.cpp:8-48 | after boot the counters add up to the memory size, and used and reserved to the pages taken |
| `BootSpec.RunsConserveMemory` | kernel/src/memory/pfa.cpp:98-174 | every run of lock, reserve, free, unreserve and request calls keeps these sums, modulo 2^64 |
| `BootSpec.BootedRunsConserveMemory` | kernel/src/memory/pfa.cpp:8-174 | so in every state reached from boot free + used + reserved is the memory size and used + reserved is 4096 for each set bit |
| `FrameAllocators.PageFrameAllocator.RequestPage` | kernel/src/memory/pfa.cpp:58-70 | the loop over the packed bitmap does what the specification says, panic included |
| `FrameAllocators.PageFrameAllocator.RequestPages` | kernel/src/memory/pfa.cpp:72-96 | the two nested loops with their jump find the run the specification finds |
| `FrameAllocators.PageFrameAllocator.LockPages` | kernel/src/memory/pfa.cpp:129-135 | the loop with its int counter takes the pages the specification takes, for every count |
| `FrameAllocators.PageFrameAllocator.ReadEFIMemoryMap` | kernel/src/memory/pfa.cpp:8-48 | the boot code ends in the state AfterBoot, of which BootsRightlyExact speaks, with 0x100 legacy pages, for every memory map, and rightly below 2 GiB |
| `PageTables.WalkDependsOn` | kernel/src/memory/ptm.cpp:46-105 | a walk depends only on the entries it passes |
| `PageTables.ZeroKeepsTree` | kernel/src/memory/ptm.cpp:55-56 | zeroing a frame that is no table keeps the tree and every walk |
| `VmSpec.NextTableExact` | kernel/src/memory/ptm.cpp:53-65 | descending one level, with or without a new table, keeps the invariants and every translation and arrives at the table of the longer path |
| `VmSpec.MapExact` | kernel/src/memory/ptm.cpp:46-105 | after MapMemory the page translates to its frame, present and writable, and every other page exactly as before, whichever tables were allocated; the tables stay a tree of locked frames, also on a panic midway |
| `MapCost.MapCosts` | kernel/src/memory/ptm.cpp:46-105 | MapMemory panics if and only if fewer pages are available than tables are missing above the page, and then none is left; otherwise it takes just one page for each, and with all three tables present none |
| `VmSpec.OneParent` | kernel/src/memory/ptm.cpp:53-98 | every table frame is pointed to by at most one present entry of all tables |
| `VmSpec.RequestAvoidsTables` | kernel/src/memory/pfa.cpp:58-70 | RequestPage never hands out a frame that is a page table |
| `TableManagers.PageTableManager.MapMemory` | kernel/src/memory/ptm.cpp:46-105 | the three descents and the final store over physical memory do what the specification says |
| `TableManagers.PageTableManager.MapUserspaceMemory` | kernel/src/memory/ptm.cpp:23-44 | the four stores over physical memory do what the specification says, also where a level is missing |
| `VmShare.ShareOnlyOpens` | kernel/src/memory/ptm.cpp:23-44 | MapUserspaceMemory, on any address and any tables, changes no translation and no write access, and takes no user access away |
| `VmShare.ShareExact` | kernel/src/memory/ptm.cpp:23-44 | on a mapped page it adds exactly that page to the pages open to user mode |
| `VmShare.MapKeepsUsers` | kernel/src/memory/ptm.cpp:46-104 | MapMemory neither opens nor closes a page to user mode |
| `VmShare.UserReachesExactly` | kernel/src/memory/ptm.cpp:23-44 | with that invariant user mode reaches a page exactly when it was opened |
| `HeapList.TakeValid` | kernel/src/memory/heap.cpp:49-62 | giving out a segment, split or not, keeps the tiling, the least length and the coalescing |
| `HeapList.FreeValid` | kernel/src/memory/heap.cpp:29-35 | freeing restores maximal coalescing: no two neighbours are both free |
| `HeapList.ExpandValid` | kernel/src/memory/heap.cpp:90-115 | so does growing the heap |
| `HeapLinks.MergeSpells` | kernel/src/memory/heap.cpp:117-132 | the pointer stores of CombineForward turn headers that spell the list into headers that spell the merged list, next and last inverse |
| `HeapLinks.SplitSpells` | kernel/src/memory/heap.cpp:71-88 | the stores of Split spell the list with the segment cut in two |
| `HeapLinks.SplitNullStore` | kernel/src/memory/heap.cpp:78 | splitting the tail stores into the header at address 0, and this disturbs no segment |
| `HeapLinks.AppendSpells` | kernel/src/memory/heap.cpp:107-112 | the stores of ExpandHeap spell the list with the new segment behind it |
| `HeapRuns.ExpandHelps` | kernel/src/memory/heap.cpp:67-68 | every ExpandHeap brings malloc closer to fitting: its recursion ends after at most two |
| `HeapRuns.MallocBounds` | kernel/src/memory/heap.cpp:37-115 | malloc rounds the size up to the least multiple of 16, grows the heap by multiples of its pages until some segment holds that, and gives out the lowest such segment, cut to just that length if 41 bytes are left behind it and else whole: at most 55 bytes more than asked for |
| `HeapRuns.Conservation` | kernel/src/memory/heap.cpp:29-137 | lengths and headers of all segments add up to the heap |
| `HeapRuns.InOrder` | kernel/src/memory/heap.cpp:29-137 | segments never overlap |
| `HeapRuns.FreeUndoesTake` | kernel/src/memory/heap.cpp:29-88 | freeing a block just given out restores the segment list exactly |
| `HeapRuns.FreeLive` | kernel/src/memory/heap.cpp:29-35 | free ends exactly its own block; every other live block keeps address and length |
| `HeapRuns.TakeLive` | kernel/src/memory/heap.cpp:49-62 | malloc adds exactly one live block, a new one, and moves none |
| `HeapRuns.FreeAllCoalesces` | kernel/src/memory/heap.cpp:29-35 | freeing all live blocks in any order leaves one free segment covering the heap |
| `HeapRuns.RunThenFreeAll` | kernel/src/memory/heap.cpp:7-137 | and this holds of every heap a client can reach from InitializeHeap |
| `Heaps.KernelHeap.Free` | kernel/src/memory/heap.cpp:29-35 | the header stores of free take the list to the freed list and keep the whole list invariant |
| `Heaps.KernelHeap.Split` | kernel/src/memory/heap.cpp:71-88 | Split cuts the segment exactly when the rest, as a signed number, holds a header and 16 bytes; a refusal changes nothing |
| `Heaps.KernelHeap.InitializeHeap` | kernel/src/memory/heap.cpp:7-27 | the heap is one free segment over freshly mapped pages, or the kernel has panicked |
| `Heaps.KernelHeap.ExpandHeap` | kernel/src/memory/heap.cpp:90-115 | the heap grows by the rounded length over freshly mapped pages and keeps every invariant; it faults exactly when the length wraps |
| `Heaps.KernelHeap.Malloc` | kernel/src/memory/heap.cpp:37-69 | search, expansion and retry over headers, page tables and bitmap end as the specification ends: an address, a panic or a fault |
| `HeapMachine.MallocReturns` | kernel/src/memory/heap.cpp:37-69 | by the size asked for: NULL for zero and for sizes that round up to 2^64, a fault exactly where ExpandHeap would wrap, and else what MallocBounds describes, 25 bytes behind its header |
| `HeapMachine.AllocateReturns` | kernel/src/memory/heap.cpp:37-69 | what is returned is the block the list specification chooses; malloc faults exactly when nothing fits and the rounded size is within a page of 2^64 |
| `HeapMachine.AllocateKeeps` | kernel/src/memory/heap.cpp:37-115 | malloc keeps the invariants of list, page tables and bitmap together, and those of tables and bitmap on a panic |
| `HeapCost.InitializeCosts` | kernel/src/memory/heap.cpp:7-27 | InitializeHeap panics only when no page is left, and never with four available for each page of the heap |
| `HeapCost.MallocCosts` | kernel/src/memory/heap.cpp:37-115 | malloc panics only when no page is left; it returns if a segment fits, or if eight pages are available for each page of the request |
| `HeapCost.FreshCosts` | kernel/src/memory/heap.cpp:11-15 | mapping a fresh page panics if and only if fewer pages are available than its own and one for each missing table |
| `HeapMemory.MapFreshExact` | kernel/src/memory/heap.cpp:11-15 | mapping a fresh frame behind the heap keeps all heap pages on distinct frames of their own, and adds one |
| `HeapMemory.HeapBounded` | kernel/src/memory/heap.cpp:101-105 | so the heap never has more pages than the bitmap has bits |
| `KernelRuns.StepKeeps` | kernel/src/memory/heap.cpp:7-137 | each call of InitializeHeap, malloc, free, RequestPage, RequestPages, LockPage, FreePage, MapMemory elsewhere, MapUserspaceMemory and each store outside the tables keeps the invariant of the whole stack |
| `KernelRuns.RunKeeps` | kernel/src/memory/heap.cpp:7-137 | and so does every run of these calls |
| `KernelRuns.BootedIsSound` | kernel/src/kernelInit.h:116-119 | requesting the PML4 frame and zeroing it establishes that invariant, before there is a heap |
| `KernelRuns.ReachableIsSeparated` | kernel/src/memory/heap.cpp:101-105 | in every state reached from there, by calls before and behind InitializeHeap, heap pages are writable on pairwise distinct frames, none a page table or a page handed to somebody else, and the next page handed out is none of these; user mode reaches exactly the opened pages |
| `KernelRuns.ReachablePanicsOnlyWhenOut` | kernel/src/memory/pfa.cpp:66-67 | and in each of these states MapMemory, InitializeHeap and malloc panic only when no page is left |
| `SchedulerSpec.NarrowedExact` | kernel/src/scheduling/taskmgr.cpp:29-31 | the int keeps the low 32 bits of KernelRsp and extends their sign, so it survives the int exactly in the lowest and the highest two gigabytes |
| `SchedulerSpec.AddedExact` | kernel/src/scheduling/taskmgr.cpp:34-61 | the first halted slot gets a running task with this name, privilege, size and the next terminal, whose frame has rip at the entry, rsp 0x8000 above the stack, rflags 0x202, the selectors of user mode and zeros elsewhere; all other slots and the current one stay |
| `SchedulerSpec.LoopEndsExactly` | kernel/src/scheduling/taskmgr.cpp:18-23 | the search for the next task ends if and only if some slot below taskNum (slot 0 when that is zero) is not halted |
| `SchedulerRuns.QueueRotates` | kernel/src/scheduling/taskmgr.cpp:17-31 | Schedule dispatches the cyclically next running slot, which goes to the back of the queue; the others keep their order |
| `SchedulerRuns.RoundRobin` | kernel/src/scheduling/taskmgr.cpp:17-31 | from any state, r interrupts with r running tasks dispatch each exactly once |
| `SchedulerRuns.Fair` | kernel/src/scheduling/taskmgr.cpp:7-73 | a task that stays running gets the processor within 1024 interrupts, whatever is added or exits meanwhile |
| `SchedulerRuns.ExitEnds` | kernel/src/scheduling/taskmgr.cpp:67-73 | a task that exits is not dispatched again, whatever comes, until a new task takes its slot |
| `SchedulerRuns.ExitLeavesQueue` | kernel/src/scheduling/taskmgr.cpp:67-73 | an exit takes just the current task out of the queue |
| `Schedulers.TaskManager.Schedule` | kernel/src/scheduling/taskmgr.cpp:7-32 | saves the frame, dispatches, and leaves in the interrupt frame what the specification resumes; nothing when disabled |
| `Schedulers.TaskManager.AddTask` | kernel/src/scheduling/taskmgr.cpp:34-65 | fills the first halted slot with the frame AddedExact describes and raises taskNum if needed |
| `Schedulers.TaskManager.ExitCurrentTask` | kernel/src/scheduling/taskmgr.cpp:67-73 | halts the current slot and changes nothing else |
| `Processes.AddFaithfulExactly` | kernel/src/scheduling/taskmgr.cpp:34-65 | adding a task keeps every process's registers with its slot if and only if it does not take the current slot |
| `Processes.ContextPreserved` | kernel/src/scheduling/taskmgr.cpp:7-73 | over any run without such reuse, every process is resumed with the registers it was last interrupted with, or created with, in all but KernelRsp, which is the interrupting frame's |
| `Processes.FirstResume` | kernel/src/scheduling/taskmgr.cpp:7-61 | a new process that does not take the current slot is first resumed at its entry, at the top of its stack, whatever is interrupted, added or exits before |
| `Processes.ReuseLosesExactly` | kernel/src/scheduling/taskmgr.cpp:34-61 | the new task's initial frame survives the next interrupt if and only if its slot was not the current one, or the frames agree |
| `Processes.FirstTaskIsTheKernel` | kernel/src/scheduling/taskmgr.cpp:7-61 | the first task added to a zeroed array never starts at its entry: the first interrupt resumes the interrupted kernel |
| `GlobPatterns.PlainPattern` | gnu-efi/lib/str.c:399-406 | plain characters match themselves, and the rest of the pattern what follows |
| `GlobPatterns.WildPatterns` | gnu-efi/lib/str.c:342-358 | `?` matches any one character, `*` anything |
| `GlobPatterns.SetPattern` | gnu-efi/lib/str.c:360-397 | a set without a dash matches any one of its characters |
| `GlobPatterns.RangePattern` | gnu-efi/lib/str.c:376-387 | a range matches any one character from low to high, and its ends even where they are exchanged |
| `Globs.MeansSet` | gnu-efi/lib/str.c:364-397 | a set takes one character, in the set as its characters and ranges say, and the pattern goes on behind its `]` |
| `Globs.MetaMatch` | gnu-efi/lib/str.c:325-409 | TRUE exactly when the string cuts into pieces that the tokens of the pattern admit one by one; reads neither string nor pattern behind its terminator; ends |
| `Globs.MatchSet` | gnu-efi/lib/str.c:371-397 | the in-place set loop agrees with the declarative meaning of characters, ranges and dashes |
| `CrcTable.TableExact` | gnu-efi/lib/crc.c:22-66 | each of the 256 entries is eight shifts of its index by the reflected polynomial 0xEDB88320 |
| `CrcRegister.Serial` | gnu-efi/lib/crc.c:209-212 | feeding bits one at a time is xoring them in at once and shifting |
| `Crc.Crc32IsBitwise` | gnu-efi/lib/crc.c:201-218 | the table-driven CRC is the bit-at-a-time reflected CRC of every message |
| `Crc.CheckValue` | gnu-efi/lib/crc.c:201-218 | the CRC of "123456789" is 0xCBF43926 |
| `Crc.BurstExact` | gnu-efi/lib/crc.c:201-218 | messages that agree outside four consecutive bytes have the same CRC only if they are the same |
| `TableHeaders.CalculateCrc` | gnu-efi/lib/crc.c:201-218 | the loop on a 64-bit register computes that CRC |
| `TableHeaders.SealedExact` | gnu-efi/lib/crc.c:93-116 | the checksum is that of the covered bytes with zeros in bytes 16 to 19; sealing stores it there, lowest byte first, and changes nothing else |
| `TableHeaders.SealedAccepted` | gnu-efi/lib/crc.c:93-116 | CheckCrcAltSize's test accepts what SetCrcAltSize wrote |
| `TableHeaders.FieldTamperExact` | gnu-efi/lib/crc.c:146-198 | a sealed table with its CRC field overwritten is accepted only with the same value |
| `TableHeaders.BurstTamperExact` | gnu-efi/lib/crc.c:146-198 | a sealed table changed within four consecutive covered bytes outside the field is accepted only if it is unchanged |
| `TableHeaders.SetCrcAltSize` | gnu-efi/lib/crc.c:93-116 | the header is sealed and nothing else changes |
| `TableHeaders.CheckCrcAltSize` | gnu-efi/lib/crc.c:146-198 | answers whether size and field are right, refusing size zero and sizes above the limit, and leaves the header as it was |
| `PrintSpec.TakeConcat` | gnu-efi/lib/print.c:313-350 | truncating chunk by chunk is truncating the whole |
| `PrintSpec.ItemWidth` | gnu-efi/lib/print.c:915-971 | an item is, character by character, the text as far as the field width lets it in, padding in front of it up to the width, and spaces on the side asked for up to the field width |
| `PrintSpec.ExpandUndone` | gnu-efi/lib/print.c:877-897 | what is put out is the text with one carriage return before every newline and nothing else changed |
| `Printing.PrintState.PPUTC` | gnu-efi/lib/print.c:877-897 | one character, a newline behind a carriage return, joins what was printed, wherever the 200-unit buffer is flushed |
| `Printing.PrintState.PITEM` | gnu-efi/lib/print.c:915-971 | an item joins what was printed with its padding and spaces |
| `Printing.PoolPrint.PoolPrint` | gnu-efi/lib/print.c:355-397 | the pool grows so that the text handed over is appended whole and terminated, unless an allocation fails, and that happens exactly when it must grow and there is no memory for it |
| `FormatSpec.SpelledReads` | gnu-efi/lib/print.c:1044-1248 | a directive written with flags, width, field width, length and conversion is read as the item with just these and the text of its argument, and the format goes on behind it with the other arguments |
| `FormatTexts.StringPrints` | gnu-efi/lib/print.c:1107-1120 | `%s` and `%a` print the string given, and "(null)" for NULL, as flags and widths ask |
| `FormatTexts.StringPrintsItself` | gnu-efi/lib/print.c:1115-1120 | a string printed by `%s` alone is the string |
| `FormatTexts.CharPrints` | gnu-efi/lib/print.c:1122-1126 | `%c` prints the low 16 bits of its argument, and nothing if they are zero |
| `FormatTexts.DecPrints` | gnu-efi/lib/print.c:1153-1169 | `%d` prints a text that stands for the signed 32 or 64 bits of its argument, minus sign and commas included, and `%u` one for the unsigned 32 bits |
| `FormatTexts.HexPrints` | gnu-efi/lib/print.c:1132-1146 | `%x` and `%X` print the low 32 or 64 bits in capitals without a leading zero |
| `FormatTexts.StarReads` | gnu-efi/lib/print.c:1086-1088 | a star takes the width, or behind a dot the field width, from the arguments |
| `FormatTexts.UnknownReads` | gnu-efi/lib/print.c:1226-1230 | a directive with an unknown character prints a question mark and takes no argument |
| `FormatSpec.TextReads` | gnu-efi/lib/print.c:1037-1042 | text without a percent sign is printed as it is, in front of what the rest prints |
| `FormatSpec.PercentReads` | gnu-efi/lib/print.c:1061-1068 | two percent signs print one |
| `FormatSpec.HexPrintsBack` | gnu-efi/lib/print.c:1132-1146 | what `%x` and `%X` print under any flags and width, xtoi reads back as the number, or as its low 32 bits without `l` |
| `Formats.ReadItem` | gnu-efi/lib/print.c:1057-1238 | the loop over a directive, with its switch, width loop and scratch buffer, finds the item the directive asks for and stops right behind it |
| `Formats.Print` | gnu-efi/lib/print.c:1021-1255 | hands over the text of all pieces of the format, newlines expanded, and returns its length |
| `Formats.VSPrint` | gnu-efi/lib/print.c:423-463 | the buffer holds the first units of the text of the format up to the limit, terminated exactly when the limit is not zero, and is otherwise untouched |
| `Formats.VPoolPrint` | gnu-efi/lib/print.c:504-528 | all of that text is in the pool if no allocation failed |
| `Numbers.HexRoundTrip` | gnu-efi/lib/print.c:1260-1288 | xtoi reads back every 64-bit number ValueToHex writes |
| `NumberTexts.HexTextExact` | gnu-efi/lib/print.c:1260-1288 | its digits are 0 to 9 and A to F, without a leading zero |
| `Numbers.ValueToHex` | gnu-efi/lib/print.c:1260-1288 | the buffer holds the hexadecimal digits, most significant first, terminated |
| `NumberTexts.ReadHexExact` | gnu-efi/lib/str.c:267-296 | hexadecimal digits of either case, whatever follows, read as the number they stand for modulo 2^64 |
| `Numbers.Xtoi` | gnu-efi/lib/str.c:267-296 | the value of the leading digits, in either case, behind spaces |
| `Decimals.DecRoundTripExact` | gnu-efi/lib/print.c:1291-1337 | Atoi reads back a number ValueToString wrote if and only if it is not negative and, with commas, below a thousand |
| `NumberTexts.DecTextExact` | gnu-efi/lib/print.c:1291-1337 | a minus sign exactly if negative, digits without a leading zero, a comma before every third from the end if asked for, and nothing lost: without the commas it is just that number |
| `Decimals.ValueToString` | gnu-efi/lib/print.c:1291-1337 | the buffer holds sign and digits, with a comma before every third digit from the end if asked, terminated |
| `NumberTexts.ReadDecExact` | gnu-efi/lib/str.c:298-323 | decimal digits, whatever follows, read as the number they stand for modulo 2^64 |
| `Decimals.Atoi` | gnu-efi/lib/str.c:298-323 | the value of the leading decimal digits behind spaces |
| `Llfs.LoadExact` | tools/buildllfs.py:25-30 | little-endian bytes are read back exactly when the number fits in them |
| `Llfs.LeDigit` | tools/buildllfs.py:25 | byte i of such a number has the weight 256^i |
| `Llfs.PaddedBytes` | tools/buildllfs.py:21-22 | the name field of an ASCII name that fits holds the name and behind it spaces |
| `Llfs.PaddedExact` | tools/buildllfs.py:21-22 | a padded name fills the 368-byte field exactly when it is ASCII and not longer |
| `Llfs.Packager.Build` | tools/buildllfs.py:24-45 | the output file is the image of the files, header and entries |
| `Llfs.PackedIsRead` | kernel/src/filesystem/llfs.cpp:32-49 | LLFSCheck accepts every packed image, and the walk visits exactly the packed files in order, and ends at the end of the image; byte by byte each entry is the name, spaces up to 368 bytes, the size in eight bytes, a zero and the contents, behind the header "LLFS", 2, the count and four zeros |
| `LlfsReader.LLFSGetFileSystemSize` | kernel/src/filesystem/llfs.cpp:32-42 | is where that walk ends: the length of a packed image |
| `LlfsReader.LLFSOpenFile` | kernel/src/filesystem/llfs.cpp:3-15 | is the first entry whose name agrees as far as strlen lets it be compared, or NULL |
| `LlfsReader.OpenExact` | kernel/src/filesystem/llfs.cpp:3-30 | on a packed image that is the first file with that name, and behind its entry lie its contents |
| `LlfsReader.OpensItselfExactly` | kernel/src/filesystem/llfs.cpp:3-15 | a file asked for by its full padded name is found if and only if no earlier name agrees with it in 367 bytes |
| `LlfsReader.Strlen` | kernel/src/libc/stdio/cstring.cpp:253-259 | is the index of the last character |
| `DevicePathSpec.SizesSum` | gnu-efi/lib/dpath.c:48-121 | the instances of a path, with four bytes each for their ends, are as long as the path |
| `DevicePaths.DevicePathSize` | gnu-efi/lib/dpath.c:286-307 | is the length of the encoded path |
| `DevicePaths.DevicePathInstance` | gnu-efi/lib/dpath.c:48-105 | delimits the nodes before the one the loop stops at, and points behind that or nowhere |
| `DevicePaths.FirstInstanceExactly` | gnu-efi/lib/dpath.c:48-105 | these are the first instance exactly when that has at most 513 nodes |
| `DevicePaths.DevicePathInstanceCount` | gnu-efi/lib/dpath.c:108-121 | is the number of instances |
| `DevicePathSpec.TotalExact` | gnu-efi/lib/dpath.c:347-361 | rounding the running total after every node sums the nodes each rounded by itself |
| `DevicePathSpec.UnpackedExact` | gnu-efi/lib/dpath.c:372-387 | unpacking keeps masked type, subtype and payload, and adds only zeros up to the next multiple of four |
| `DevicePathSpec.UnpackedLengthExact` | gnu-efi/lib/dpath.c:376-378 | an unpacked node carries its right length exactly when it was at most 0xFFFC bytes |
| `DevicePathSpec.UnpackedIsPathExactly` | gnu-efi/lib/dpath.c:365-392 | the unpacked nodes are a path again if and only if none was longer |
| `DevicePathSpec.UnpackedInstances` | gnu-efi/lib/dpath.c:365-392 | the instances of that path are the instances of the first, each unpacked |
| `DevicePathSpec.UnpackedTwice` | gnu-efi/lib/dpath.c:365-392 | unpacking it once more changes nothing |
| `DevicePathBuilders.UnpackDevicePath` | gnu-efi/lib/dpath.c:336-394 | writes exactly the bytes it allocated: the encoding of the unpacked nodes |
| `DevicePathBuilders.UnpackedReadsBack` | gnu-efi/lib/dpath.c:336-394 | what it wrote lies in memory as that path, and DevicePathSize of it is the size allocated |
| `DevicePathSpec.AppendedInstances` | gnu-efi/lib/dpath.c:397-433 | the instances of the result are those of both paths |
| `DevicePathBuilders.AppendDevicePathInstance` | gnu-efi/lib/dpath.c:397-433 | builds that result byte for byte |
| `DevicePathSpec.JoinsEachExactly` | gnu-efi/lib/dpath.c:124-194 | the path AppendDevicePath leaves is the second path put behind each instance of the first if and only if the first has one instance |
| `DevicePathSpec.JoinedFitsExactly` | gnu-efi/lib/dpath.c:163-169 | what its loop writes fits into what it allocates if and only if the first path has one instance or the second is no longer than the first |
| `DevicePathSpec.EndNodeExact` | gnu-efi/lib/data.c:75-82 | the end markers it copies are bare end nodes |
| `DevicePathJoins.AppendDevicePath` | gnu-efi/lib/dpath.c:124-194 | writes every instance with the second path and an end behind it, the last end being that of the entire path; read back, that is the first instance with the second path behind it; a missing path gives a copy of the other |

## Left out

- FrameSpec.RequestsExact: which pages a request of more than 2^19 pages takes is said by the turns of its loop alone (`FrameSpec.TakeRunExact`).
- FrameAllocators.PageFrameAllocator.RequestPages: page count and bitmap together below 2^64, so that the index does not wrap.
- FrameAllocators.PageFrameAllocator.ReadEFIMemoryMap: descriptors are given as values; the descriptor size in bytes and the pointer arithmetic over the map are not modelled.
- VmShare.ShareExact: only for mapped pages; on an unmapped one only `VmShare.ShareOnlyOpens` holds, since the code then sets a bit in whatever frame the entry names.
- TableManagers.PageTableManager.MapMemory: entries that map large pages are taken for tables, as in the code; caches and the TLB are not modelled.
- Heaps.KernelHeap.InitializeHeap: for a page-aligned, non-null address and at least one page, as the kernel calls it; with none the first header would lie on an unmapped page.
- Heaps.KernelHeap.Malloc: the two branches `>` and `==` of the search are one search for a fitting segment, since Split refuses a segment of exactly the size; headers are kept beside the words of the page tables, which the proof that heap frames are no tables justifies.
- Heaps.KernelHeap.Free: for the address of some segment of the heap; any other address makes the code treat arbitrary bytes as a header.
- KernelRuns.StepKeeps: a client frees what it holds, unmaps nothing, and stores only outside the page tables; the heap starts where growing into every frame would not pass the last page number.
- Schedulers.TaskManager.Schedule: requires a running slot when enabled, since otherwise the code never returns (`SchedulerSpec.LoopEndsExactly`).
- Schedulers.TaskManager.AddTask: requires a free slot, since otherwise the code searches behind the array; its two calls of MapUserspaceMemory are modelled by themselves.
- Globs.MetaMatch: requires the sets of the pattern to be closed, since the code reads behind the terminator of a pattern whose set is not.
- HeapRuns.MallocBounds: for sizes that ExpandHeap can round; what malloc does with the others, `HeapMachine.AllocateReturns` says.
- LlfsReader.LLFSGetFileSystemSize: for images whose entries lie within them and fewer than 2^31 entries; the code checks neither.
- LlfsReader.LLFSOpenFile: for images whose entries lie within them and fewer than 2^31 entries, and names of at most 369 characters; the code checks none of these.
- Formats.VSPrint: for formats whose directives are complete and whose arguments are of the types they take; with any other the code reads behind the terminator or is undefined. The texts of floats, times, GUIDs, statuses and device paths are given; colours on a console and `DumpHex` are not modelled.
- Formats.VPoolPrint: for the same formats.
- DevicePaths.DevicePathSize: for paths whose ends are bare headers, as UEFI demands; the code counts four bytes of any end.
- DevicePaths.DevicePathInstanceCount: for instances that pass the sanity check of DevicePathInstance.
- DevicePathJoins.AppendDevicePath: for instances that pass the sanity check, and paths for which the buffer is large enough (`DevicePathSpec.JoinedFitsExactly`); otherwise the code writes behind it.
- MapCost.MapCosts: says of one page how many frames it costs; for several pages `HeapCost` gives bounds.
- DevicePathBuilders.AppendDevicePathInstance: a failed allocation gives NULL; the code has only an ASSERT there and then copies (dpath.c:413-417).
- Port I/O, interrupt controllers, timers, PCI, ACPI, descriptor tables, serial, mouse and keyboard: hardware effects.
- Display, terminal and user interface code.
- EFI boot-service wrappers and the bootloader: calls into firmware that is not part of this model.
- ELF loading, the system-call dispatcher, the virtual file system above LLFS and mlib: plumbing over the parts above.
