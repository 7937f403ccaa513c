// Runs of the whole memory stack from a zeroed PML4 on: page tables, frame
// allocator and, once it is there, the heap.

module KernelRuns {
  import opened Units
  import opened Paging
  import opened PageIndex
  import opened PageTables
  import opened VmSpec
  import opened VmShare
  import opened HeapList
  import opened HeapRuns
  import opened HeapMemory
  import opened HeapMachine
  import opened MapCost
  import opened HeapCost
  import F = FrameSpec

  // ----- The state -----

  // Tables, bitmap and heap, which boot sets up late; the frames handed out to
  // others, the pages opened to user mode, and the heap blocks given out.
  datatype Kernel = Kernel(vm: Vm, heap: Option<Heap>, others: set<nat>, open: set<seq<nat>>, held: set<Seg>)

  function Lo(heap: Option<Heap>): nat {
    if heap.Some? then heap.value.start / 0x1000 else 0
  }

  function Hi(heap: Option<Heap>): nat {
    if heap.Some? then heap.value.end / 0x1000 else 0
  }

  predicate InHeap(heap: Option<Heap>, page: nat) {
    Lo(heap) <= page < Hi(heap)
  }

  // The tables are a tree of locked frames; the frames of others are locked and no
  // tables; and the heap, if there is one, lies on frames of its own.
  ghost predicate Placed(vm: Vm, heap: Option<Heap>, root: nat, others: set<nat>) {
    && Inv(vm, root) && Backed(vm, root, Lo(heap), Hi(heap), others)
    && (heap.Some? ==> Sane(Machine(vm, heap.value), root, others))
  }

  function Blocks(heap: Option<Heap>): set<Seg> {
    if heap.Some? then Live(heap.value.segs) else {}
  }

  // The invariant of the memory stack.
  ghost predicate Sound(k: Kernel, root: nat) {
    Placed(k.vm, k.heap, root, k.others) && UserExact(k.vm.words, root, k.open) && k.held == Blocks(k.heap)
  }

  // ----- The steps -----

  datatype Call =
    | InitializeHeap(lo: nat, pageCount: nat)
    | Malloc(size: nat)
    | FreeHeld(block: Seg)
    | RequestPage
    | RequestPages(pages: nat)
    | LockPage(frame: nat)
    | FreePage(frame: nat)
    | MapElsewhere(page: nat, address: nat)
    | ShareMapped(page: nat)
    | StoreData(frame: nat, index: nat, value: nat)

  // The pages that one of the locking calls takes.
  function NewlyTaken(before: F.Frames, after: F.Frames): set<nat> {
    set f | 0 <= f < |after.bits| && after.bits[f] && !F.Taken(before.bits, f)
  }

  // The state after the allocator has handed out frames.
  function HandedOut(k: Kernel, frames: F.Frames): Kernel {
    k.(vm := k.vm.(frames := frames), others := k.others + NewlyTaken(k.vm.frames, frames))
  }

  // One call that does not panic. The heap is set up once, where there is room for all of
  // memory. A client frees only what it holds, stores only into frames that hold no table,
  // maps outside the heap, and opens only mapped pages.
  ghost predicate Step(k: Kernel, root: nat, call: Call, k': Kernel)
    requires Placed(k.vm, k.heap, root, k.others)
  {
    var vm := k.vm;
    match call
    case InitializeHeap(lo, pageCount) =>
      k.heap.None? && lo > 0 && pageCount > 0 && Roomy(vm, lo)
      && var r := Initialize(vm, root, lo, pageCount);
         r.Returned? && k' == k.(vm := r.m.vm, heap := Some(r.m.heap))
    case Malloc(size) =>
      k.heap.Some?
      && var r := MallocEnding(Machine(vm, k.heap.value), root, size);
         r.Returned?
         && k' == k.(vm := r.m.vm, heap := Some(r.m.heap),
                     held := k.held + (Live(r.m.heap.segs) - Live(k.heap.value.segs)))
    case FreeHeld(block) =>
      k.heap.Some? && block in k.held
      && k' == k.(heap := Some(FreeBlock(k.heap.value, block)), held := k.held - {block})
    case RequestPage => !F.Exhausted(vm.frames) && k' == HandedOut(k, F.AfterRequest(vm.frames))
    case RequestPages(pages) => k' == HandedOut(k, F.AfterRequests(vm.frames, pages))
    case LockPage(frame) => k' == HandedOut(k, F.Take(vm.frames, frame, F.Used))
    case FreePage(frame) =>
      frame in k.others
      && k' == k.(vm := vm.(frames := F.Release(vm.frames, frame, F.Used)), others := k.others - {frame})
    case MapElsewhere(page, address) =>
      page < PAGES && !InHeap(k.heap, page) && Map(vm, root, Route(page), address).Done?
      && k' == k.(vm := Map(vm, root, Route(page), address).vm)
    case ShareMapped(page) =>
      Walk(vm.words, root, Route(page)).Some?
      && k' == k.(vm := vm.(words := Share(vm.words, root, Route(page))), open := k.open + {Route(page)})
    case StoreData(frame, index, value) =>
      !IsTable(vm.words, root, frame) && k' == k.(vm := vm.(words := Write(vm.words, frame, index, value)))
  }

  // Other tables under an unchanged heap.
  lemma PlacedUnder(vm: Vm, heap: Option<Heap>, after: Vm, root: nat, others: set<nat>, others': set<nat>)
    requires Placed(vm, heap, root, others) && Inv(after, root) && after.frames.size == vm.frames.size
    requires Backed(after, root, Lo(heap), Hi(heap), others')
    ensures Placed(after, heap, root, others')
  {
  }

  // ----- Frames handed out and given back -----

  // The allocator takes these pages, which nobody had.
  ghost predicate TakesOnly(before: F.Frames, after: F.Frames) {
    && F.Valid(after) && after.size == before.size
    && forall f :: F.Taken(before.bits, f) ==> F.Taken(after.bits, f)
  }

  lemma HandedOutKeeps(k: Kernel, root: nat, frames: F.Frames)
    requires Sound(k, root) && TakesOnly(k.vm.frames, frames)
    ensures Sound(HandedOut(k, frames), root)
  {
    var vm, lo, hi := k.vm, Lo(k.heap), Hi(k.heap);
    var after, taken := vm.(frames := frames), NewlyTaken(vm.frames, frames);
    assert forall f :: IsTable(vm.words, root, f) ==> Locked(vm, f);
    assert Extends(vm, after, root);
    UnmovedKept(vm, after, root, lo, hi, k.others);
    forall p | lo <= p < hi
      ensures BackedPage(after, root, p, k.others + taken)
    {
      assert BackedPage(vm, root, p, k.others) && BackedPage(after, root, p, k.others);
    }
    forall f | f in taken
      ensures DataFrame(after, root, f)
    {
    }
    PlacedUnder(vm, k.heap, after, root, k.others, k.others + taken);
  }

  lemma RequestTakesOnly(frames: F.Frames)
    requires F.Valid(frames) && 8 * frames.size <= FRAMES
    ensures TakesOnly(frames, F.AfterRequest(frames))
    ensures !F.Exhausted(frames) ==> NewlyTaken(frames, F.AfterRequest(frames)) == {F.Requested(frames)}
  {
    F.RequestExact(frames);
  }

  lemma RequestsTakeOnly(frames: F.Frames, pages: nat)
    requires F.Valid(frames) && 8 * frames.size <= FRAMES
    ensures TakesOnly(frames, F.AfterRequests(frames, pages))
  {
    var start := F.Search(frames.bits, frames.size, frames.hint, pages);
    F.RequestsExact(frames, pages, start, F.AfterRequests(frames, pages));
  }

  lemma StepRelease(k: Kernel, root: nat, frame: nat)
    requires Sound(k, root) && frame in k.others
    ensures Placed(k.vm.(frames := F.Release(k.vm.frames, frame, F.Used)), k.heap, root, k.others - {frame})
  {
    var vm, lo, hi, rest := k.vm, Lo(k.heap), Hi(k.heap), k.others - {frame};
    var after := vm.(frames := F.Release(vm.frames, frame, F.Used));
    assert DataFrame(vm, root, frame);
    assert forall f :: f != frame && Locked(vm, f) ==> Locked(after, f);
    forall p, f | TableAt(after.words, root, p, f)
      ensures Locked(after, f)
    {
      assert IsTable(vm.words, root, f);
    }
    forall p | lo <= p < hi
      ensures BackedPage(after, root, p, rest)
    {
      assert BackedPage(vm, root, p, k.others);
    }
    forall f | f in rest
      ensures DataFrame(after, root, f)
    {
      assert DataFrame(vm, root, f);
    }
    PlacedUnder(vm, k.heap, after, root, k.others, rest);
  }

  // ----- Mapping, sharing and storing -----

  // A heap page lies below the limit of all pages.
  lemma HeapPageInRange(k: Kernel, root: nat, page: nat)
    requires Placed(k.vm, k.heap, root, k.others) && InHeap(k.heap, page)
    ensures page < PAGES
  {
    HeapBounded(k.vm, root, Lo(k.heap), Hi(k.heap), k.others);
  }

  lemma StepMapElsewhere(k: Kernel, root: nat, page: nat, address: nat)
    requires Sound(k, root) && page < PAGES && !InHeap(k.heap, page)
    ensures var r := Map(k.vm, root, Route(page), address);
            r.Done? ==> Placed(r.vm, k.heap, root, k.others) && UserExact(r.vm.words, root, k.open)
  {
    var vm, lo, hi := k.vm, Lo(k.heap), Hi(k.heap);
    var r := Map(vm, root, Route(page), address);
    RouteExact(page);
    MapExact(vm, root, Route(page), address);
    MapKeepsUsers(vm, root, Route(page), address, k.open);
    if r.Done? {
      forall p | lo <= p < hi
        ensures FrameOf(r.vm.words, root, p) == FrameOf(vm.words, root, p)
        ensures Translates(r.vm.words, root, p, FrameOf(r.vm.words, root, p))
      {
        HeapPageInRange(k, root, p);
        RouteExact(p);
        RoutesDiffer(p, page);
        assert BackedPage(vm, root, p, k.others);
      }
      BackedKept(vm, r.vm, root, lo, hi, k.others);
      PlacedUnder(vm, k.heap, r.vm, root, k.others, k.others);
    }
  }

  lemma StepShare(k: Kernel, root: nat, page: nat)
    requires Sound(k, root) && Walk(k.vm.words, root, Route(page)).Some?
    ensures var words := Share(k.vm.words, root, Route(page));
            Placed(k.vm.(words := words), k.heap, root, k.others) && UserExact(words, root, k.open + {Route(page)})
  {
    var vm, lo, hi := k.vm, Lo(k.heap), Hi(k.heap);
    var words := Share(vm.words, root, Route(page));
    var after := vm.(words := words);
    RouteExact(page);
    ShareOnlyOpens(vm.words, root, Route(page));
    ShareExact(vm.words, root, Route(page), k.open);
    OpensKeepsInv(vm, words, root);
    forall p | lo <= p < hi
      ensures FrameOf(words, root, p) == FrameOf(vm.words, root, p)
      ensures Translates(words, root, p, FrameOf(words, root, p))
    {
      assert BackedPage(vm, root, p, k.others);
      assert Opened(Walk(vm.words, root, Route(p)), Walk(words, root, Route(p)));
    }
    BackedKept(vm, after, root, lo, hi, k.others);
    PlacedUnder(vm, k.heap, after, root, k.others, k.others);
  }

  // A store outside the tables is invisible to every walk.
  lemma DataStoreInvisible(m: Words, root: nat, frame: nat, index: nat, value: nat, q: seq<nat>)
    requires !IsTable(m, root, frame) && Indices(q)
    ensures Walk(Write(m, frame, index, value), root, q) == Walk(m, root, q)
  {
    forall j | 0 <= j < |q| && Walk(m, root, q[..j]).Some?
      ensures var g := Walk(m, root, q[..j]).value.frame;
              Entry(Write(m, frame, index, value), g, q[j]) == Entry(m, g, q[j])
    {
      assert TableAt(m, root, q[..j], Walk(m, root, q[..j]).value.frame);
    }
    WalkDependsOn(m, Write(m, frame, index, value), root, q);
  }

  lemma DataStoreKeepsInv(vm: Vm, root: nat, frame: nat, index: nat, value: nat)
    requires Inv(vm, root) && !IsTable(vm.words, root, frame)
    ensures var after := vm.(words := Write(vm.words, frame, index, value));
            Inv(after, root) && Extends(vm, after, root) && SameTranslations(vm, after, root)
  {
    var after := vm.(words := Write(vm.words, frame, index, value));
    forall q | Indices(q)
      ensures Walk(after.words, root, q) == Walk(vm.words, root, q)
    {
      DataStoreInvisible(vm.words, root, frame, index, value, q);
    }
    assert forall p, f :: TableAt(after.words, root, p, f) <==> TableAt(vm.words, root, p, f);
    forall f | IsTable(after.words, root, f)
      ensures IsTable(vm.words, root, f)
    {
      var p :| TableAt(after.words, root, p, f);
      assert TableAt(vm.words, root, p, f);
    }
  }

  lemma DataStoreKeepsUsers(m: Words, root: nat, frame: nat, index: nat, value: nat, open: set<seq<nat>>)
    requires UserExact(m, root, open) && !IsTable(m, root, frame)
    ensures UserExact(Write(m, frame, index, value), root, open)
  {
    var after := Write(m, frame, index, value);
    forall q, t | IsRoute(q) && TableAt(after, root, q[..3], t) && User(Entry(after, t, q[3]))
      ensures q in open
    {
      DataStoreInvisible(m, root, frame, index, value, q[..3]);
      assert TableAt(m, root, q[..3], t);
    }
    forall q | q in open && IsRoute(q)
      ensures Walk(after, root, q) == Walk(m, root, q)
    {
      DataStoreInvisible(m, root, frame, index, value, q);
    }
  }

  lemma StepStore(k: Kernel, root: nat, frame: nat, index: nat, value: nat)
    requires Sound(k, root) && !IsTable(k.vm.words, root, frame)
    ensures var words := Write(k.vm.words, frame, index, value);
            Placed(k.vm.(words := words), k.heap, root, k.others) && UserExact(words, root, k.open)
  {
    var vm, lo, hi := k.vm, Lo(k.heap), Hi(k.heap);
    var after := vm.(words := Write(vm.words, frame, index, value));
    DataStoreKeepsInv(vm, root, frame, index, value);
    DataStoreKeepsUsers(vm.words, root, frame, index, value, k.open);
    forall p | lo <= p < hi
      ensures FrameOf(after.words, root, p) == FrameOf(vm.words, root, p)
      ensures Translates(after.words, root, p, FrameOf(after.words, root, p))
    {
      RouteExact(p);
      assert BackedPage(vm, root, p, k.others);
    }
    BackedKept(vm, after, root, lo, hi, k.others);
    PlacedUnder(vm, k.heap, after, root, k.others, k.others);
  }

  // ----- The heap -----

  lemma StepInitialize(k: Kernel, root: nat, lo: nat, pageCount: nat)
    requires Sound(k, root) && k.heap.None? && pageCount > 0 && Roomy(k.vm, lo)
    ensures var r := Initialize(k.vm, root, lo, pageCount);
            r.Returned? ==>
              Placed(r.m.vm, Some(r.m.heap), root, k.others) && UserExact(r.m.vm.words, root, k.open)
              && Live(r.m.heap.segs) == {}
  {
    assert Backed(k.vm, root, lo, lo, k.others);
    InitializeExact(k.vm, root, lo, pageCount, k.others);
    LiveOne(Initial(lo * 0x1000, pageCount).segs[0]);
  }

  lemma StepMalloc(m: Machine, root: nat, others: set<nat>, open: set<seq<nat>>, size: nat)
    requires Sane(m, root, others) && UserExact(m.vm.words, root, open)
    ensures var r := MallocEnding(m, root, size);
            r.Returned? ==>
              Sane(r.m, root, others) && UserExact(r.m.vm.words, root, open)
              && Live(m.heap.segs) <= Live(r.m.heap.segs)
  {
    var n := Rounded(size);
    if n != 0 {
      RoundedSizeGrains(size);
      AllocateKeeps(m, root, others, n);
      AllocateLive(m, root, n);
    }
  }

  lemma RoundedSizeGrains(size: nat)
    requires Rounded(size) != 0
    ensures Rounded(size) >= GRAIN
  {
    if size % GRAIN > 0 {
      RemainderOfRounded(size - size % GRAIN + GRAIN);
    }
  }

  lemma {:induction false} AllocateLive(m: Machine, root: nat, n: nat)
    requires F.Valid(m.vm.frames) && HeapList.Valid(m.heap) && n >= GRAIN
    ensures Allocate(m, root, n).Returned? ==> Live(m.heap.segs) <= Live(Allocate(m, root, n).m.heap.segs)
    decreases Expansions(m.heap, n)
  {
    AllocateUnfold(m, root, n);
    var k := FindFit(m.heap.segs, n, 0);
    if k < |m.heap.segs| {
      TakeLive(m.heap, k, n);
    } else if Request(n) {
      ExpandHelps(m.heap, n);
      PagesExact(n);
      ExpandLive(m.heap, Pages(n));
      var grown := Grow(m, root, n);
      if grown.Returned? {
        AllocateLive(grown.m, root, n);
      }
    }
  }

  // ----- Runs -----

  /** Every call of the memory stack keeps its invariant. */
  lemma StepKeeps(k: Kernel, root: nat, call: Call, k': Kernel)
    requires Sound(k, root) && Step(k, root, call, k')
    ensures Sound(k', root)
  {
    match call
    case InitializeHeap(lo, pageCount) =>
      StepInitialize(k, root, lo, pageCount);
    case Malloc(size) =>
      StepMalloc(Machine(k.vm, k.heap.value), root, k.others, k.open, size);
    case FreeHeld(block) =>
      FreeBlockExact(k.heap.value, block);
    case RequestPage =>
      RequestTakesOnly(k.vm.frames);
      HandedOutKeeps(k, root, F.AfterRequest(k.vm.frames));
    case RequestPages(pages) =>
      RequestsTakeOnly(k.vm.frames, pages);
      HandedOutKeeps(k, root, F.AfterRequests(k.vm.frames, pages));
    case LockPage(frame) =>
      HandedOutKeeps(k, root, F.Take(k.vm.frames, frame, F.Used));
    case FreePage(frame) =>
      StepRelease(k, root, frame);
    case MapElsewhere(page, address) =>
      StepMapElsewhere(k, root, page, address);
    case ShareMapped(page) =>
      StepShare(k, root, page);
    case StoreData(frame, index, value) =>
      StepStore(k, root, frame, index, value);
  }

  ghost predicate Run(k: Kernel, root: nat, calls: seq<Call>, k': Kernel)
    decreases |calls|
  {
    if calls == [] then k' == k
    else Placed(k.vm, k.heap, root, k.others)
         && exists mid :: Step(k, root, calls[0], mid) && Run(mid, root, calls[1..], k')
  }

  /** Safety over whole runs: the invariant holds in every state the memory stack reaches. */
  lemma {:induction false} RunKeeps(k: Kernel, root: nat, calls: seq<Call>, k': Kernel)
    requires Sound(k, root) && Run(k, root, calls, k')
    ensures Sound(k', root)
    decreases |calls|
  {
    if calls != [] {
      var mid :| Step(k, root, calls[0], mid) && Run(mid, root, calls[1..], k');
      StepKeeps(k, root, calls[0], mid);
      RunKeeps(mid, root, calls[1..], k');
    }
  }

  // ----- From a zeroed PML4 -----

  lemma {:induction false} EmptyRoot(m: Words, root: nat, path: seq<nat>)
    requires forall i :: 0 <= i < 512 ==> Entry(m, root, i) == 0
    requires Indices(path) && path != []
    ensures Walk(m, root, path) == None
    decreases |path|
  {
    if |path| > 1 {
      EmptyRoot(m, root, path[..|path| - 1]);
    } else {
      ZeroNotPresent();
      assert path[..0] == [];
    }
  }

  /** A zeroed, locked PML4 starts the invariants: no page mapped, none open to user mode. */
  lemma EmptyTables(vm: Vm, root: nat)
    requires F.Valid(vm.frames) && 8 * vm.frames.size <= FRAMES && Locked(vm, root)
    requires forall i :: 0 <= i < 512 ==> Entry(vm.words, root, i) == 0
    ensures Inv(vm, root) && UserExact(vm.words, root, {})
    ensures forall f :: IsTable(vm.words, root, f) ==> f == root
    ensures forall q :: IsRoute(q) ==> Walk(vm.words, root, q) == None
  {
    forall q | Indices(q)
      ensures q != [] ==> Walk(vm.words, root, q) == None
    {
      if q != [] {
        EmptyRoot(vm.words, root, q);
      }
    }
    forall p, f | TableAt(vm.words, root, p, f)
      ensures p == [] && f == root
    {
    }
  }

  // Before paging: a valid bitmap, and the frames handed out so far.
  ghost predicate BeforePaging(vm: Vm, others: set<nat>) {
    F.Valid(vm.frames) && 8 * vm.frames.size <= FRAMES && forall f :: f in others ==> Locked(vm, f)
  }

  // The first lines of EnablePaging: a frame requested and zeroed.
  function Booted(vm: Vm, others: set<nat>): Kernel
    requires F.Valid(vm.frames)
  {
    Kernel(Vm(Zeroed(vm.words, F.Requested(vm.frames)), F.AfterRequest(vm.frames)), None, others, {}, {})
  }

  /** The PML4 that EnablePaging requests and zeroes starts the invariant. */
  lemma BootedIsSound(vm: Vm, others: set<nat>)
    requires BeforePaging(vm, others) && !F.Exhausted(vm.frames)
    ensures Sound(Booted(vm, others), F.Requested(vm.frames))
  {
    var k, root := Booted(vm, others), F.Requested(vm.frames);
    RequestLocks(vm.frames);
    EmptyTables(k.vm, root);
    forall f | f in others
      ensures DataFrame(k.vm, root, f)
    {
      assert Locked(vm, f);
    }
  }

  /**
   * In every state reached from the zeroed PML4, before InitializeHeap and after it: the tables
   * form a tree of locked frames; heap pages are mapped writable to pairwise distinct frames, none
   * of them a page table or a frame somebody else was given; the next page handed out is none of
   * these; and user mode reaches exactly the pages that were opened to it.
   */
  lemma ReachableIsSeparated(vm: Vm, others: set<nat>, root: nat, calls: seq<Call>, k: Kernel, p: nat, q: nat, route: seq<nat>)
    requires BeforePaging(vm, others) && !F.Exhausted(vm.frames) && root == F.Requested(vm.frames)
    requires Run(Booted(vm, others), root, calls, k) && IsRoute(route)
    ensures Inv(k.vm, root) && (UserReaches(k.vm.words, root, route) <==> route in k.open)
    ensures forall f :: f in k.others ==> Locked(k.vm, f) && !IsTable(k.vm.words, root, f)
    ensures InHeap(k.heap, p) ==> OwnFrame(k, root, p)
    ensures InHeap(k.heap, p) && InHeap(k.heap, q) && p != q ==>
              FrameOf(k.vm.words, root, p) != FrameOf(k.vm.words, root, q)
    ensures !F.Exhausted(k.vm.frames) ==> NobodysFrame(k, root, F.Requested(k.vm.frames))
  {
    BootedIsSound(vm, others);
    RunKeeps(Booted(vm, others), root, calls, k);
    UserReachesExactly(k.vm.words, root, k.open, route);
    forall f | f in k.others
      ensures DataFrame(k.vm, root, f)
    {
    }
    assert InHeap(k.heap, p) ==> BackedPage(k.vm, root, p, k.others);
    if !F.Exhausted(k.vm.frames) {
      RequestLocks(k.vm.frames);
      NobodyHasUnlocked(k, root, F.Requested(k.vm.frames));
    }
  }

  // A heap page on a frame that is no table and nobody else's.
  ghost predicate OwnFrame(k: Kernel, root: nat, page: nat) {
    var f := FrameOf(k.vm.words, root, page);
    Translates(k.vm.words, root, page, f) && Locked(k.vm, f) && !IsTable(k.vm.words, root, f) && f !in k.others
  }

  ghost predicate NobodysFrame(k: Kernel, root: nat, frame: nat) {
    && !IsTable(k.vm.words, root, frame) && frame !in k.others
    && forall p :: InHeap(k.heap, p) ==> FrameOf(k.vm.words, root, p) != frame
  }

  lemma NobodyHasUnlocked(k: Kernel, root: nat, frame: nat)
    requires Sound(k, root) && !Locked(k.vm, frame)
    ensures NobodysFrame(k, root, frame)
  {
    forall p | InHeap(k.heap, p)
      ensures FrameOf(k.vm.words, root, p) != frame
    {
      assert BackedPage(k.vm, root, p, k.others);
    }
    assert frame in k.others ==> DataFrame(k.vm, root, frame);
  }

  // Out of memory, as RequestPage finds it.
  ghost predicate Out(vm: Vm) {
    F.Valid(vm.frames) && F.Exhausted(vm.frames)
  }

  /**
   * And in each of these states the kernel panics only when no page is left: mapping a page, setting up the heap and
   * malloc. With three pages available, mapping ends well; with eight for each page of the request, malloc does.
   */
  lemma ReachablePanicsOnlyWhenOut(vm: Vm, others: set<nat>, root: nat, calls: seq<Call>, k: Kernel,
                                   page: nat, address: nat, lo: nat, pageCount: nat, size: nat)
    requires BeforePaging(vm, others) && !F.Exhausted(vm.frames) && root == F.Requested(vm.frames)
    requires Run(Booted(vm, others), root, calls, k) && pageCount > 0 && size <= WORD_LIMIT - PAGE - GRAIN
    ensures F.Valid(k.vm.frames)
    ensures var r := Map(k.vm, root, Route(page), address);
            (r.Panic? ==> Out(r.vm)) && (F.Available(k.vm.frames) >= 3 ==> r.Done?)
    ensures var r := Initialize(k.vm, root, lo, pageCount);
            (r.Panicked? ==> Out(r.vm)) && (F.Available(k.vm.frames) >= 4 * pageCount ==> r.Returned?)
    ensures k.heap.Some? ==>
              HeapList.Valid(k.heap.value)
              && var r := MallocEnding(Machine(k.vm, k.heap.value), root, size);
                 (r.Panicked? ==> Out(r.vm))
                 && (F.Available(k.vm.frames) >= 8 * (Pages(Rounded(size)) / 0x1000) ==> r.Returned?)
  {
    BootedIsSound(vm, others);
    RunKeeps(Booted(vm, others), root, calls, k);
    RouteExact(page);
    MapCosts(k.vm, root, Route(page), address);
    InitializeCosts(k.vm, root, lo, pageCount);
    if k.heap.Some? {
      MallocCosts(Machine(k.vm, k.heap.value), root, size);
    }
  }
}
