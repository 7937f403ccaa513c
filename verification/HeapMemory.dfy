// The heap over the page tables: every heap page has its own frame, and no
// frame of the heap is a page table or anybody else's page
// (kernel/src/memory/heap.cpp over ptm.cpp and pfa.cpp).

module HeapMemory {
  import opened Paging
  import opened PageIndex
  import opened PageTables
  import opened VmSpec
  import opened VmShare
  import opened HeapList
  import opened HeapRuns
  import F = FrameSpec

  // A frame the allocator has given out that is not a page table.
  ghost predicate DataFrame(vm: Vm, root: nat, frame: nat) {
    Locked(vm, frame) && !IsTable(vm.words, root, frame)
  }

  predicate Translates(m: Words, root: nat, page: nat, frame: nat) {
    var a := Walk(m, root, Route(page));
    a.Some? && a.value.frame == frame && a.value.writable
  }

  function FrameOf(m: Words, root: nat, page: nat): nat {
    var a := Walk(m, root, Route(page));
    if a.Some? then a.value.frame else 0
  }

  ghost predicate BackedPage(vm: Vm, root: nat, page: nat, others: set<nat>) {
    var frame := FrameOf(vm.words, root, page);
    Translates(vm.words, root, page, frame) && DataFrame(vm, root, frame) && frame !in others
  }

  // Pages lo .. hi - 1 are mapped writable to distinct frames that are neither
  // tables nor among the frames `others` handed out elsewhere.
  ghost predicate Backed(vm: Vm, root: nat, lo: nat, hi: nat, others: set<nat>) {
    && (forall f :: f in others ==> DataFrame(vm, root, f))
    && (forall p :: lo <= p < hi ==> BackedPage(vm, root, p, others))
    && (forall p, q :: lo <= p < q < hi ==> FrameOf(vm.words, root, p) != FrameOf(vm.words, root, q))
  }

  // ----- Mapping fresh pages -----

  // One turn of the loops of InitializeHeap and ExpandHeap: a fresh frame mapped at a page.
  function MapFresh(vm: Vm, root: nat, page: nat): (r: Outcome)
    requires F.Valid(vm.frames)
    ensures F.Valid(r.vm.frames) && r.vm.frames.size == vm.frames.size
  {
    var requested := vm.(frames := F.AfterRequest(vm.frames));
    RequestValid(vm.frames);
    if F.Exhausted(vm.frames) then Panic(requested)
    else Map(requested, root, Route(page), F.Requested(vm.frames))
  }

  lemma RequestValid(frames: F.Frames)
    requires F.Valid(frames)
    ensures F.Valid(F.AfterRequest(frames)) && F.AfterRequest(frames).size == frames.size
  {
    F.RequestExact(frames);
  }

  // The loops: one page after another.
  function MapAll(vm: Vm, root: nat, pages: seq<nat>): (r: Outcome)
    requires F.Valid(vm.frames)
    ensures F.Valid(r.vm.frames) && r.vm.frames.size == vm.frames.size
    decreases |pages|
  {
    if pages == [] then Done(vm, 0)
    else
      var r := MapFresh(vm, root, pages[0]);
      if r.Panic? then r else MapAll(r.vm, root, pages[1..])
  }

  function PageRange(page: nat, count: nat): (pages: seq<nat>)
    ensures |pages| == count && Consecutive(pages, page)
  {
    seq(count, i => page + i)
  }

  // The pages in order, the first of them given.
  predicate Consecutive(pages: seq<nat>, page: nat) {
    forall i :: 0 <= i < |pages| ==> pages[i] == page + i
  }

  lemma RestConsecutive(pages: seq<nat>, page: nat, next: nat)
    requires Consecutive(pages, page) && pages != [] && next == page + 1
    ensures pages[0] == page && Consecutive(pages[1..], next)
  {
    forall i | 0 <= i < |pages[1..]|
      ensures pages[1..][i] == next + i
    {
      assert pages[1..][i] == pages[i + 1];
    }
  }

  function MapPages(vm: Vm, root: nat, page: nat, count: nat): (r: Outcome)
    requires F.Valid(vm.frames)
    ensures F.Valid(r.vm.frames) && r.vm.frames.size == vm.frames.size
  {
    MapAll(vm, root, PageRange(page, count))
  }

  lemma RoutesDiffer(p: nat, q: nat)
    requires p < PAGES && q < PAGES && p != q
    ensures Route(p) != Route(q)
  {
    RouteExact(p);
    RouteExact(q);
  }

  lemma DataFrameKept(vm: Vm, after: Vm, root: nat, frame: nat)
    requires Extends(vm, after, root) && DataFrame(vm, root, frame)
    ensures DataFrame(after, root, frame)
  {
  }

  // What a step that moves no page of [lo, hi) keeps.
  lemma BackedKept(vm: Vm, after: Vm, root: nat, lo: nat, hi: nat, others: set<nat>)
    requires Backed(vm, root, lo, hi, others) && Extends(vm, after, root)
    requires forall p :: lo <= p < hi ==> FrameOf(after.words, root, p) == FrameOf(vm.words, root, p)
    requires forall p :: lo <= p < hi ==> Translates(after.words, root, p, FrameOf(after.words, root, p))
    ensures Backed(after, root, lo, hi, others)
  {
    forall f | f in others
      ensures DataFrame(after, root, f)
    {
      DataFrameKept(vm, after, root, f);
    }
    forall p | lo <= p < hi
      ensures BackedPage(after, root, p, others)
    {
      assert BackedPage(vm, root, p, others);
      DataFrameKept(vm, after, root, FrameOf(vm.words, root, p));
    }
  }

  // The frames of pages lo .. hi - 1.
  function HeapFrames(m: Words, root: nat, lo: nat, hi: nat): set<nat>
    decreases hi - lo
  {
    if lo >= hi then {} else HeapFrames(m, root, lo, hi - 1) + {FrameOf(m, root, hi - 1)}
  }

  lemma RequestExtends(vm: Vm, root: nat)
    requires Inv(vm, root)
    ensures var after := vm.(frames := F.AfterRequest(vm.frames));
            Inv(after, root) && Extends(vm, after, root)
            && (!F.Exhausted(vm.frames) ==>
                  DataFrame(after, root, F.Requested(vm.frames)) && !Locked(vm, F.Requested(vm.frames))
                  && F.Requested(vm.frames) < FRAMES)
  {
    RequestLocks(vm.frames);
    assert forall f :: IsTable(vm.words, root, f) ==> Locked(vm, f);
  }

  /** RequestPage hands out a frame nobody has: not a table, not a heap page, not an earlier result. */
  lemma RequestIsFresh(vm: Vm, root: nat, lo: nat, hi: nat, others: set<nat>)
    requires Inv(vm, root) && Backed(vm, root, lo, hi, others) && !F.Exhausted(vm.frames)
    ensures var z := F.Requested(vm.frames);
            z !in others && Backed(vm.(frames := F.AfterRequest(vm.frames)), root, lo, hi, others + {z})
  {
    RequestExtends(vm, root);
    var after := vm.(frames := F.AfterRequest(vm.frames));
    var z := F.Requested(vm.frames);
    UnmovedKept(vm, after, root, lo, hi, others);
    forall p | lo <= p < hi
      ensures BackedPage(after, root, p, others + {z})
    {
      assert BackedPage(vm, root, p, others) && BackedPage(after, root, p, others);
    }
  }

  lemma UnmovedKept(vm: Vm, after: Vm, root: nat, lo: nat, hi: nat, others: set<nat>)
    requires Backed(vm, root, lo, hi, others) && Extends(vm, after, root) && after.words == vm.words
    ensures Backed(after, root, lo, hi, others)
  {
    forall p | lo <= p < hi
      ensures Translates(after.words, root, p, FrameOf(after.words, root, p))
    {
      assert BackedPage(vm, root, p, others);
    }
    BackedKept(vm, after, root, lo, hi, others);
  }

  /** Mapping a fresh frame behind the heap extends the backing by one page. */
  lemma MapFreshExact(vm: Vm, root: nat, lo: nat, hi: nat, others: set<nat>)
    requires Inv(vm, root) && lo <= hi < PAGES && Backed(vm, root, lo, hi, others)
    ensures var r := MapFresh(vm, root, hi);
            Inv(r.vm, root) && Extends(vm, r.vm, root)
            && Backed(r.vm, root, lo, if r.Done? then hi + 1 else hi, others)
  {
    RequestExtends(vm, root);
    if F.Exhausted(vm.frames) {
      UnmovedKept(vm, vm.(frames := F.AfterRequest(vm.frames)), root, lo, hi, others);
    } else {
      MapBehind(vm, root, lo, hi, others);
    }
  }

  lemma MapBehind(vm: Vm, root: nat, lo: nat, hi: nat, others: set<nat>)
    requires Inv(vm, root) && lo <= hi < PAGES && Backed(vm, root, lo, hi, others) && !F.Exhausted(vm.frames)
    ensures var r := Map(vm.(frames := F.AfterRequest(vm.frames)), root, Route(hi), F.Requested(vm.frames));
            Inv(r.vm, root) && Extends(vm, r.vm, root)
            && Backed(r.vm, root, lo, if r.Done? then hi + 1 else hi, others)
  {
    var z := F.Requested(vm.frames);
    var v := vm.(frames := F.AfterRequest(vm.frames));
    var r := Map(v, root, Route(hi), z);
    RequestExtends(vm, root);
    RequestIsFresh(vm, root, lo, hi, others);
    RouteExact(hi);
    MapExact(v, root, Route(hi), z);
    ExtendsTransitive(vm, v, r.vm, root);
    forall p | lo <= p < hi
      ensures FrameOf(r.vm.words, root, p) == FrameOf(v.words, root, p)
      ensures Translates(r.vm.words, root, p, FrameOf(r.vm.words, root, p))
    {
      RouteExact(p);
      RoutesDiffer(p, hi);
      assert BackedPage(v, root, p, others + {z});
    }
    BackedKept(v, r.vm, root, lo, hi, others + {z});
    if r.Done? {
      SmallRemainder(z, FRAMES);
      assert FrameOf(r.vm.words, root, hi) == z;
      BackedByOneMore(r.vm, root, lo, hi, others, z);
    } else {
      FewerOthers(r.vm, root, lo, hi, others, z);
    }
  }

  lemma FewerOthers(vm: Vm, root: nat, lo: nat, hi: nat, others: set<nat>, z: nat)
    requires Backed(vm, root, lo, hi, others + {z})
    ensures Backed(vm, root, lo, hi, others)
  {
    forall p | lo <= p < hi
      ensures BackedPage(vm, root, p, others)
    {
      assert BackedPage(vm, root, p, others + {z});
    }
    assert forall f :: f in others ==> f in others + {z};
  }

  // The frame set aside becomes the next page of the heap.
  lemma BackedByOneMore(vm: Vm, root: nat, lo: nat, hi: nat, others: set<nat>, z: nat)
    requires lo <= hi && Backed(vm, root, lo, hi, others + {z}) && z !in others
    requires Translates(vm.words, root, hi, z)
    ensures Backed(vm, root, lo, hi + 1, others)
  {
    FewerOthers(vm, root, lo, hi, others, z);
    assert z in others + {z} && DataFrame(vm, root, z);
    forall p | lo <= p < hi
      ensures FrameOf(vm.words, root, p) != z
    {
      assert BackedPage(vm, root, p, others + {z});
    }
    assert FrameOf(vm.words, root, hi) == z;
  }

  // ----- The heap cannot outgrow memory -----

  function Below(n: nat): (s: set<nat>)
    ensures |s| == n && forall x: nat :: x in s <==> x < n
  {
    if n == 0 then {} else Below(n - 1) + {n - 1}
  }

  predicate Bounded(s: set<nat>, n: nat) {
    forall x :: x in s ==> x < n
  }

  lemma BoundedCount(s: set<nat>, n: nat)
    requires Bounded(s, n)
    ensures |s| <= n
  {
    SubsetCount(s, Below(n));
  }

  lemma SubsetCount(a: set<nat>, b: set<nat>)
    requires a <= b
    ensures |a| <= |b|
  {
    assert b == a + (b - a);
  }

  // A later page's frame is not among those of the earlier pages.
  lemma {:induction false} LaterFrame(vm: Vm, root: nat, lo: nat, hi: nat, page: nat, end: nat, others: set<nat>)
    requires lo <= hi <= page < end && Backed(vm, root, lo, end, others)
    ensures FrameOf(vm.words, root, page) !in HeapFrames(vm.words, root, lo, hi)
    decreases hi
  {
    if lo < hi {
      LaterFrame(vm, root, lo, hi - 1, page, end, others);
      assert FrameOf(vm.words, root, hi - 1) != FrameOf(vm.words, root, page);
    }
  }

  lemma {:induction false} FramesCounted(vm: Vm, root: nat, lo: nat, hi: nat, end: nat, others: set<nat>)
    requires lo <= hi <= end && Backed(vm, root, lo, end, others)
    ensures |HeapFrames(vm.words, root, lo, hi)| == hi - lo
    ensures Bounded(HeapFrames(vm.words, root, lo, hi), |vm.frames.bits|)
    decreases hi
  {
    if lo < hi {
      FramesCounted(vm, root, lo, hi - 1, end, others);
      OneMoreFrame(vm, root, lo, hi, end, others);
    }
  }

  lemma OneMoreFrame(vm: Vm, root: nat, lo: nat, hi: nat, end: nat, others: set<nat>)
    requires lo < hi <= end && Backed(vm, root, lo, end, others)
    requires Bounded(HeapFrames(vm.words, root, lo, hi - 1), |vm.frames.bits|)
    ensures |HeapFrames(vm.words, root, lo, hi)| == |HeapFrames(vm.words, root, lo, hi - 1)| + 1
    ensures Bounded(HeapFrames(vm.words, root, lo, hi), |vm.frames.bits|)
  {
    LaterFrame(vm, root, lo, hi - 1, hi - 1, end, others);
    FrameInRange(vm, root, hi - 1, others);
    HeapFramesStep(vm.words, root, lo, hi);
    OneMore(HeapFrames(vm.words, root, lo, hi - 1), FrameOf(vm.words, root, hi - 1), |vm.frames.bits|);
  }

  lemma HeapFramesStep(m: Words, root: nat, lo: nat, hi: nat)
    requires lo < hi
    ensures HeapFrames(m, root, lo, hi) == HeapFrames(m, root, lo, hi - 1) + {FrameOf(m, root, hi - 1)}
  {
  }

  lemma OneMore(s: set<nat>, x: nat, n: nat)
    requires x !in s && Bounded(s, n) && x < n
    ensures |s + {x}| == |s| + 1 && Bounded(s + {x}, n)
  {
  }

  lemma FrameInRange(vm: Vm, root: nat, page: nat, others: set<nat>)
    requires BackedPage(vm, root, page, others)
    ensures FrameOf(vm.words, root, page) < |vm.frames.bits|
  {
  }

  /** Distinct frames bound the heap: it has at most as many pages as the bitmap has bits. */
  lemma HeapBounded(vm: Vm, root: nat, lo: nat, hi: nat, others: set<nat>)
    requires Inv(vm, root) && lo <= hi && Backed(vm, root, lo, hi, others)
    ensures hi - lo <= 8 * vm.frames.size + 1
  {
    FramesCounted(vm, root, lo, hi, hi, others);
    BoundedCount(HeapFrames(vm.words, root, lo, hi), |vm.frames.bits|);
  }

  // The virtual addresses from the heap's start suffice for all of memory.
  predicate Roomy(vm: Vm, lo: nat) {
    lo + 8 * vm.frames.size + 2 <= PAGES
  }

  // The heap is backed up to page hi, or the kernel has panicked; nothing else has moved.
  ghost predicate BackedOr(vm: Vm, r: Outcome, root: nat, lo: nat, hi: nat, others: set<nat>) {
    && Inv(r.vm, root) && Extends(vm, r.vm, root) && KeepsUsers(vm.words, r.vm.words, root)
    && (r.Done? ==> Backed(r.vm, root, lo, hi, others))
  }

  // r is how mapping these pages ends.
  predicate Ends(vm: Vm, root: nat, pages: seq<nat>, r: Outcome)
    requires F.Valid(vm.frames)
  {
    r == MapAll(vm, root, pages)
  }

  lemma MapAllUnfold(vm: Vm, root: nat, pages: seq<nat>, first: Outcome, r: Outcome)
    requires F.Valid(vm.frames) && pages != []
    requires first == MapFresh(vm, root, pages[0]) && Ends(vm, root, pages, r)
    ensures if first.Panic? then r == first else Ends(first.vm, root, pages[1..], r)
  {
  }

  lemma EndsAtOnce(vm: Vm, root: nat, pages: seq<nat>, r: Outcome)
    requires F.Valid(vm.frames) && pages == [] && Ends(vm, root, pages, r)
    ensures r == Done(vm, 0)
  {
  }

  lemma BackedOrTransitive(vm: Vm, mid: Vm, r: Outcome, root: nat, lo: nat, hi: nat, others: set<nat>)
    requires Extends(vm, mid, root) && KeepsUsers(vm.words, mid.words, root) && BackedOr(mid, r, root, lo, hi, others)
    ensures BackedOr(vm, r, root, lo, hi, others)
  {
    KeepsUsersTransitive(vm.words, mid.words, r.vm.words, root);
    ExtendsTransitive(vm, mid, r.vm, root);
  }

  lemma FreshIsBackedOr(vm: Vm, root: nat, lo: nat, hi: nat, others: set<nat>)
    requires Inv(vm, root) && lo <= hi < PAGES && Backed(vm, root, lo, hi, others)
    ensures BackedOr(vm, MapFresh(vm, root, hi), root, lo, hi + 1, others)
  {
    MapFreshExact(vm, root, lo, hi, others);
    if !F.Exhausted(vm.frames) {
      RequestExtends(vm, root);
      RouteExact(hi);
      MapKeepsAllUsers(vm.(frames := F.AfterRequest(vm.frames)), root, Route(hi), F.Requested(vm.frames));
    }
  }

  // The first page was mapped; the rest of the loop did what it does.
  lemma OneMoreTurn(vm: Vm, first: Outcome, r: Outcome, root: nat, lo: nat, hi: nat, end: nat, others: set<nat>)
    requires BackedOr(vm, first, root, lo, hi, others)
    requires if first.Panic? then r == first else BackedOr(first.vm, r, root, lo, end, others)
    ensures BackedOr(vm, r, root, lo, end, others)
  {
    if first.Done? {
      BackedOrTransitive(vm, first.vm, r, root, lo, end, others);
    }
  }

  // A heap backed up to page hi, with room for all of memory.
  ghost predicate Ready(vm: Vm, root: nat, lo: nat, hi: nat, others: set<nat>) {
    Inv(vm, root) && lo <= hi && Backed(vm, root, lo, hi, others) && Roomy(vm, lo)
  }

  lemma NoTurns(vm: Vm, root: nat, lo: nat, hi: nat, others: set<nat>)
    requires Ready(vm, root, lo, hi, others)
    ensures BackedOr(vm, Done(vm, 0), root, lo, hi, others)
  {
    ExtendsReflexive(vm, root);
  }

  // The first page of the loop, and what the remaining turns do.
  lemma FirstTurn(vm: Vm, root: nat, lo: nat, hi: nat, next: nat, others: set<nat>, pages: seq<nat>, r: Outcome)
    returns (first: Outcome)
    requires Ready(vm, root, lo, hi, others) && pages != [] && pages[0] == hi && Ends(vm, root, pages, r) && next == hi + 1
    ensures BackedOr(vm, first, root, lo, next, others)
    ensures first.Panic? ==> r == first
    ensures first.Done? ==> Ready(first.vm, root, lo, next, others) && Ends(first.vm, root, pages[1..], r)
  {
    first := MapFresh(vm, root, hi);
    MapAllUnfold(vm, root, pages, first, r);
    HeapBounded(vm, root, lo, hi, others);
    FreshIsBackedOr(vm, root, lo, hi, others);
  }

  lemma {:induction false} MapAllBacked(vm: Vm, root: nat, lo: nat, hi: nat, end: nat, pages: seq<nat>, others: set<nat>, r: Outcome)
    requires Ready(vm, root, lo, hi, others) && end == hi + |pages| && Consecutive(pages, hi)
    requires Ends(vm, root, pages, r)
    ensures BackedOr(vm, r, root, lo, end, others)
    decreases |pages|
  {
    if pages == [] {
      EndsAtOnce(vm, root, pages, r);
      NoTurns(vm, root, lo, hi, others);
    } else {
      var next := hi + 1;
      RestConsecutive(pages, hi, next);
      var first := FirstTurn(vm, root, lo, hi, next, others, pages, r);
      if first.Done? {
        MapAllBacked(first.vm, root, lo, next, end, pages[1..], others, r);
      }
      OneMoreTurn(vm, first, r, root, lo, next, end, others);
    }
  }

  /** Mapping any number of pages: either the heap is backed that much further, or memory ran out. */
  lemma MapPagesExact(vm: Vm, root: nat, lo: nat, hi: nat, end: nat, count: nat, others: set<nat>, r: Outcome)
    requires Ready(vm, root, lo, hi, others) && end == hi + count && r == MapPages(vm, root, hi, count)
    ensures BackedOr(vm, r, root, lo, end, others)
  {
    MapAllBacked(vm, root, lo, hi, end, PageRange(hi, count), others, r);
  }
}
