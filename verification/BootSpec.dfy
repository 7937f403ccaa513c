// Building the page bitmap from the EFI memory map, on values
// (kernel/src/memory/pfa.cpp, ReadEFIMemoryMap; kernel/src/memory/memory.cpp, GetMemorySize).

module BootSpec {
  import opened Units
  import opened FrameSpec

  // EfiConventionalMemory
  const CONVENTIONAL: nat := 7

  datatype Descriptor = Descriptor(kind: nat, physAddr: nat, numPages: nat)

  function Bytes(d: Descriptor): nat {
    d.numPages * PAGE % WORD_LIMIT
  }

  function MemorySize(ds: seq<Descriptor>): nat {
    if ds == [] then 0 else Plus(MemorySize(ds[..|ds| - 1]), Bytes(ds[|ds| - 1]))
  }

  // The first conventional segment of maximal size: its address and size.
  function Largest(ds: seq<Descriptor>): (nat, nat) {
    if ds == [] then (0, 0)
    else
      var best := Largest(ds[..|ds| - 1]);
      var d := ds[|ds| - 1];
      if d.kind == CONVENTIONAL && Bytes(d) > best.1 then (d.physAddr, Bytes(d)) else best
  }

  function UnreserveAll(s: Frames, ds: seq<Descriptor>): Frames {
    if ds == [] then s
    else
      var t := UnreserveAll(s, ds[..|ds| - 1]);
      var d := ds[|ds| - 1];
      if d.kind == CONVENTIONAL then ReleaseRun(t, d.physAddr, d.numPages, Reserved) else t
  }

  function BitmapSize(memorySize: nat): nat {
    memorySize / 4096 / 8 + 1
  }

  // The zeroed bitmap, followed by whatever the byte past its end holds.
  function EmptyBits(size: nat, spare: bool): (bits: seq<bool>)
    ensures |bits| == 8 * size + 1
  {
    seq(8 * size + 1, i => i == 8 * size && spare)
  }

  function Blank(prior: Frames, memorySize: nat, spare: bool): Frames {
    prior.(size := BitmapSize(memorySize), bits := EmptyBits(BitmapSize(memorySize), spare), free := memorySize)
  }

  // Everything reserved.
  function Prepared(prior: Frames, home: nat, memorySize: nat, spare: bool): Frames {
    var s1 := TakeRun(Blank(prior, memorySize, spare), home, BitmapSize(memorySize) / 4096, Reserved);
    TakeRun(s1, 0, memorySize / 4096 + 1, Reserved)
  }

  // The first `legacy` pages (0x100 in the kernel) stay reserved whatever the map says.
  function AfterBoot(prior: Frames, ds: seq<Descriptor>, memorySize: nat, spare: bool, legacy: nat): Frames {
    var home := Largest(ds).0;
    Claimed(UnreserveAll(Prepared(prior, home, memorySize, spare), ds), home, memorySize, legacy)
  }

  // The legacy area and the bitmap's own pages taken.
  function Claimed(s: Frames, home: nat, memorySize: nat, legacy: nat): Frames {
    TakeRun(TakeRun(s, 0, legacy, Reserved), home, BitmapSize(memorySize) / 4096 + 1, Used)
  }

  // The fields of a descriptor are 64 bits wide.
  predicate Words(ds: seq<Descriptor>) {
    forall d :: d in ds ==> d.physAddr < WORD_LIMIT && d.numPages < WORD_LIMIT
  }

  // Physical addresses have at most 52 bits.
  const ADDRESSES: nat := 0x10_0000_0000_0000

  ghost predicate Physical(ds: seq<Descriptor>) {
    forall d :: d in ds ==> d.physAddr + d.numPages * PAGE <= ADDRESSES
  }

  ghost predicate Small(ds: seq<Descriptor>) {
    Physical(ds) && forall d :: d in ds ==> d.numPages <= MAX_RUN
  }

  function PageSum(ds: seq<Descriptor>): nat {
    if ds == [] then 0 else PageSum(ds[..|ds| - 1]) + ds[|ds| - 1].numPages
  }

  ghost predicate Covered(ds: seq<Descriptor>, page: nat) {
    exists d :: d in ds && d.kind == CONVENTIONAL && InRun(d.physAddr, d.numPages, page)
  }

  ghost predicate HoldsBitmap(ds: seq<Descriptor>, memorySize: nat, page: nat) {
    InRun(Largest(ds).0, BitmapSize(memorySize) / 4096 + 1, page)
  }

  lemma InFrontOrLast(ds: seq<Descriptor>, front: seq<Descriptor>, d: Descriptor)
    requires ds == front + [d]
    ensures forall e :: e in ds <==> e in front || e == d
  {
  }

  lemma BytesAdd(a: nat, n: nat)
    requires (a + n) * PAGE < WORD_LIMIT
    ensures Plus(a * PAGE, n * PAGE % WORD_LIMIT) == (a + n) * PAGE
  {
  }

  lemma {:induction false} MemorySizeExact(ds: seq<Descriptor>)
    requires PageSum(ds) * PAGE < WORD_LIMIT
    ensures MemorySize(ds) == PageSum(ds) * PAGE
    ensures forall d :: d in ds ==> d.numPages <= PageSum(ds)
    decreases |ds|
  {
    if ds != [] {
      MemorySizeExact(ds[..|ds| - 1]);
      BytesAdd(PageSum(ds[..|ds| - 1]), ds[|ds| - 1].numPages);
      InFrontOrLast(ds, ds[..|ds| - 1], ds[|ds| - 1]);
    }
  }

  lemma {:induction false} LargestBounded(ds: seq<Descriptor>)
    requires Physical(ds)
    ensures Largest(ds).0 <= ADDRESSES
    decreases |ds|
  {
    if ds != [] {
      InFrontOrLast(ds, ds[..|ds| - 1], ds[|ds| - 1]);
      LargestBounded(ds[..|ds| - 1]);
    }
  }

  // ds[i] is the first conventional segment of maximal size.
  ghost predicate FirstLargest(ds: seq<Descriptor>, i: nat) {
    i < |ds| && ds[i].kind == CONVENTIONAL && Bytes(ds[i]) > 0
    && (forall j :: 0 <= j < |ds| && ds[j].kind == CONVENTIONAL ==> Bytes(ds[j]) <= Bytes(ds[i]))
    && forall j :: 0 <= j < i && ds[j].kind == CONVENTIONAL ==> Bytes(ds[j]) < Bytes(ds[i])
  }

  lemma {:induction false} LargestBounds(ds: seq<Descriptor>)
    ensures forall j :: 0 <= j < |ds| && ds[j].kind == CONVENTIONAL ==> Bytes(ds[j]) <= Largest(ds).1
    decreases |ds|
  {
    if ds != [] {
      LargestBounds(ds[..|ds| - 1]);
    }
  }

  /**
   * The bitmap is put in the first conventional segment of maximal size, and at address 0 exactly when there is
   * none with any page.
   */
  lemma {:induction false} LargestExact(ds: seq<Descriptor>)
    ensures if Largest(ds).1 == 0
            then Largest(ds).0 == 0 && forall j :: 0 <= j < |ds| && ds[j].kind == CONVENTIONAL ==> Bytes(ds[j]) == 0
            else exists i: nat :: FirstLargest(ds, i) && Largest(ds) == (ds[i].physAddr, Bytes(ds[i]))
    decreases |ds|
  {
    LargestBounds(ds);
    if ds != [] {
      var n := |ds| - 1;
      LargestBounds(ds[..n]);
      LargestExact(ds[..n]);
      if Largest(ds) != Largest(ds[..n]) {
        LaterLarger(ds, n);
      } else if Largest(ds).1 > 0 {
        var i: nat :| FirstLargest(ds[..n], i) && Largest(ds[..n]) == (ds[i].physAddr, Bytes(ds[i]));
        StaysFirst(ds, n, i);
      }
    }
  }

  lemma LaterLarger(ds: seq<Descriptor>, n: nat)
    requires |ds| == n + 1 && ds[n].kind == CONVENTIONAL
    requires forall j :: 0 <= j < n && ds[..n][j].kind == CONVENTIONAL ==> Bytes(ds[..n][j]) < Bytes(ds[n])
    requires Bytes(ds[n]) > 0
    ensures FirstLargest(ds, n)
  {
    assert forall j :: 0 <= j < n ==> ds[..n][j] == ds[j];
  }

  lemma StaysFirst(ds: seq<Descriptor>, n: nat, i: nat)
    requires |ds| == n + 1 && FirstLargest(ds[..n], i) && (ds[n].kind == CONVENTIONAL ==> Bytes(ds[n]) <= Bytes(ds[i]))
    ensures FirstLargest(ds, i)
  {
    assert forall j :: 0 <= j < n ==> ds[..n][j] == ds[j];
  }

  lemma {:induction false} UnreserveAllExact(s: Frames, ds: seq<Descriptor>)
    requires Small(ds)
    ensures var r := UnreserveAll(s, ds);
            r.size == s.size && r.hint <= s.hint && |r.bits| == |s.bits|
            && forall i :: 0 <= i < |s.bits| ==> r.bits[i] == (s.bits[i] && !Covered(ds, i))
    decreases |ds|
  {
    if ds != [] {
      var front, d := ds[..|ds| - 1], ds[|ds| - 1];
      InFrontOrLast(ds, front, d);
      UnreserveAllExact(s, front);
      var t := UnreserveAll(s, front);
      if d.kind == CONVENTIONAL {
        ReleaseTurnsExact(t, d.physAddr, d.numPages, Reserved);
      }
      forall i | 0 <= i < |s.bits|
        ensures Covered(ds, i) <==> Covered(front, i) || (d.kind == CONVENTIONAL && InRun(d.physAddr, d.numPages, i))
      {
      }
    }
  }

  lemma PreparedExact(prior: Frames, home: nat, memorySize: nat, spare: bool)
    requires home <= ADDRESSES && memorySize / 4096 < MAX_RUN
    ensures var r := Prepared(prior, home, memorySize, spare);
            Valid(r) && r.size == BitmapSize(memorySize) && r.hint == prior.hint && 8 * r.size > memorySize / 4096
            && forall p :: 0 <= p <= memorySize / 4096 ==> r.bits[p]
  {
    var s0 := Blank(prior, memorySize, spare);
    TakeTurnsExact(s0, home, BitmapSize(memorySize) / 4096, Reserved);
    var s1 := TakeRun(s0, home, BitmapSize(memorySize) / 4096, Reserved);
    TakeTurnsExact(s1, 0, memorySize / 4096 + 1, Reserved);
    forall p | 0 <= p <= memorySize / 4096
      ensures Prepared(prior, home, memorySize, spare).bits[p]
    {
      assert InRun(0, memorySize / 4096 + 1, p);
    }
  }

  // Free are just the pages that conventional memory covers, above the legacy area and without the bitmap itself.
  ghost predicate RightlyBooted(ds: seq<Descriptor>, memorySize: nat, legacy: nat, r: Frames) {
    Valid(r) && 8 * (r.size - 1) <= memorySize / 4096 < 8 * r.size
    && forall p :: 0 <= p <= memorySize / 4096 ==>
         (!r.bits[p] <==> Covered(ds, p) && p >= legacy && !HoldsBitmap(ds, memorySize, p))
  }

  // The bitmap has the fewest bytes with a bit for every page of memory and one more.
  lemma BitmapSizeExact(memorySize: nat)
    ensures 8 * (BitmapSize(memorySize) - 1) <= memorySize / 4096 < 8 * BitmapSize(memorySize)
  {
  }

  lemma BootExact(prior: Frames, ds: seq<Descriptor>, memorySize: nat, spare: bool, legacy: nat)
    requires Small(ds)
    requires memorySize / 4096 < MAX_RUN && legacy <= MAX_RUN
    ensures RightlyBooted(ds, memorySize, legacy, AfterBoot(prior, ds, memorySize, spare, legacy))
  {
    var home := Largest(ds).0;
    LargestBounded(ds);
    BitmapSizeExact(memorySize);
    PreparedExact(prior, home, memorySize, spare);
    var s2 := Prepared(prior, home, memorySize, spare);
    UnreserveAllExact(s2, ds);
    var s3 := UnreserveAll(s2, ds);
    ClaimedExact(s3, home, memorySize, legacy);
    forall p | 0 <= p <= memorySize / 4096
      ensures s3.bits[p] == !Covered(ds, p)
    {
      assert s2.bits[p];
    }
  }

  /** The allocator does not hand out its own bitmap: the page of each of its bytes is taken after boot. */
  lemma BitmapIsTaken(ds: seq<Descriptor>, memorySize: nat, legacy: nat, r: Frames, k: nat)
    requires RightlyBooted(ds, memorySize, legacy, r) && k < r.size && Largest(ds).0 % PAGE == 0
    requires (Largest(ds).0 + k) / PAGE <= memorySize / 4096
    ensures r.bits[(Largest(ds).0 + k) / PAGE]
  {
    BitmapSizeExact(memorySize);
    assert HoldsBitmap(ds, memorySize, (Largest(ds).0 + k) / PAGE);
  }

  lemma BootIsRight(prior: Frames, ds: seq<Descriptor>, memorySize: nat, spare: bool, legacy: nat)
    requires legacy <= MAX_RUN
    ensures Small(ds) && memorySize < 0x8000_0000 ==>
              RightlyBooted(ds, memorySize, legacy, AfterBoot(prior, ds, memorySize, spare, legacy))
  {
    if Small(ds) && memorySize < 0x8000_0000 {
      BootExact(prior, ds, memorySize, spare, legacy);
    }
  }

  // Every memory map of that many pages boots rightly.
  ghost predicate BootsRightly(pages: nat, legacy: nat) {
    forall prior: Frames, ds: seq<Descriptor>, spare: bool :: Physical(ds) && PageSum(ds) == pages ==>
      RightlyBooted(ds, pages * PAGE, legacy, AfterBoot(prior, ds, MemorySize(ds), spare, legacy))
  }

  /**
   * After boot a page is free exactly when conventional memory covers it, it is above the
   * legacy area and it does not hold the bitmap itself: so it is for every memory map, exactly
   * below 2 GiB. From there on page 2^19 is free whatever the map says.
   */
  lemma BootsRightlyExact(pages: nat, legacy: nat)
    requires pages * PAGE <= ADDRESSES && legacy <= MAX_RUN
    ensures BootsRightly(pages, legacy) <==> pages < MAX_RUN
  {
    if pages < MAX_RUN {
      forall prior: Frames, ds: seq<Descriptor>, spare: bool | Physical(ds) && PageSum(ds) == pages
        ensures RightlyBooted(ds, pages * PAGE, legacy, AfterBoot(prior, ds, MemorySize(ds), spare, legacy))
      {
        MemorySizeExact(ds);
        BootExact(prior, ds, pages * PAGE, spare, legacy);
      }
    } else {
      BootLeavesFree(pages, legacy);
    }
  }

  // A map of reserved memory only.
  lemma BootLeavesFree(pages: nat, legacy: nat)
    requires MAX_RUN <= pages && pages * PAGE <= ADDRESSES && legacy <= MAX_RUN
    ensures !BootsRightly(pages, legacy)
  {
    var ds, page := [Descriptor(0, 0, pages)], MAX_RUN;
    assert PageSum(ds[..0]) == 0;
    assert Physical(ds) && PageSum(ds) == pages;
    MemorySizeExact(ds);
    AllReservedLeavesFree(ds, pages * PAGE, legacy, page);
    assert !Covered(ds, page);
    assert !RightlyBooted(ds, pages * PAGE, legacy, AfterBoot(UNBOOTED, ds, MemorySize(ds), false, legacy));
  }

  lemma AllReservedLeavesFree(ds: seq<Descriptor>, memorySize: nat, legacy: nat, page: nat)
    requires |ds| == 1 && ds[0].kind != CONVENTIONAL && page == MAX_RUN <= memorySize / 4096
    ensures var r := AfterBoot(UNBOOTED, ds, memorySize, false, legacy);
            |r.bits| == 8 * BitmapSize(memorySize) + 1 && !r.bits[page]
  {
    var s := Blank(UNBOOTED, memorySize, false);
    assert Largest(ds[..0]) == (0, 0);
    var s1 := TakeRun(s, 0, BitmapSize(memorySize) / 4096, Reserved);
    var s2 := TakeRun(s1, 0, memorySize / 4096 + 1, Reserved);
    var s3 := TakeRun(s2, 0, legacy, Reserved);
    PassesBy(s, Turns(BitmapSize(memorySize) / 4096), Reserved, page);
    PassesBy(s1, Turns(memorySize / 4096 + 1), Reserved, page);
    PassesBy(s2, Turns(legacy), Reserved, page);
    PassesBy(s3, Turns(BitmapSize(memorySize) / 4096 + 1), Used, page);
    assert UnreserveAll(s2, ds[..0]) == s2;
  }

  // No run from address 0 reaches page 2^19.
  lemma {:induction false} PassesBy(s: Frames, turns: nat, owner: Owner, page: nat)
    requires page == MAX_RUN < |s.bits|
    ensures var r := TakeTurns(s, 0, turns, owner); |r.bits| == |s.bits| && r.bits[page] == s.bits[page]
    decreases turns
  {
    if turns > 0 {
      PassesBy(s, turns - 1, owner, page);
      assert PageOf(0, turns - 1) != page;
    }
  }

  lemma ClaimedExact(s: Frames, home: nat, memorySize: nat, legacy: nat)
    requires home <= ADDRESSES && memorySize / 4096 < MAX_RUN && legacy <= MAX_RUN
    ensures var r := Claimed(s, home, memorySize, legacy);
            r.size == s.size && r.hint == s.hint && |r.bits| == |s.bits|
            && forall p :: 0 <= p < |s.bits| ==>
                 r.bits[p] == (s.bits[p] || p < legacy || InRun(home, BitmapSize(memorySize) / 4096 + 1, p))
  {
    TakeTurnsExact(s, 0, legacy, Reserved);
    TakeTurnsExact(TakeRun(s, 0, legacy, Reserved), home, BitmapSize(memorySize) / 4096 + 1, Used);
    assert forall p: nat :: InRun(0, legacy, p) <==> p < legacy;
  }

  lemma {:induction false} UnreserveAllBalanced(s: Frames, ds: seq<Descriptor>, total: nat, uncharged: int)
    requires Balanced(s, total, uncharged)
    ensures Balanced(UnreserveAll(s, ds), total, uncharged)
    decreases |ds|
  {
    if ds != [] {
      var front, d := ds[..|ds| - 1], ds[|ds| - 1];
      UnreserveAllBalanced(s, front, total, uncharged);
      if d.kind == CONVENTIONAL {
        ReleaseTurnsBalanced(UnreserveAll(s, front), d.physAddr, Turns(d.numPages), Reserved, total, uncharged);
      }
    }
  }

  lemma {:induction false} CountNone(bits: seq<bool>)
    requires forall i :: 0 <= i < |bits| ==> !bits[i]
    ensures Count(bits) == 0
    decreases |bits|
  {
    if bits != [] {
      CountNone(bits[..|bits| - 1]);
    }
  }

  lemma CountEmpty(size: nat, spare: bool)
    ensures Count(EmptyBits(size, spare)) == if spare then 1 else 0
  {
    CountNone(EmptyBits(size, spare)[..8 * size]);
  }

  lemma PreparedBalanced(prior: Frames, home: nat, memorySize: nat, spare: bool)
    requires prior.used == prior.reserved == 0
    ensures Balanced(Prepared(prior, home, memorySize, spare), memorySize, if spare then 1 else 0)
  {
    var size, u := BitmapSize(memorySize), if spare then 1 else 0;
    var s0 := Blank(prior, memorySize, spare);
    CountEmpty(size, spare);
    assert Balanced(s0, memorySize, u);
    TakeTurnsBalanced(s0, home, Turns(size / 4096), Reserved, memorySize, u);
    TakeTurnsBalanced(TakeRun(s0, home, size / 4096, Reserved), 0, Turns(memorySize / 4096 + 1), Reserved, memorySize, u);
  }

  /** Boot leaves the counters agreeing with the bitmap; only the spare bit is charged to nobody. */
  lemma BootBalanced(prior: Frames, ds: seq<Descriptor>, memorySize: nat, spare: bool, legacy: nat)
    requires prior.used == prior.reserved == 0
    ensures Balanced(AfterBoot(prior, ds, memorySize, spare, legacy), memorySize, if spare then 1 else 0)
  {
    var home, u := Largest(ds).0, if spare then 1 else 0;
    PreparedBalanced(prior, home, memorySize, spare);
    var s2 := Prepared(prior, home, memorySize, spare);
    UnreserveAllBalanced(s2, ds, memorySize, u);
    var s3 := UnreserveAll(s2, ds);
    TakeTurnsBalanced(s3, 0, Turns(legacy), Reserved, memorySize, u);
    TakeTurnsBalanced(TakeRun(s3, 0, legacy, Reserved), home, Turns(BitmapSize(memorySize) / 4096 + 1), Used, memorySize, u);
  }

  // ----- Runs of the allocator -----

  datatype Call =
    | Lock(address: nat, count: nat)
    | Free(address: nat, count: nat)
    | Reserve(address: nat, count: nat)
    | Unreserve(address: nat, count: nat)
    | Request
    | RequestMany(pages: nat)

  function Apply(s: Frames, call: Call): (r: Frames)
    requires Valid(s)
  {
    match call
    case Lock(a, n) => TakeRun(s, a, n, Used)
    case Free(a, n) => ReleaseRun(s, a, n, Used)
    case Reserve(a, n) => TakeRun(s, a, n, Reserved)
    case Unreserve(a, n) => ReleaseRun(s, a, n, Reserved)
    case Request => AfterRequest(s)
    case RequestMany(k) => AfterRequests(s, k)
  }

  lemma ApplyKeeps(s: Frames, call: Call, total: nat, uncharged: int)
    requires Valid(s) && Balanced(s, total, uncharged)
    ensures Valid(Apply(s, call)) && Apply(s, call).size == s.size && Balanced(Apply(s, call), total, uncharged)
  {
    match call
    case Lock(a, n) => TakeTurnsValid(s, a, Turns(n), Used); TakeTurnsBalanced(s, a, Turns(n), Used, total, uncharged);
    case Free(a, n) => ReleaseTurnsValid(s, a, Turns(n), Used); ReleaseTurnsBalanced(s, a, Turns(n), Used, total, uncharged);
    case Reserve(a, n) => TakeTurnsValid(s, a, Turns(n), Reserved); TakeTurnsBalanced(s, a, Turns(n), Reserved, total, uncharged);
    case Unreserve(a, n) => ReleaseTurnsValid(s, a, Turns(n), Reserved); ReleaseTurnsBalanced(s, a, Turns(n), Reserved, total, uncharged);
    case Request => RequestExact(s); RequestBalanced(s, total, uncharged);
    case RequestMany(k) =>
      var start := Search(s.bits, s.size, s.hint, k);
      TakeTurnsValid(s.(hint := start + k), start * PAGE, Turns(k), Used);
      RequestsBalanced(s, k, total, uncharged);
  }

  // The state after a whole run of calls.
  ghost predicate Reaches(s: Frames, calls: seq<Call>, r: Frames)
    decreases |calls|
  {
    Valid(s) && if calls == [] then r == s else Reaches(Apply(s, calls[0]), calls[1..], r)
  }

  /**
   * Conservation: after boot and any calls whatever, used plus reserved memory is the memory of the set bits, and
   * the three counters add up to the memory size.
   */
  lemma {:induction false} RunsConserveMemory(s: Frames, calls: seq<Call>, r: Frames, total: nat, uncharged: int)
    requires Balanced(s, total, uncharged) && Reaches(s, calls, r)
    ensures Valid(r) && r.size == s.size && Balanced(r, total, uncharged)
    decreases |calls|
  {
    if calls != [] {
      ApplyKeeps(s, calls[0], total, uncharged);
      RunsConserveMemory(Apply(s, calls[0]), calls[1..], r, total, uncharged);
    }
  }

  /** Boot followed by any run: the statement about the whole life of the allocator. */
  lemma BootedRunsConserveMemory(ds: seq<Descriptor>, memorySize: nat, spare: bool, legacy: nat, calls: seq<Call>, r: Frames)
    requires Reaches(AfterBoot(UNBOOTED, ds, memorySize, spare, legacy), calls, r)
    ensures Congruent(r.used + r.reserved, PAGE * (Count(r.bits) - if spare then 1 else 0))
    ensures Congruent(r.free + r.used + r.reserved, memorySize)
  {
    var u, booted := if spare then 1 else 0, AfterBoot(UNBOOTED, ds, memorySize, spare, legacy);
    BootBalanced(UNBOOTED, ds, memorySize, spare, legacy);
    RunsConserveMemory(booted, calls, r, memorySize, u);
    BalancedIsCongruent(r, memorySize, u);
  }

  // No call asks for two consecutive pages or more.
  ghost predicate SinglePages(calls: seq<Call>) {
    forall i :: 0 <= i < |calls| && calls[i].RequestMany? ==> calls[i].pages <= 1
  }

  lemma ApplyKeepsHintTight(s: Frames, call: Call)
    requires Valid(s) && HintTight(s) && s.size <= MAX_SIZE && (call.RequestMany? ==> call.pages <= 1)
    ensures Valid(Apply(s, call)) && Apply(s, call).size == s.size && HintTight(Apply(s, call))
  {
    match call
    case Lock(a, n) => TakeTurnsKeepHintTight(s, a, Turns(n), Used);
    case Free(a, n) => ReleaseTurnsKeepHintTight(s, a, Turns(n), Used);
    case Reserve(a, n) => TakeTurnsKeepHintTight(s, a, Turns(n), Reserved);
    case Unreserve(a, n) => ReleaseTurnsKeepHintTight(s, a, Turns(n), Reserved);
    case Request => RequestExact(s); PanicMeansFull(s);
    case RequestMany(k) => SingleKeepsHintTight(s, k);
  }

  lemma {:induction false} RunKeepsHintTight(s: Frames, calls: seq<Call>, r: Frames)
    requires Valid(s) && HintTight(s) && s.size <= MAX_SIZE && SinglePages(calls) && Reaches(s, calls, r)
    ensures Valid(r) && HintTight(r)
    decreases |calls|
  {
    if calls != [] {
      ApplyKeepsHintTight(s, calls[0]);
      RunKeepsHintTight(Apply(s, calls[0]), calls[1..], r);
    }
  }

  lemma {:induction false} UnreserveAllKeeps(s: Frames, ds: seq<Descriptor>)
    ensures UnreserveAll(s, ds).size == s.size && UnreserveAll(s, ds).hint <= s.hint
    decreases |ds|
  {
    if ds != [] {
      var d, t := ds[|ds| - 1], UnreserveAll(s, ds[..|ds| - 1]);
      UnreserveAllKeeps(s, ds[..|ds| - 1]);
      ReleaseTurnsValid(t, d.physAddr, Turns(d.numPages), Reserved);
    }
  }

  // The scan starts at page 0, below which no page is free.
  lemma BootHint(ds: seq<Descriptor>, memorySize: nat, spare: bool, legacy: nat)
    ensures var r := AfterBoot(UNBOOTED, ds, memorySize, spare, legacy); r.hint == 0 && r.size == BitmapSize(memorySize)
  {
    var home := Largest(ds).0;
    var s0, s2 := Blank(UNBOOTED, memorySize, spare), Prepared(UNBOOTED, home, memorySize, spare);
    TakeTurnsValid(s0, home, Turns(BitmapSize(memorySize) / 4096), Reserved);
    TakeTurnsValid(TakeRun(s0, home, BitmapSize(memorySize) / 4096, Reserved), 0, Turns(memorySize / 4096 + 1), Reserved);
    UnreserveAllKeeps(s2, ds);
    var s3 := UnreserveAll(s2, ds);
    TakeTurnsValid(s3, 0, Turns(legacy), Reserved);
    TakeTurnsValid(TakeRun(s3, 0, legacy, Reserved), home, Turns(BitmapSize(memorySize) / 4096 + 1), Used);
  }

  /**
   * From boot, whatever is locked, freed, reserved, unreserved and requested: as long as nobody asks for two
   * consecutive pages, a panic means that every page is taken.
   */
  lemma BootedPanicMeansFull(ds: seq<Descriptor>, memorySize: nat, spare: bool, legacy: nat, calls: seq<Call>, r: Frames)
    requires memorySize < WORD_LIMIT && SinglePages(calls)
    requires Reaches(AfterBoot(UNBOOTED, ds, memorySize, spare, legacy), calls, r)
    ensures Valid(r) && (Exhausted(r) <==> forall p :: 0 <= p < 8 * r.size ==> r.bits[p])
  {
    var booted := AfterBoot(UNBOOTED, ds, memorySize, spare, legacy);
    BootHint(ds, memorySize, spare, legacy);
    RunKeepsHintTight(booted, calls, r);
    PanicMeansFull(r);
    RequestExact(r);
  }

  // The globals before boot.
  const UNBOOTED := Frames(0, [false], 0, 0, 0, 0)

  lemma BalancedIsCongruent(s: Frames, total: nat, u: int)
    requires Balanced(s, total, u)
    ensures Congruent(s.used + s.reserved, PAGE * (Count(s.bits) - u))
    ensures Congruent(s.free + s.used + s.reserved, total)
  {
  }
}
