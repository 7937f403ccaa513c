// Whom the page frame allocator charges: its three counters one by one (kernel/src/memory/pfa.cpp).

module FrameCharges {
  import opened Units
  import opened FrameSpec
  import opened BootSpec

  // Every page newly taken is charged to its owner, every page given back credited to it; the
  // other counter stays.
  ghost predicate Charges(s: Frames, r: Frames, owner: Owner) {
    var pages := Count(r.bits) - Count(s.bits);
    && Congruent(r.free, s.free - PAGE * pages)
    && match owner
       case Used => Congruent(r.used, s.used + PAGE * pages) && r.reserved == s.reserved
       case Reserved => Congruent(r.reserved, s.reserved + PAGE * pages) && r.used == s.used
  }

  lemma ChargesNothing(s: Frames, r: Frames, owner: Owner)
    requires r.bits == s.bits && r.free == s.free && r.used == s.used && r.reserved == s.reserved
    ensures Charges(s, r, owner)
  {
  }

  lemma CongruentSum(a: int, b: int, c: int, x: int, y: int)
    requires Congruent(b, a + x) && Congruent(c, b + y)
    ensures Congruent(c, a + x + y)
  {
    SumOfZeros(b - (a + x), c - (b + y));
  }

  lemma SumOfZeros(x: int, y: int)
    requires x % WORD_LIMIT == 0 && y % WORD_LIMIT == 0
    ensures (x + y) % WORD_LIMIT == 0
  {
  }

  lemma ChargesTransitive(s: Frames, m: Frames, r: Frames, owner: Owner)
    requires Charges(s, m, owner) && Charges(m, r, owner)
    ensures Charges(s, r, owner)
  {
    var x, y := PAGE * (Count(m.bits) - Count(s.bits)), PAGE * (Count(r.bits) - Count(m.bits));
    CongruentSum(s.free, m.free, r.free, -x, -y);
    if owner == Used {
      CongruentSum(s.used, m.used, r.used, x, y);
    } else {
      CongruentSum(s.reserved, m.reserved, r.reserved, x, y);
    }
  }

  lemma TakeCharges(s: Frames, i: nat, owner: Owner)
    ensures Charges(s, Take(s, i, owner), owner)
  {
    if i < |s.bits| && !s.bits[i] {
      CountUpdate(s.bits, i, true);
    } else {
      ChargesNothing(s, s, owner);
    }
  }

  lemma ReleaseCharges(s: Frames, i: nat, owner: Owner)
    ensures Charges(s, Release(s, i, owner), owner)
  {
    if i < |s.bits| && s.bits[i] {
      CountUpdate(s.bits, i, false);
    } else {
      ChargesNothing(s, s, owner);
    }
  }

  lemma {:induction false} TakeTurnsCharge(s: Frames, address: nat, turns: nat, owner: Owner)
    ensures Charges(s, TakeTurns(s, address, turns, owner), owner)
    decreases turns
  {
    if turns == 0 {
      ChargesNothing(s, s, owner);
    } else {
      var m := TakeTurns(s, address, turns - 1, owner);
      TakeTurnsCharge(s, address, turns - 1, owner);
      TakeCharges(m, PageOf(address, turns - 1), owner);
      ChargesTransitive(s, m, TakeTurns(s, address, turns, owner), owner);
    }
  }

  lemma TakeRunCharges(s: Frames, address: nat, count: nat, owner: Owner)
    ensures Charges(s, TakeRun(s, address, count, owner), owner)
  {
    TakeTurnsCharge(s, address, FrameSpec.Turns(count), owner);
  }

  lemma {:induction false} ReleaseTurnsCharge(s: Frames, address: nat, turns: nat, owner: Owner)
    ensures Charges(s, ReleaseTurns(s, address, turns, owner), owner)
    decreases turns
  {
    if turns == 0 {
      ChargesNothing(s, s, owner);
    } else {
      var m := ReleaseTurns(s, address, turns - 1, owner);
      ReleaseTurnsCharge(s, address, turns - 1, owner);
      ReleaseCharges(m, PageOf(address, turns - 1), owner);
      ChargesTransitive(s, m, ReleaseTurns(s, address, turns, owner), owner);
    }
  }

  // ReservePages and UnreservePages move reservedMemory, all other calls usedMemory.
  function OwnerOf(call: Call): Owner {
    if call.Reserve? || call.Unreserve? then Reserved else Used
  }

  lemma RequestCharges(s: Frames)
    requires FrameSpec.Valid(s)
    ensures Charges(s, AfterRequest(s), Used)
  {
    var moved := s.(hint := Requested(s));
    ChargesNothing(s, moved, Used);
    TakeCharges(moved, Requested(s), Used);
  }

  lemma RequestsCharge(s: Frames, k: nat)
    ensures Charges(s, AfterRequests(s, k), Used)
  {
    var start := Search(s.bits, s.size, s.hint, k);
    var moved := s.(hint := start + k);
    ChargesNothing(s, s.(hint := start), Used);
    ChargesNothing(s, moved, Used);
    TakeTurnsCharge(moved, start * PAGE, FrameSpec.Turns(k), Used);
    ChargesTransitive(s, moved, TakeRun(moved, start * PAGE, k, Used), Used);
  }

  /** Every call charges and credits exactly the pages it takes and gives back, to its own counter and to none else. */
  lemma CallCharges(s: Frames, call: Call)
    requires FrameSpec.Valid(s)
    ensures Charges(s, Apply(s, call), OwnerOf(call))
  {
    match call
    case Lock(a, n) => TakeTurnsCharge(s, a, FrameSpec.Turns(n), Used);
    case Free(a, n) => ReleaseTurnsCharge(s, a, FrameSpec.Turns(n), Used);
    case Reserve(a, n) => TakeTurnsCharge(s, a, FrameSpec.Turns(n), Reserved);
    case Unreserve(a, n) => ReleaseTurnsCharge(s, a, FrameSpec.Turns(n), Reserved);
    case Request => RequestCharges(s);
    case RequestMany(k) => RequestsCharge(s, k);
  }

  lemma {:induction false} UnreserveAllCharges(s: Frames, ds: seq<Descriptor>)
    ensures Charges(s, UnreserveAll(s, ds), Reserved)
    decreases |ds|
  {
    if ds == [] {
      ChargesNothing(s, s, Reserved);
    } else {
      var d, t := ds[|ds| - 1], UnreserveAll(s, ds[..|ds| - 1]);
      UnreserveAllCharges(s, ds[..|ds| - 1]);
      if d.kind == CONVENTIONAL {
        ReleaseTurnsCharge(t, d.physAddr, FrameSpec.Turns(d.numPages), Reserved);
        ChargesTransitive(s, t, UnreserveAll(s, ds), Reserved);
      }
    }
  }

  // The state before the pages of the bitmap are locked.
  function Unclaimed(ds: seq<Descriptor>, memorySize: nat, spare: bool, legacy: nat): Frames {
    TakeRun(UnreserveAll(Prepared(UNBOOTED, Largest(ds).0, memorySize, spare), ds), 0, legacy, Reserved)
  }

  lemma UnclaimedCharges(ds: seq<Descriptor>, memorySize: nat, spare: bool, legacy: nat)
    ensures Charges(Blank(UNBOOTED, memorySize, spare), Unclaimed(ds, memorySize, spare, legacy), Reserved)
  {
    var home, s0 := Largest(ds).0, Blank(UNBOOTED, memorySize, spare);
    var s2 := Prepared(UNBOOTED, home, memorySize, spare);
    var s3 := UnreserveAll(s2, ds);
    PreparedCharges(home, memorySize, spare, s0, s2);
    UnreserveAllCharges(s2, ds);
    TakeRunCharges(s3, 0, legacy, Reserved);
    ChargesTransitive(s0, s2, s3, Reserved);
    ChargesTransitive(s0, s3, TakeRun(s3, 0, legacy, Reserved), Reserved);
  }

  lemma PreparedCharges(home: nat, memorySize: nat, spare: bool, s: Frames, r: Frames)
    requires s == Blank(UNBOOTED, memorySize, spare) && r == Prepared(UNBOOTED, home, memorySize, spare)
    ensures Charges(s, r, Reserved)
  {
    var mid := TakeRun(s, home, BitmapSize(memorySize) / 4096, Reserved);
    TakeRunCharges(s, home, BitmapSize(memorySize) / 4096, Reserved);
    TakeRunCharges(mid, 0, memorySize / 4096 + 1, Reserved);
    ChargesTransitive(s, mid, r, Reserved);
  }

  // usedMemory counts the pages taken since u, reservedMemory those taken at u, but for some charged to nobody.
  ghost predicate SplitCharges(u: Frames, r: Frames, uncharged: nat) {
    && Congruent(r.used, PAGE * (Count(r.bits) - Count(u.bits)))
    && Congruent(r.reserved, PAGE * (Count(u.bits) - uncharged))
  }

  lemma ChargedInTurn(s: Frames, u: Frames, r: Frames, uncharged: nat)
    requires s.used == s.reserved == 0 && Charges(s, u, Reserved) && Charges(u, r, Used) && uncharged == Count(s.bits)
    ensures SplitCharges(u, r, uncharged)
  {
  }

  /**
   * After boot usedMemory counts just the pages locked for the bitmap that were free by then, and
   * reservedMemory all others that are taken, but for the spare bit.
   */
  lemma BootCharges(ds: seq<Descriptor>, memorySize: nat, spare: bool, legacy: nat)
    ensures SplitCharges(Unclaimed(ds, memorySize, spare, legacy), AfterBoot(UNBOOTED, ds, memorySize, spare, legacy),
                         if spare then 1 else 0)
  {
    var s, u := Blank(UNBOOTED, memorySize, spare), Unclaimed(ds, memorySize, spare, legacy);
    var pages := BitmapSize(memorySize) / 4096 + 1;
    CountEmpty(BitmapSize(memorySize), spare);
    UnclaimedCharges(ds, memorySize, spare, legacy);
    TakeRunCharges(u, Largest(ds).0, pages, Used);
    ChargedInTurn(s, u, TakeRun(u, Largest(ds).0, pages, Used), if spare then 1 else 0);
    BootEnds(ds, memorySize, spare, legacy, u, pages);
  }

  lemma BootEnds(ds: seq<Descriptor>, memorySize: nat, spare: bool, legacy: nat, u: Frames, pages: nat)
    requires u == Unclaimed(ds, memorySize, spare, legacy) && pages == BitmapSize(memorySize) / 4096 + 1
    ensures AfterBoot(UNBOOTED, ds, memorySize, spare, legacy) == TakeRun(u, Largest(ds).0, pages, Used)
  {
  }
}
