// The page frame allocator on values: what kernel/src/memory/pfa.cpp does to its bitmap, hint and counters.

module FrameSpec {
  import opened Units

  // Loops count pages in a 32-bit int, and multiply it by 4096 as an int.
  const MAX_RUN: nat := 0x8_0000

  // The bytes of a bitmap for 2^64 bytes of memory.
  const MAX_SIZE: nat := 0x2_0000_0000_0000

  // What an int holds of x, as two's complement wraps it.
  function AsInt(x: int): int {
    (x + 0x8000_0000) % 0x1_0000_0000 - 0x8000_0000
  }

  // uint64_t addition and subtraction.
  function Plus(a: nat, b: nat): nat { (a + b) % WORD_LIMIT }

  function Minus(a: nat, b: nat): nat { (a - b) % WORD_LIMIT }

  datatype Owner = Used | Reserved

  // Bit i says that page i is taken. The last bit is the spare one that the
  // bitmap's guards let through.
  datatype Frames = Frames(size: nat, bits: seq<bool>, hint: nat, free: nat, used: nat, reserved: nat)

  predicate Valid(s: Frames) {
    |s.bits| == 8 * s.size + 1
  }

  predicate Taken(bits: seq<bool>, i: nat) {
    i < |bits| && bits[i]
  }

  // LockPage and ReservePage.
  function Take(s: Frames, i: nat, owner: Owner): Frames {
    if i >= |s.bits| || s.bits[i] then s
    else
      var marked := s.(bits := s.bits[i := true], free := Minus(s.free, PAGE));
      match owner
      case Used => marked.(used := Plus(s.used, PAGE))
      case Reserved => marked.(reserved := Plus(s.reserved, PAGE))
  }

  // FreePage and UnreservePage.
  function Release(s: Frames, i: nat, owner: Owner): Frames {
    if i >= |s.bits| || !s.bits[i] then s
    else
      var cleared := s.(bits := s.bits[i := false], free := Plus(s.free, PAGE),
                        hint := if s.hint > i then i else s.hint);
      match owner
      case Used => cleared.(used := Minus(s.used, PAGE))
      case Reserved => cleared.(reserved := Minus(s.reserved, PAGE))
  }

  // The address turn t of a loop from `address` touches.
  function TurnAddress(address: nat, t: int): nat {
    (address + AsInt(t * PAGE)) % WORD_LIMIT
  }

  function PageOf(address: nat, t: int): nat {
    TurnAddress(address, t) / PAGE
  }

  // The turns of a loop whose int counter is compared with a uint64_t: behind 2^31 - 1
  // the counter is negative, and so above every count but the very largest.
  function Turns(count: nat): nat {
    if count <= 0x8000_0000 then count
    else if count <= WORD_LIMIT - 0x8000_0000 then 0x8000_0000
    else 0x1_0000_0000 + count - WORD_LIMIT
  }

  lemma TurnsExact(n: nat, count: nat)
    requires n <= Turns(count) && count < WORD_LIMIT
    ensures AsInt(n) % WORD_LIMIT < count <==> n < Turns(count)
  {
  }

  // The counter may be wrapped before it is multiplied.
  lemma TurnWraps(address: nat, n: nat)
    ensures TurnAddress(address, AsInt(n)) == TurnAddress(address, n) && AsInt(AsInt(n) + 1) == AsInt(n + 1)
  {
    var k := (n + 0x8000_0000) / 0x1_0000_0000;
    assert AsInt(n) == n - k * 0x1_0000_0000;
    IntWraps(n + 1, k);
    IntWraps(n * PAGE, k * PAGE);
  }

  lemma IntWraps(x: int, k: int)
    ensures AsInt(x - k * 0x1_0000_0000) == AsInt(x)
  {
  }

  function TakeTurns(s: Frames, address: nat, turns: nat, owner: Owner): Frames
    decreases turns, |s.bits|
  {
    if turns == 0 then s
    else Take(TakeTurns(s, address, turns - 1, owner), PageOf(address, turns - 1), owner)
  }

  function ReleaseTurns(s: Frames, address: nat, turns: nat, owner: Owner): Frames
    decreases turns, |s.bits|
  {
    if turns == 0 then s
    else Release(ReleaseTurns(s, address, turns - 1, owner), PageOf(address, turns - 1), owner)
  }

  // LockPages and ReservePages.
  function TakeRun(s: Frames, address: nat, count: nat, owner: Owner): Frames {
    TakeTurns(s, address, Turns(count), owner)
  }

  // FreePages and UnreservePages.
  function ReleaseRun(s: Frames, address: nat, count: nat, owner: Owner): Frames {
    ReleaseTurns(s, address, Turns(count), owner)
  }

  predicate InRun(address: nat, count: nat, i: nat) {
    address / PAGE <= i < address / PAGE + count
  }

  lemma PageOfRun(address: nat, t: nat)
    requires address + t * PAGE < WORD_LIMIT && t < MAX_RUN
    ensures PageOf(address, t) == address / PAGE + t
  {
  }

  // Exactly the pages of the run become taken.
  ghost predicate TakesExactly(s: Frames, address: nat, count: nat, r: Frames) {
    r.size == s.size && r.hint == s.hint && |r.bits| == |s.bits|
    && forall i :: 0 <= i < |s.bits| ==> r.bits[i] == (s.bits[i] || InRun(address, count, i))
  }

  // Exactly the pages of the run become free, and the hint is drawn back to the least of those it frees.
  ghost predicate ReleasesExactly(s: Frames, address: nat, count: nat, r: Frames) {
    r.size == s.size && |r.bits| == |s.bits|
    && (forall i :: 0 <= i < |s.bits| ==> r.bits[i] == (s.bits[i] && !InRun(address, count, i)))
    && (forall i :: 0 <= i < |s.bits| && s.bits[i] && InRun(address, count, i) ==> r.hint <= i)
    && r.hint <= s.hint
    && (r.hint < s.hint ==> r.hint < |s.bits| && s.bits[r.hint] && InRun(address, count, r.hint))
  }

  lemma {:induction false} TakeTurnsExact(s: Frames, address: nat, turns: nat, owner: Owner)
    requires address + turns * PAGE <= WORD_LIMIT && turns <= MAX_RUN
    ensures TakesExactly(s, address, turns, TakeTurns(s, address, turns, owner))
    decreases turns
  {
    if turns > 0 {
      var front := turns - 1;
      TakeTurnsExact(s, address, front, owner);
      PageOfRun(address, front);
      TakeStep(s, address, front, turns, PageOf(address, front), TakeTurns(s, address, front, owner), owner);
    }
  }

  lemma {:induction false} ReleaseTurnsExact(s: Frames, address: nat, turns: nat, owner: Owner)
    requires address + turns * PAGE <= WORD_LIMIT && turns <= MAX_RUN
    ensures ReleasesExactly(s, address, turns, ReleaseTurns(s, address, turns, owner))
    decreases turns
  {
    if turns > 0 {
      var front := turns - 1;
      ReleaseTurnsExact(s, address, front, owner);
      PageOfRun(address, front);
      ReleaseStep(s, address, front, turns, PageOf(address, front), ReleaseTurns(s, address, front, owner), owner);
    }
  }

  lemma TakeStep(s: Frames, address: nat, count: nat, next: nat, page: nat, r: Frames, owner: Owner)
    requires TakesExactly(s, address, count, r) && next == count + 1 && page == address / PAGE + count
    ensures TakesExactly(s, address, next, Take(r, page, owner))
  {
  }

  lemma ReleaseStep(s: Frames, address: nat, count: nat, next: nat, page: nat, r: Frames, owner: Owner)
    requires ReleasesExactly(s, address, count, r) && next == count + 1 && page == address / PAGE + count
    ensures ReleasesExactly(s, address, next, Release(r, page, owner))
  {
  }

  // The bitmap of a given size is always treated right by runs of that many pages.
  ghost predicate RunsTakeExactly(size: nat, count: nat) {
    forall s: Frames, address: nat, owner: Owner ::
      Valid(s) && s.size == size && address + count * PAGE <= WORD_LIMIT
      ==> TakesExactly(s, address, count, TakeRun(s, address, count, owner))
  }

  ghost predicate RunsReleaseExactly(size: nat, count: nat) {
    forall s: Frames, address: nat, owner: Owner ::
      Valid(s) && s.size == size && address + count * PAGE <= WORD_LIMIT
      ==> ReleasesExactly(s, address, count, ReleaseRun(s, address, count, owner))
  }

  /**
   * Taking a run takes exactly the pages it covers, wherever it lies, exactly up to 2^19 pages; behind these the
   * int product turns negative.
   */
  lemma TakeRunExact(size: nat, count: nat)
    requires TWO_GIB + count * PAGE <= WORD_LIMIT
    ensures RunsTakeExactly(size, count) <==> count <= MAX_RUN
  {
    if count <= MAX_RUN {
      forall s: Frames, address: nat, owner: Owner | Valid(s) && s.size == size && address + count * PAGE <= WORD_LIMIT
        ensures TakesExactly(s, address, count, TakeRun(s, address, count, owner))
      {
        TakeTurnsExact(s, address, count, owner);
      }
    } else {
      TakeRunWraps(size, count);
    }
  }

  /** And so does releasing. */
  lemma ReleaseRunExact(size: nat, count: nat)
    requires TWO_GIB + count * PAGE <= WORD_LIMIT
    ensures RunsReleaseExactly(size, count) <==> count <= MAX_RUN
  {
    if count <= MAX_RUN {
      forall s: Frames, address: nat, owner: Owner | Valid(s) && s.size == size && address + count * PAGE <= WORD_LIMIT
        ensures ReleasesExactly(s, address, count, ReleaseRun(s, address, count, owner))
      {
        ReleaseTurnsExact(s, address, count, owner);
      }
    } else {
      ReleaseRunWraps(size, count);
    }
  }

  const TWO_GIB: nat := 0x8000_0000

  // Turn 2^19 of a run from 2 GiB goes to page 0.
  lemma WrapsToZero(t: nat, count: nat)
    requires t == MAX_RUN < count
    ensures PageOf(TWO_GIB, t) == 0 && t < Turns(count) && !InRun(TWO_GIB, count, 0)
  {
    assert AsInt(t * PAGE) == -0x8000_0000;
  }

  lemma TakeRunWraps(size: nat, count: nat)
    requires TWO_GIB + count * PAGE <= WORD_LIMIT && count > MAX_RUN
    ensures !RunsTakeExactly(size, count)
  {
    var s, t := Frames(size, seq(8 * size + 1, _ => false), 0, 0, 0, 0), MAX_RUN;
    WrapsToZero(t, count);
    TurnTakes(s, TWO_GIB, Turns(count), Used, t);
    var r := TakeRun(s, TWO_GIB, count, Used);
    assert Valid(s) && r.bits[0] && !s.bits[0];
    assert !TakesExactly(s, TWO_GIB, count, r);
  }

  lemma ReleaseRunWraps(size: nat, count: nat)
    requires TWO_GIB + count * PAGE <= WORD_LIMIT && count > MAX_RUN
    ensures !RunsReleaseExactly(size, count)
  {
    var s, t := Frames(size, seq(8 * size + 1, _ => true), 0, 0, 0, 0), MAX_RUN;
    WrapsToZero(t, count);
    TurnReleases(s, TWO_GIB, Turns(count), Used, t);
    var r := ReleaseRun(s, TWO_GIB, count, Used);
    assert Valid(s) && !r.bits[0] && s.bits[0];
    assert !ReleasesExactly(s, TWO_GIB, count, r);
  }

  // Every turn takes its page, and no later turn gives it back.
  lemma {:induction false} TurnTakes(s: Frames, address: nat, turns: nat, owner: Owner, t: nat)
    requires t < turns && PageOf(address, t) < |s.bits|
    ensures var r := TakeTurns(s, address, turns, owner); |r.bits| == |s.bits| && r.bits[PageOf(address, t)]
    decreases turns
  {
    TakeTurnsValid(s, address, turns - 1, owner);
    if t < turns - 1 {
      TurnTakes(s, address, turns - 1, owner, t);
    }
  }

  lemma {:induction false} TurnReleases(s: Frames, address: nat, turns: nat, owner: Owner, t: nat)
    requires t < turns && PageOf(address, t) < |s.bits|
    ensures var r := ReleaseTurns(s, address, turns, owner); |r.bits| == |s.bits| && !r.bits[PageOf(address, t)]
    decreases turns
  {
    ReleaseTurnsValid(s, address, turns - 1, owner);
    if t < turns - 1 {
      TurnReleases(s, address, turns - 1, owner, t);
    }
  }

  lemma {:induction false} TakeTurnsValid(s: Frames, a: nat, n: nat, owner: Owner)
    ensures var r := TakeTurns(s, a, n, owner); r.size == s.size && r.hint == s.hint && |r.bits| == |s.bits|
    ensures forall i :: 0 <= i < |s.bits| && s.bits[i] ==> TakeTurns(s, a, n, owner).bits[i]
    decreases n
  {
    if n > 0 {
      TakeTurnsValid(s, a, n - 1, owner);
    }
  }

  lemma {:induction false} ReleaseTurnsValid(s: Frames, a: nat, n: nat, owner: Owner)
    ensures var r := ReleaseTurns(s, a, n, owner); r.size == s.size && r.hint <= s.hint && |r.bits| == |s.bits|
    decreases n
  {
    if n > 0 {
      ReleaseTurnsValid(s, a, n - 1, owner);
    }
  }

  // ----- Counters -----

  function Count(bits: seq<bool>): nat {
    if bits == [] then 0
    else Count(bits[..|bits| - 1]) + (if bits[|bits| - 1] then 1 else 0)
  }

  lemma {:induction false} CountUpdate(bits: seq<bool>, i: nat, value: bool)
    requires i < |bits|
    ensures Count(bits[i := value]) == Count(bits) + (if value then 1 else 0) - (if bits[i] then 1 else 0)
    decreases |bits|
  {
    var n := |bits| - 1;
    if i < n {
      CountUpdate(bits[..n], i, value);
      assert bits[i := value][..n] == bits[..n][i := value];
    } else {
      assert bits[i := value][..n] == bits[..n];
    }
  }

  // Equal as uint64_t.
  predicate Congruent(x: int, y: int) {
    (x - y) % WORD_LIMIT == 0
  }

  // The counters agree with the bitmap, up to the pages set before anyone was
  // charged for them. The sums are taken modulo 2^64 because FreePage may be
  // called on a reserved page, which wraps usedMemory.
  ghost predicate Balanced(s: Frames, total: nat, uncharged: int) {
    && (s.used + s.reserved - PAGE * (Count(s.bits) - uncharged)) % WORD_LIMIT == 0
    && (s.free + s.used + s.reserved - total) % WORD_LIMIT == 0
  }

  lemma PlusWraps(a: nat, b: nat) returns (k: int)
    ensures Plus(a, b) == a + b - k * WORD_LIMIT
  {
    k := (a + b) / WORD_LIMIT;
  }

  lemma MinusWraps(a: nat, b: nat) returns (k: int)
    ensures Minus(a, b) == a - b - k * WORD_LIMIT
  {
    k := (a - b) / WORD_LIMIT;
  }

  lemma WholeTurns(x: int, k: int)
    requires x % WORD_LIMIT == 0
    ensures (x + k * WORD_LIMIT) % WORD_LIMIT == 0
  {
  }

  // Charging one page to `free` and back to one of the other two.
  lemma SumsKept(charged: int, total: int, j: int, k: int)
    requires charged % WORD_LIMIT == 0 && total % WORD_LIMIT == 0
    ensures (charged - k * WORD_LIMIT) % WORD_LIMIT == 0
    ensures (total - (j + k) * WORD_LIMIT) % WORD_LIMIT == 0
  {
    WholeTurns(charged, -k);
    WholeTurns(total, -(j + k));
  }

  /** Taking a page keeps both sums, whoever is charged and whether or not the page was free. */
  lemma TakeBalanced(s: Frames, i: nat, owner: Owner, total: nat, uncharged: int)
    requires Balanced(s, total, uncharged)
    ensures Balanced(Take(s, i, owner), total, uncharged)
  {
    if i < |s.bits| && !s.bits[i] {
      CountUpdate(s.bits, i, true);
      var j := MinusWraps(s.free, PAGE);
      var k := PlusWraps(if owner == Used then s.used else s.reserved, PAGE);
      SumsKept(s.used + s.reserved - PAGE * (Count(s.bits) - uncharged), s.free + s.used + s.reserved - total, j, k);
    }
  }

  /** Releasing a page keeps both sums, even when it is credited to the wrong owner. */
  lemma ReleaseBalanced(s: Frames, i: nat, owner: Owner, total: nat, uncharged: int)
    requires Balanced(s, total, uncharged)
    ensures Balanced(Release(s, i, owner), total, uncharged)
  {
    if i < |s.bits| && s.bits[i] {
      CountUpdate(s.bits, i, false);
      var j := PlusWraps(s.free, PAGE);
      var k := MinusWraps(if owner == Used then s.used else s.reserved, PAGE);
      SumsKept(s.used + s.reserved - PAGE * (Count(s.bits) - uncharged), s.free + s.used + s.reserved - total, j, k);
    }
  }

  lemma {:induction false} TakeTurnsBalanced(s: Frames, address: nat, turns: nat, owner: Owner, total: nat, uncharged: int)
    requires Balanced(s, total, uncharged)
    ensures Balanced(TakeTurns(s, address, turns, owner), total, uncharged)
    decreases turns
  {
    if turns > 0 {
      TakeTurnsBalanced(s, address, turns - 1, owner, total, uncharged);
      TakeBalanced(TakeTurns(s, address, turns - 1, owner), PageOf(address, turns - 1), owner, total, uncharged);
    }
  }

  lemma {:induction false} ReleaseTurnsBalanced(s: Frames, address: nat, turns: nat, owner: Owner, total: nat, uncharged: int)
    requires Balanced(s, total, uncharged)
    ensures Balanced(ReleaseTurns(s, address, turns, owner), total, uncharged)
    decreases turns
  {
    if turns > 0 {
      ReleaseTurnsBalanced(s, address, turns - 1, owner, total, uncharged);
      ReleaseBalanced(ReleaseTurns(s, address, turns - 1, owner), PageOf(address, turns - 1), owner, total, uncharged);
    }
  }

  // ----- RequestPage -----

  // The page the scan from `from` stops at.
  function NextFree(bits: seq<bool>, from: nat, limit: nat): (i: nat)
    requires limit <= |bits|
    decreases limit - from
  {
    if from >= limit || !bits[from] then from else NextFree(bits, from + 1, limit)
  }

  function AfterRequest(s: Frames): Frames
    requires Valid(s)
  {
    var i := NextFree(s.bits, s.hint, 8 * s.size);
    var moved := s.(hint := i);
    if i < 8 * s.size then Take(moved, i, Used) else moved
  }

  function Requested(s: Frames): (i: nat)
    requires Valid(s)
  {
    NextFree(s.bits, s.hint, 8 * s.size)
  }

  // RequestPage ends in a panic instead of returning a page.
  predicate Exhausted(s: Frames)
    requires Valid(s)
  {
    Requested(s) >= 8 * s.size
  }

  lemma {:induction false} NextFreeLeast(bits: seq<bool>, from: nat, limit: nat)
    requires limit <= |bits|
    ensures var i := NextFree(bits, from, limit);
            from <= i && (i < limit ==> !bits[i])
            && (from <= limit ==> i <= limit)
            && (from >= limit ==> i == from)
            && forall k :: from <= k < i && k < limit ==> bits[k]
    decreases limit - from
  {
    if from < limit && bits[from] {
      NextFreeLeast(bits, from + 1, limit);
    }
  }

  /** RequestPage takes the lowest free page at or above the hint and changes no other bit. */
  lemma RequestExact(s: Frames)
    requires Valid(s)
    ensures var i, r := Requested(s), AfterRequest(s);
            Valid(r) && r.size == s.size
            && (Exhausted(s) ==> r.bits == s.bits && forall k :: s.hint <= k < 8 * s.size ==> s.bits[k])
            && (!Exhausted(s) ==> s.hint <= i < 8 * s.size && !s.bits[i] && r.bits == s.bits[i := true] && r.hint == i)
            && forall k :: s.hint <= k < i && k < 8 * s.size ==> s.bits[k]
  {
    NextFreeLeast(s.bits, s.hint, 8 * s.size);
  }

  // How many pages from `from` on are free.
  function FreeFrom(bits: seq<bool>, from: nat, limit: nat): nat
    requires limit <= |bits|
    decreases limit - from
  {
    if from >= limit then 0 else (if bits[from] then 0 else 1) + FreeFrom(bits, from + 1, limit)
  }

  // The pages RequestPage has still to give.
  function Available(s: Frames): nat
    requires Valid(s)
  {
    FreeFrom(s.bits, s.hint, 8 * s.size)
  }

  lemma {:induction false} FreeFromScan(bits: seq<bool>, from: nat, limit: nat)
    requires limit <= |bits|
    ensures FreeFrom(bits, from, limit) == FreeFrom(bits, NextFree(bits, from, limit), limit)
    decreases limit - from
  {
    if from < limit && bits[from] {
      FreeFromScan(bits, from + 1, limit);
    }
  }

  lemma {:induction false} FreeFromBehind(bits: seq<bool>, i: nat, from: nat, limit: nat)
    requires i < from && limit <= |bits| && i < |bits|
    ensures FreeFrom(bits[i := true], from, limit) == FreeFrom(bits, from, limit)
    decreases limit - from
  {
    if from < limit {
      FreeFromBehind(bits, i, from + 1, limit);
    }
  }

  /** RequestPage panics exactly when no page is available, and each page it gives leaves one less. */
  lemma RequestAvailable(s: Frames)
    requires Valid(s)
    ensures Valid(AfterRequest(s))
    ensures Exhausted(s) <==> Available(s) == 0
    ensures Available(AfterRequest(s)) == if Exhausted(s) then 0 else Available(s) - 1
  {
    var i := Requested(s);
    RequestExact(s);
    NextFreeLeast(s.bits, s.hint, 8 * s.size);
    FreeFromScan(s.bits, s.hint, 8 * s.size);
    if !Exhausted(s) {
      FreeFromBehind(s.bits, i, i + 1, 8 * s.size);
      assert FreeFrom(s.bits, i, 8 * s.size) == 1 + FreeFrom(s.bits, i + 1, 8 * s.size);
    }
  }

  // No page below the hint is free.
  ghost predicate HintTight(s: Frames)
    requires Valid(s)
  {
    forall k :: 0 <= k < s.hint && k < 8 * s.size ==> s.bits[k]
  }

  /** A panic means that memory is exhausted exactly when no free page was left behind the hint. */
  lemma PanicMeansFull(s: Frames)
    requires Valid(s)
    ensures Exhausted(s) ==> (HintTight(s) <==> forall k :: 0 <= k < 8 * s.size ==> s.bits[k])
    ensures HintTight(s) ==> HintTight(AfterRequest(s))
  {
    RequestExact(s);
    NextFreeLeast(s.bits, s.hint, 8 * s.size);
  }

  // Releasing a page moves the hint back, so it keeps the hint tight.
  lemma ReleaseKeepsHintTight(s: Frames, i: nat, owner: Owner)
    requires Valid(s) && HintTight(s)
    ensures Valid(Release(s, i, owner)) && HintTight(Release(s, i, owner))
  {
    var r := Release(s, i, owner);
    forall k | 0 <= k < r.hint && k < 8 * s.size
      ensures r.bits[k]
    {
      assert s.bits[k];
    }
  }

  lemma {:induction false} ReleaseTurnsKeepHintTight(s: Frames, address: nat, turns: nat, owner: Owner)
    requires Valid(s) && HintTight(s)
    ensures var r := ReleaseTurns(s, address, turns, owner); Valid(r) && r.size == s.size && HintTight(r)
    decreases turns
  {
    if turns > 0 {
      ReleaseTurnsKeepHintTight(s, address, turns - 1, owner);
      ReleaseKeepsHintTight(ReleaseTurns(s, address, turns - 1, owner), PageOf(address, turns - 1), owner);
    }
  }

  lemma TakeTurnsKeepHintTight(s: Frames, address: nat, turns: nat, owner: Owner)
    requires Valid(s) && HintTight(s)
    ensures var r := TakeTurns(s, address, turns, owner); Valid(r) && r.size == s.size && HintTight(r)
  {
    TakeTurnsValid(s, address, turns, owner);
  }

  // ----- RequestPages -----

  // The first offset j.. at which a taken page blocks a run of k pages from i.
  function FirstTaken(bits: seq<bool>, i: nat, j: nat, k: nat): (r: nat)
    ensures j <= k ==> j <= r <= k
    decreases k - j
  {
    if j >= k || Taken(bits, i + j) then j else FirstTaken(bits, i, j + 1, k)
  }

  // Where the search for k free pages from i stops; it found them when that is below `size`.
  function Search(bits: seq<bool>, size: nat, i: nat, k: nat): (r: nat)
    ensures i <= r
    decreases size - i
  {
    if i >= size then i
    else
      var j := FirstTaken(bits, i, 0, k);
      if j < k then Search(bits, size, i + j + 1, k) else i
  }

  // One turn of each scanning loop.
  lemma NextFreeStep(bits: seq<bool>, from: nat, limit: nat)
    requires from < limit <= |bits|
    ensures NextFree(bits, from, limit) == if bits[from] then NextFree(bits, from + 1, limit) else from
  {
  }

  lemma FirstTakenStep(bits: seq<bool>, i: nat, j: nat, k: nat)
    requires j < k
    ensures FirstTaken(bits, i, j, k) == if Taken(bits, i + j) then j else FirstTaken(bits, i, j + 1, k)
  {
  }

  lemma SearchStep(bits: seq<bool>, size: nat, i: nat, k: nat)
    requires i < size
    ensures var j := FirstTaken(bits, i, 0, k);
            Search(bits, size, i, k) == if j < k then Search(bits, size, i + j + 1, k) else i
  {
  }

  // The search from i on stops at start.
  predicate Seeks(bits: seq<bool>, size: nat, i: nat, k: nat, start: nat) {
    start == Search(bits, size, i, k)
  }

  lemma SeekOn(bits: seq<bool>, size: nat, i: nat, k: nat, start: nat, j: nat, next: nat)
    requires Seeks(bits, size, i, k, start) && i < size && j == FirstTaken(bits, i, 0, k) && next == i + j + 1
    ensures if j < k then Seeks(bits, size, next, k, start) else start == i
  {
    SearchStep(bits, size, i, k);
  }

  lemma SeekEnd(bits: seq<bool>, size: nat, i: nat, k: nat, start: nat)
    requires Seeks(bits, size, i, k, start) && i >= size
    ensures start == i
  {
  }

  predicate FreeRun(bits: seq<bool>, i: nat, k: nat) {
    forall p :: i <= p < i + k ==> !Taken(bits, p)
  }

  lemma {:induction false} FirstTakenExact(bits: seq<bool>, i: nat, j: nat, k: nat)
    requires j <= k
    ensures var r := FirstTaken(bits, i, j, k);
            (forall p :: i + j <= p < i + r ==> !Taken(bits, p)) && (r < k ==> Taken(bits, i + r))
    decreases k - j
  {
    if j < k && !Taken(bits, i + j) {
      FirstTakenExact(bits, i, j + 1, k);
    }
  }

  /** The skip-ahead search misses no run: it stops at the least start that has k free pages, or proves there is none. */
  lemma {:induction false} SearchLeast(bits: seq<bool>, size: nat, i: nat, k: nat)
    ensures var r := Search(bits, size, i, k);
            (r < size ==> FreeRun(bits, r, k))
            && forall start :: i <= start < r && start < size ==> !FreeRun(bits, start, k)
    decreases size - i
  {
    if i < size {
      var j := FirstTaken(bits, i, 0, k);
      FirstTakenExact(bits, i, 0, k);
      if j < k {
        SearchLeast(bits, size, i + j + 1, k);
        forall start | i <= start <= i + j
          ensures !FreeRun(bits, start, k)
        {
          assert Taken(bits, i + j);
        }
      }
    }
  }

  function AfterRequests(s: Frames, k: nat): Frames {
    var start := Search(s.bits, s.size, s.hint, k);
    if start < s.size then TakeRun(s.(hint := start + k), start * PAGE, k, Used) else s.(hint := start)
  }

  /** RequestPages takes the k pages of the least free run at or above the hint, and only those. */
  lemma RequestsExact(s: Frames, k: nat, start: nat, r: Frames)
    requires Valid(s) && s.size <= MAX_SIZE
    requires start == Search(s.bits, s.size, s.hint, k) && r == AfterRequests(s, k)
    ensures Valid(r) && r.size == s.size && r.hint == if start < s.size then start + k else start
    ensures start < s.size ==> s.hint <= start && FreeRun(s.bits, start, k)
    ensures start < s.size && k <= MAX_RUN ==>
              forall i :: 0 <= i < |s.bits| ==> r.bits[i] == (s.bits[i] || start <= i < start + k)
    ensures forall i :: 0 <= i < |s.bits| && s.bits[i] ==> r.bits[i]
    ensures start >= s.size ==> r.bits == s.bits && forall i :: s.hint <= i < s.size ==> !FreeRun(s.bits, i, k)
    ensures forall i :: s.hint <= i < start && i < s.size ==> !FreeRun(s.bits, i, k)
  {
    SearchLeast(s.bits, s.size, s.hint, k);
    if start < s.size {
      TakeTurnsValid(s.(hint := start + k), start * PAGE, Turns(k), Used);
      if k <= MAX_RUN {
        TakeFrom(s.(hint := start + k), start, k);
      }
    }
  }

  // A run given by its first page.
  lemma TakeFrom(s: Frames, start: nat, k: nat)
    requires Valid(s) && start < s.size && s.size <= MAX_SIZE && k <= MAX_RUN
    ensures var r := TakeRun(s, start * PAGE, k, Used);
            Valid(r) && r.size == s.size && r.hint == s.hint && |r.bits| == |s.bits|
            && forall i :: 0 <= i < |s.bits| ==> r.bits[i] == (s.bits[i] || start <= i < start + k)
  {
    TakeTurnsExact(s, start * PAGE, k, Used);
  }

  // The pages past the bitmap read as free, so a long run can stick out of it.
  ghost predicate StaysInside(size: nat, k: nat) {
    forall s: Frames :: Valid(s) && s.size == size && Search(s.bits, size, s.hint, k) < size
      ==> Search(s.bits, size, s.hint, k) + k <= 8 * size
  }

  /** RequestPages hands out only pages of the bitmap, in every state, exactly up to this length. */
  lemma StaysInsideExact(size: nat, k: nat)
    requires size > 0
    ensures StaysInside(size, k) <==> k <= 7 * size + 1
  {
    if k > 7 * size + 1 {
      var s := Frames(size, seq(8 * size + 1, _ => false), size - 1, 0, 0, 0);
      FirstTakenExact(s.bits, size - 1, 0, k);
      assert Search(s.bits, size, s.hint, k) == size - 1;
      assert Valid(s) && !StaysInside(size, k);
    }
  }

  ghost predicate RequestsKeepHintTight(size: nat, k: nat) {
    forall s: Frames :: Valid(s) && s.size == size && HintTight(s)
      ==> Valid(AfterRequests(s, k)) && HintTight(AfterRequests(s, k))
  }

  /**
   * A request for two pages or more can skip a lone free page and leave it behind the hint, where RequestPage
   * panics without seeing it.
   */
  lemma RequestsKeepHintTightExact(size: nat, k: nat)
    requires 0 < size && size <= MAX_SIZE
    ensures RequestsKeepHintTight(size, k) <==> k <= 1
  {
    if k <= 1 {
      forall s: Frames | Valid(s) && s.size == size && HintTight(s)
        ensures Valid(AfterRequests(s, k)) && HintTight(AfterRequests(s, k))
      {
        SingleKeepsHintTight(s, k);
      }
    } else {
      RequestsStrand(size, k);
    }
  }

  lemma SingleKeepsHintTight(s: Frames, k: nat)
    requires Valid(s) && HintTight(s) && s.size <= MAX_SIZE && k <= 1
    ensures Valid(AfterRequests(s, k)) && AfterRequests(s, k).size == s.size && HintTight(AfterRequests(s, k))
  {
    var start, r := Search(s.bits, s.size, s.hint, k), AfterRequests(s, k);
    RequestsExact(s, k, start, r);
    SingleSkipsOnlyTaken(s.bits, s.size, s.hint, k);
    forall p | 0 <= p < r.hint && p < 8 * s.size
      ensures r.bits[p]
    {
      assert p < s.hint ==> s.bits[p];
      assert s.hint <= p < start ==> Taken(s.bits, p);
    }
  }

  // One free page alone in front of the hint's way.
  lemma RequestsStrand(size: nat, k: nat)
    requires 0 < size && k > 1
    ensures !RequestsKeepHintTight(size, k)
  {
    var s := Frames(size, seq(8 * size + 1, i => i > 0), 0, 0, 0, 0);
    LonePageSkipped(s.bits, size, 0, k);
    assert Taken(s.bits, 1);
    assert !AfterRequests(s, k).bits[0];
    assert Valid(s) && HintTight(s) && !HintTight(AfterRequests(s, k));
  }

  lemma {:induction false} LonePageSkipped(bits: seq<bool>, size: nat, i: nat, k: nat)
    requires |bits| == 8 * size + 1 && k > 1 && forall p :: 0 < p < |bits| ==> Taken(bits, p)
    ensures Search(bits, size, i, k) >= size
    decreases size - i
  {
    if i < size {
      FirstTakenExact(bits, i, 0, k);
      var j := FirstTaken(bits, i, 0, k);
      assert Taken(bits, i + 1);
      LonePageSkipped(bits, size, i + j + 1, k);
    }
  }

  lemma {:induction false} SingleSkipsOnlyTaken(bits: seq<bool>, size: nat, i: nat, k: nat)
    requires |bits| == 8 * size + 1 && k <= 1
    ensures forall p :: i <= p < Search(bits, size, i, k) ==> Taken(bits, p)
    decreases size - i
  {
    if i < size {
      var j := FirstTaken(bits, i, 0, k);
      FirstTakenExact(bits, i, 0, k);
      if j < k {
        SingleSkipsOnlyTaken(bits, size, i + 1, k);
      }
    }
  }

  lemma RequestBalanced(s: Frames, total: nat, uncharged: int)
    requires Valid(s) && Balanced(s, total, uncharged)
    ensures Balanced(AfterRequest(s), total, uncharged)
  {
    var i := Requested(s);
    assert Balanced(s.(hint := i), total, uncharged);
    TakeBalanced(s.(hint := i), i, Used, total, uncharged);
  }

  lemma RequestsBalanced(s: Frames, k: nat, total: nat, uncharged: int)
    requires Balanced(s, total, uncharged)
    ensures Balanced(AfterRequests(s, k), total, uncharged)
  {
    var start := Search(s.bits, s.size, s.hint, k);
    assert Balanced(s.(hint := start + k), total, uncharged);
    TakeTurnsBalanced(s.(hint := start + k), start * PAGE, Turns(k), Used, total, uncharged);
  }
}
