// Page table entries: kernel/src/memory/paging.cpp and paging.h.
//
// An entry is one 64-bit word (Intel SDM Vol. 3A, section 4.5): flag bits at
// both ends and a 40-bit frame number in bits 12..51.

module Paging {
  import opened Word

  const PRESENT: nat := 0
  const READ_WRITE: nat := 1
  const USER_SUPER: nat := 2

  // Frame numbers have 40 bits.
  const FRAMES: nat := 0x100_0000_0000

  const ADDRESS_MASK: nat := 0x000f_ffff_ffff_f000
  const FLAGS_MASK: nat := 0xfff0_0000_0000_0fff
  const FRAME_MASK: nat := 0xff_ffff_ffff

  // The values of PT_Flag lie below the frame number or above it.
  predicate IsFlag(flag: nat) {
    flag < 12 || 52 <= flag < 64
  }

  predicate Present(value: nat) { Bit(value, PRESENT) }

  predicate Writable(value: nat) { Bit(value, READ_WRITE) }

  predicate User(value: nat) { Bit(value, USER_SUPER) }

  // The frame an entry points to, and the two writes to an entry.
  function Frame(value: nat): nat {
    Shr(And(value, ADDRESS_MASK), 12)
  }

  function WithFlag(value: nat, flag: nat, enabled: bool): nat {
    var cleared := And(value, Complement(Shl(1, flag)));
    if enabled then Or(cleared, Shl(1, flag)) else cleared
  }

  function WithFrame(value: nat, address: nat): nat {
    Or(And(value, FLAGS_MASK), Shl(And(address, FRAME_MASK), 12))
  }

  lemma MaskValues()
    ensures FRAME_MASK == Ones(40)
    ensures ADDRESS_MASK == Shl(Ones(40), 12)
    ensures FLAGS_MASK == Not(ADDRESS_MASK, 64)
  {
    OnesValues();
    ShlPage(Ones(40));
    OnesAdd(40, 12);
    OnesAdd(52, 12);
    ShlPage(Ones(52));
    NotIsComplement(ADDRESS_MASK, 64);
  }

  lemma MaskBit(k: nat)
    ensures Bit(ADDRESS_MASK, k) == (12 <= k < 52)
    ensures Bit(FLAGS_MASK, k) == (k < 12 || 52 <= k < 64)
    ensures Bit(FRAME_MASK, k) == (k < 40)
  {
    MaskValues();
    ShlBit(Ones(40), 12, k);
    OnesBit(40, k);
    if k >= 12 {
      OnesBit(40, k - 12);
    }
    NotBit(ADDRESS_MASK, 64, k);
  }

  /** The frame is the number spelled by bits 12..51 of the entry. */
  lemma FrameBit(value: nat, k: nat)
    ensures Bit(Frame(value), k) == (k < 40 && Bit(value, 12 + k))
  {
    ShrBit(And(value, ADDRESS_MASK), 12, k);
    AndBit(value, ADDRESS_MASK, 12 + k);
    MaskBit(12 + k);
  }

  lemma FrameInRange(value: nat)
    ensures Frame(value) < FRAMES
  {
    forall k: nat
      ensures Bit(Frame(value), k) == Bit(And(Frame(value), Ones(40)), k)
    {
      FrameBit(value, k);
      OnesBit(40, k);
      AndBit(Frame(value), Ones(40), k);
    }
    SameBits(Frame(value), And(Frame(value), Ones(40)));
    AndOnes(Frame(value), 40);
    OnesValues();
  }

  lemma PowerBit(n: nat, k: nat)
    ensures Bit(Shl(1, n), k) == (k == n)
  {
    ShlBit(1, n, k);
    if k > n {
      ZeroBit(k - n - 1);
    }
  }

  lemma WithFlagBit(value: nat, flag: nat, enabled: bool, k: nat)
    requires flag < 64 && k < 64
    ensures Bit(WithFlag(value, flag, enabled), k) == (if k == flag then enabled else Bit(value, k))
  {
    var mask := Complement(Shl(1, flag));
    AndBit(value, mask, k);
    PowerFits(flag);
    ComplementBit(Shl(1, flag), k);
    PowerBit(flag, k);
    OrBit(And(value, mask), Shl(1, flag), k);
  }

  lemma WithFrameBit(value: nat, address: nat, k: nat)
    requires k < 64
    ensures Bit(WithFrame(value, address), k) == (if 12 <= k < 52 then Bit(address, k - 12) else Bit(value, k))
  {
    var kept, frame := And(value, FLAGS_MASK), And(address, FRAME_MASK);
    OrBit(kept, Shl(frame, 12), k);
    AndBit(value, FLAGS_MASK, k);
    MaskBit(k);
    ShlBit(frame, 12, k);
    if k >= 12 {
      AndBit(address, FRAME_MASK, k - 12);
      MaskBit(k - 12);
    }
  }

  /** Setting a flag changes that bit and nothing else: no other flag and not the frame. */
  lemma WithFlagExact(value: nat, flag: nat, enabled: bool)
    requires IsFlag(flag)
    ensures Bit(WithFlag(value, flag, enabled), flag) == enabled
    ensures forall k: nat :: k < 64 && k != flag ==> Bit(WithFlag(value, flag, enabled), k) == Bit(value, k)
    ensures Frame(WithFlag(value, flag, enabled)) == Frame(value)
  {
    var result := WithFlag(value, flag, enabled);
    forall k: nat | k < 64
      ensures Bit(result, k) == (if k == flag then enabled else Bit(value, k))
    {
      WithFlagBit(value, flag, enabled, k);
    }
    forall k: nat
      ensures Bit(Frame(result), k) == Bit(Frame(value), k)
    {
      FrameBit(result, k);
      FrameBit(value, k);
    }
    SameBits(Frame(result), Frame(value));
  }

  /** Setting the frame stores the low 40 bits of the address and touches no flag. */
  lemma WithFrameExact(value: nat, address: nat)
    ensures Frame(WithFrame(value, address)) == address % FRAMES
    ensures forall flag: nat :: IsFlag(flag) ==> Bit(WithFrame(value, address), flag) == Bit(value, flag)
  {
    var result := WithFrame(value, address);
    forall flag: nat | IsFlag(flag)
      ensures Bit(result, flag) == Bit(value, flag)
    {
      WithFrameBit(value, address, flag);
    }
    StoredFrame(value, address);
    AndOnes(address, 40);
    OnesValues();
  }

  lemma StoredFrame(value: nat, address: nat)
    ensures Frame(WithFrame(value, address)) == And(address, Ones(40))
  {
    forall k: nat
      ensures Bit(Frame(WithFrame(value, address)), k) == Bit(And(address, Ones(40)), k)
    {
      StoredFrameBit(value, address, k);
    }
    SameBits(Frame(WithFrame(value, address)), And(address, Ones(40)));
  }

  lemma StoredFrameBit(value: nat, address: nat, k: nat)
    ensures Bit(Frame(WithFrame(value, address)), k) == Bit(And(address, Ones(40)), k)
  {
    FrameBit(WithFrame(value, address), k);
    AndBit(address, Ones(40), k);
    OnesBit(40, k);
    if k < 40 {
      WithFrameBit(value, address, 12 + k);
    }
  }

  // The entry MapMemory writes at every level.
  function Mapped(value: nat, address: nat): nat {
    WithFlag(WithFlag(WithFrame(value, address), PRESENT, true), READ_WRITE, true)
  }

  // The entry MapUserspaceMemory writes at every level.
  function Shared(value: nat): nat {
    WithFlag(value, USER_SUPER, true)
  }

  // An entry that maps a frame, present and writable, with the user flag it had before.
  predicate Maps(value: nat, before: nat, frame: nat) {
    Present(value) && Writable(value) && User(value) == User(before) && Frame(value) == frame
  }

  // An entry opened to user mode and otherwise as before.
  predicate Shares(value: nat, before: nat) {
    User(value) && Present(value) == Present(before) && Writable(value) == Writable(before)
    && Frame(value) == Frame(before)
  }

  lemma MappedExact(value: nat, address: nat)
    ensures Maps(Mapped(value, address), value, address % FRAMES)
  {
    var v1 := WithFrame(value, address);
    var v2 := WithFlag(v1, PRESENT, true);
    WithFrameExact(value, address);
    assert IsFlag(USER_SUPER);
    WithFlagExact(v1, PRESENT, true);
    WithFlagExact(v2, READ_WRITE, true);
  }

  lemma MappedFrame(value: nat, frame: nat)
    requires frame < FRAMES
    ensures Maps(Mapped(value, frame), value, frame)
  {
    SmallRemainder(frame, FRAMES);
    MappedExact(value, frame);
  }

  lemma SmallRemainder(a: nat, d: nat)
    requires a < d
    ensures a % d == a
  {
  }

  lemma SharedExact(value: nat)
    ensures Shares(Shared(value), value)
  {
    WithFlagExact(value, USER_SUPER, true);
  }

  // What GetFlag computes: `>` binds tighter than `&`, so the word is masked
  // with the truth value of `bitSelector > 0`.
  predicate FlagAsRead(value: nat, flag: nat) {
    And(value, AsWord(Shl(1, flag) > 0)) != 0
  }

  // A truth value used as a number.
  function AsWord(b: bool): nat {
    if b then 1 else 0
  }

  lemma {:induction false} SelectorPositive(flag: nat)
    ensures Shl(1, flag) > 0
  {
    if flag > 0 {
      SelectorPositive(flag - 1);
    }
  }

  lemma ReadsBitZero(value: nat, flag: nat)
    ensures FlagAsRead(value, flag) == Present(value)
  {
    SelectorPositive(flag);
    assert Ones(1) == 1;
    AndOnes(value, 1);
  }

  /** GetFlag answers for the flag it is asked about, on every entry, exactly when that flag is Present. */
  lemma GetFlagExact(flag: nat)
    ensures (forall value: nat :: FlagAsRead(value, flag) == Bit(value, flag)) <==> flag == PRESENT
  {
    if flag == PRESENT {
      forall value: nat
        ensures FlagAsRead(value, flag) == Bit(value, flag)
      {
        ReadsBitZero(value, flag);
      }
    } else {
      ReadsBitZero(1, flag);
      PowerBit(0, flag);
      assert FlagAsRead(1, flag) && !Bit(1, flag);
    }
  }

  class PageDirectoryEntry {
    var Value: nat

    constructor (value: nat)
      ensures Value == value
    {
      Value := value;
    }

    method SetFlag(flag: nat, enabled: bool)
      modifies this
      ensures Value == WithFlag(old(Value), flag, enabled)
    {
      var bitSelector := Shl(1, flag);
      Value := And(Value, Complement(bitSelector));
      if enabled {
        Value := Or(Value, bitSelector);
      }
    }

    method GetFlag(flag: nat) returns (on: bool)
      ensures on == FlagAsRead(Value, flag)
    {
      var bitSelector := Shl(1, flag);
      on := And(Value, AsWord(bitSelector > 0)) > 0;
    }

    method GetAddress() returns (address: nat)
      ensures address == Frame(Value)
    {
      address := Shr(And(Value, ADDRESS_MASK), 12);
    }

    method SetAddress(address: nat)
      modifies this
      ensures Value == WithFrame(old(Value), address)
    {
      var frame := And(address, FRAME_MASK);
      Value := And(Value, FLAGS_MASK);
      Value := Or(Value, Shl(frame, 12));
    }
  }
}
