// CRC-32 of messages: gnu-efi/lib/crc.c.

module Crc {
  import opened CrcTable
  import opened CrcRegister

  // ----- Running a register over a message -----

  function Fold<S, B>(step: (S, B) -> S, s: S, message: seq<B>): S
    decreases |message|
  {
    if message == [] then s
    else step(Fold(step, s, message[..|message| - 1]), message[|message| - 1])
  }

  lemma {:induction false} FoldConcat<S, B>(step: (S, B) -> S, s: S, a: seq<B>, b: seq<B>)
    ensures Fold(step, s, a + b) == Fold(step, Fold(step, s, a), b)
    decreases |b|
  {
    if b == [] {
      assert a + b == a;
    } else {
      assert (a + b)[..|a + b| - 1] == a + b[..|b| - 1];
      FoldConcat(step, s, a, b[..|b| - 1]);
    }
  }

  lemma FoldFour<S, B>(step: (S, B) -> S, s: S, a: seq<B>)
    requires |a| == 4
    ensures Fold(step, s, a) == step(step(step(step(s, a[0]), a[1]), a[2]), a[3])
  {
    assert a[..3][..2] == a[..2] && a[..2][..1] == a[..1] && a[..1][..0] == [];
    assert Fold(step, s, a[..1]) == step(s, a[0]);
    assert Fold(step, s, a[..2]) == step(Fold(step, s, a[..1]), a[1]);
    assert Fold(step, s, a[..3]) == step(Fold(step, s, a[..2]), a[2]);
  }

  // Different registers stay different whatever comes.
  ghost predicate KeepsApart<S(!new), B(!new)>(step: (S, B) -> S) {
    forall s, t, b :: step(s, b) == step(t, b) ==> s == t
  }

  lemma {:induction false} FoldInjective<S(!new), B(!new)>(step: (S, B) -> S, s: S, t: S, message: seq<B>)
    requires KeepsApart(step) && Fold(step, s, message) == Fold(step, t, message)
    ensures s == t
    decreases |message|
  {
    if message != [] {
      FoldInjective(step, s, t, message[..|message| - 1]);
    }
  }

  // ----- The step of the program -----

  type Step = (bv32, bv8) -> bv32

  function TableStep(c: bv32, byte: bv8): bv32 {
    (c >> 8) ^ CRCTable((c & 0xFF) as bv8 ^ byte)
  }

  const START: bv32 := 0xFFFFFFFF

  function Inverted(c: bv32): bv32 {
    c ^ 0xFFFFFFFF
  }

  function Crc32(message: seq<bv8>): bv32 {
    Inverted(Fold(TableStep, START, message))
  }

  ghost predicate ShiftsByte(step: Step) {
    forall x: bv32, c: bv32, byte: bv8 :: Sum(x, c, byte as bv32) ==> step(c, byte) == Shifted(x, BITS)
  }

  lemma LowByte(c: bv32, byte: bv8)
    ensures c ^ (byte as bv32) == (((c & 0xFF) as bv8 ^ byte) as bv32) ^ (c & 0xFFFFFF00)
  {
  }

  lemma HighBytes(c: bv32)
    ensures (c & 0xFFFFFF00) & 0xFF == 0 && (c & 0xFFFFFF00) >> 8 == c >> 8
  {
  }

  lemma TableStepShifts(c: bv32, byte: bv8)
    ensures TableStep(c, byte) == Shifted(c ^ (byte as bv32), BITS)
  {
    var index, high := (c & 0xFF) as bv8 ^ byte, c & 0xFFFFFF00;
    LowByte(c, byte);
    HighBytes(c);
    SplitShifts(c ^ (byte as bv32), index as bv32, high);
    TableStepSum(c, byte, index);
    SameSum(TableStep(c, byte), Shifted(c ^ (byte as bv32), BITS), Eight(index as bv32), c >> 8);
  }

  lemma TableStepSum(c: bv32, byte: bv8, index: bv8)
    requires index == (c & 0xFF) as bv8 ^ byte
    ensures Sum(TableStep(c, byte), Eight(index as bv32), c >> 8)
  {
    TableExact(index);
    Commuted(CRCTable(index), c >> 8);
  }

  lemma SameSum(x: bv32, y: bv32, a: bv32, b: bv32)
    requires Sum(x, a, b) && Sum(y, a, b)
    ensures x == y
  {
  }

  lemma SplitShifts(x: bv32, low: bv32, high: bv32)
    requires Sum(x, low, high) && high & 0xFF == 0
    ensures Sum(Shifted(x, BITS), Eight(low), high >> 8)
  {
    EightZero(high);
    Carry(x, low, high, BITS);
    EightRest(high);
    EightShifts(low);
  }

  lemma Commuted(a: bv32, b: bv32)
    ensures a ^ b == b ^ a
  {
  }

  lemma TableShiftsByte()
    ensures ShiftsByte(TableStep)
  {
    forall c: bv32, byte: bv8
      ensures TableStep(c, byte) == Shifted(c ^ (byte as bv32), BITS)
    {
      TableStepShifts(c, byte);
    }
  }

  // ----- Against the reference -----

  function MessageBits(message: seq<bv8>): seq<bool> {
    if message == [] then []
    else MessageBits(message[..|message| - 1]) + Bits(message[|message| - 1] as bv32, BITS)
  }

  lemma ByteHasNoRest(byte: bv8)
    ensures Rest(byte as bv32, BITS) == 0
  {
    EightRest(byte as bv32);
  }

  lemma ByteSerial(step: Step, c: bv32, byte: bv8)
    requires ShiftsByte(step)
    ensures step(c, byte) == BitCrc(c, Bits(byte as bv32, BITS))
  {
    var w := byte as bv32;
    Serial(c ^ w, c, w, BITS);
    ByteHasNoRest(byte);
    NoRest(step(c, byte), BitCrc(c, Bits(w, BITS)), Rest(w, BITS));
  }

  lemma NoRest(x: bv32, a: bv32, b: bv32)
    requires Sum(x, a, b) && b == 0
    ensures x == a
  {
  }

  lemma {:induction false} FoldIsBitwise(step: Step, c: bv32, message: seq<bv8>)
    requires ShiftsByte(step)
    ensures Fold(step, c, message) == BitCrc(c, MessageBits(message))
    decreases |message|
  {
    if message == [] {
      return;
    }
    var front, last := message[..|message| - 1], message[|message| - 1];
    FoldIsBitwise(step, c, front);
    ByteSerial(step, Fold(step, c, front), last);
    BitCrcConcat(c, MessageBits(front), Bits(last as bv32, BITS));
  }

  /** The table-driven CRC is the bit-at-a-time reflected one, on every message. */
  lemma Crc32IsBitwise(message: seq<bv8>)
    ensures Crc32(message) == Inverted(BitCrc(START, MessageBits(message)))
  {
    TableShiftsByte();
    FoldIsBitwise(TableStep, START, message);
  }

  // ----- Bursts -----

  lemma StepAs(step: Step, c: bv32, byte: bv8, w: bv32, x: bv32)
    requires ShiftsByte(step) && w == byte as bv32 && Sum(x, c, w)
    ensures step(c, byte) == Shifted(x, BITS)
  {
  }

  lemma Cancel(x: bv32, a: bv32, b: bv32, w: bv32)
    requires Sum(x, a, w) && Sum(x, b, w)
    ensures a == b
  {
  }

  lemma StepInjective(step: Step, s: bv32, t: bv32, byte: bv8, w: bv32, x: bv32, y: bv32)
    requires ShiftsByte(step) && step(s, byte) == step(t, byte)
    requires w == byte as bv32 && Sum(x, s, w) && Sum(y, t, w)
    ensures s == t
  {
    StepAs(step, s, byte, w, x);
    StepAs(step, t, byte, w, y);
    ShiftedInjective(x, y, BITS);
    Cancel(x, s, t, w);
  }

  lemma ShiftsKeepApart(step: Step)
    requires ShiftsByte(step)
    ensures KeepsApart(step)
  {
    forall s, t, b | step(s, b) == step(t, b)
      ensures s == t
    {
      StepInjective(step, s, t, b, b as bv32, s ^ (b as bv32), t ^ (b as bv32));
    }
  }

  // A byte fed later may go in now, eight bits higher.
  lemma Deferred(x: bv32, c: bv32, w: bv32, high: bv32)
    requires high == w << 8 && high >> 8 == w && Sum(x, c, high)
    ensures Sum(Shifted(x, BITS), Shifted(c, BITS), w)
  {
    HighClear(w);
    EightZero(high);
    Carry(x, c, high, BITS);
    EightRest(high);
  }

  lemma HighClear(w: bv32)
    ensures (w << 8) & 0xFF == 0
  {
  }

  // A byte below a word, little-endian.
  function Push(byte: bv8, w: bv32): bv32 {
    (byte as bv32) ^ (w << 8)
  }

  lemma PushWord(byte: bv8, w: bv32)
    requires w < 0x1000000
    ensures (w << 8) >> 8 == w
  {
  }

  lemma PushTwo(byte: bv8, w: bv32)
    requires w < 0x100
    ensures Push(byte, w) < 0x10000
  {
  }

  lemma PushThree(byte: bv8, w: bv32)
    requires w < 0x10000
    ensures Push(byte, w) < 0x1000000
  {
  }

  lemma PushInjective(a: bv8, v: bv32, b: bv8, w: bv32)
    requires v < 0x1000000 && w < 0x1000000 && Push(a, v) == Push(b, w)
    ensures a == b && v == w
  {
    Pushed(a, v);
    Pushed(b, w);
  }

  lemma Pushed(byte: bv8, w: bv32)
    requires w < 0x1000000
    ensures (Push(byte, w) & 0xFF) as bv8 == byte && Push(byte, w) >> 8 == w
  {
  }

  function Word(a: seq<bv8>): bv32
    requires |a| == 4
  {
    Push(a[0], Push(a[1], Push(a[2], a[3] as bv32)))
  }

  lemma WordBounds(a: seq<bv8>)
    requires |a| == 4
    ensures Push(a[2], a[3] as bv32) < 0x10000 && Push(a[1], Push(a[2], a[3] as bv32)) < 0x1000000
  {
    PushTwo(a[2], a[3] as bv32);
    PushThree(a[1], Push(a[2], a[3] as bv32));
  }

  lemma WordInjective(a: seq<bv8>, b: seq<bv8>)
    requires |a| == |b| == 4 && Word(a) == Word(b)
    ensures a == b
  {
    WordBounds(a);
    WordBounds(b);
    PushInjective(a[0], Push(a[1], Push(a[2], a[3] as bv32)), b[0], Push(b[1], Push(b[2], b[3] as bv32)));
    PushInjective(a[1], Push(a[2], a[3] as bv32), b[1], Push(b[2], b[3] as bv32));
    PushInjective(a[2], a[3] as bv32, b[2], b[3] as bv32);
  }

  predicate Pushes(v: bv32, byte: bv8, w: bv32) {
    w < 0x1000000 && v == Push(byte, w)
  }

  // Feeding a byte and then w is feeding v, which holds both.
  lemma TwoSteps(step: Step, u: bv32, y: bv32, c: bv32, byte: bv8, w: bv32, v: bv32)
    requires ShiftsByte(step) && Pushes(v, byte, w)
    requires Sum(u, step(c, byte), w) && Sum(y, c, v)
    ensures u == Shifted(y, BITS)
  {
    PushWord(byte, w);
    TwoStepsAs(step, u, y, c, byte, byte as bv32, w, v, w << 8, c ^ (byte as bv32));
  }

  lemma TwoStepsAs(step: Step, u: bv32, y: bv32, c: bv32, byte: bv8, b: bv32, w: bv32, v: bv32, high: bv32, x: bv32)
    requires ShiftsByte(step) && b == byte as bv32 && high == w << 8 && high >> 8 == w
    requires Sum(u, step(c, byte), w) && Sum(v, b, high) && Sum(y, c, v) && Sum(x, c, b)
    ensures u == Shifted(y, BITS)
  {
    StepAs(step, c, byte, b, x);
    Regrouped(y, c, v, b, high, x);
    Deferred(y, x, w, high);
    SameSum(u, Shifted(y, BITS), Shifted(x, BITS), w);
  }

  lemma Regrouped(y: bv32, c: bv32, v: bv32, b: bv32, high: bv32, x: bv32)
    requires Sum(v, b, high) && Sum(y, c, v) && Sum(x, c, b)
    ensures Sum(y, x, high)
  {
  }

  function Shifted4(c: bv32): bv32 {
    Shifted(Shifted(Shifted(Shifted(c, BITS), BITS), BITS), BITS)
  }

  lemma {:induction false} Shifted4Injective(x: bv32, y: bv32)
    requires Shifted4(x) == Shifted4(y)
    ensures x == y
  {
    var x1, y1 := Shifted(x, BITS), Shifted(y, BITS);
    var x2, y2 := Shifted(x1, BITS), Shifted(y1, BITS);
    ShiftedInjective(Shifted(x2, BITS), Shifted(y2, BITS), BITS);
    ShiftedInjective(x2, y2, BITS);
    ShiftedInjective(x1, y1, BITS);
    ShiftedInjective(x, y, BITS);
  }

  // Four bytes go in as one word, and are shifted out together.
  lemma FourSteps(step: Step, c: bv32, a: seq<bv8>) returns (y: bv32)
    requires ShiftsByte(step) && |a| == 4
    ensures Sum(y, c, Word(a)) && Fold(step, c, a) == Shifted4(y)
  {
    FoldFour(step, c, a);
    WordBounds(a);
    var c1 := step(c, a[0]);
    var c2 := step(c1, a[1]);
    var c3 := step(c2, a[2]);
    var v3 := a[3] as bv32;
    var v2 := Push(a[2], v3);
    var v1 := Push(a[1], v2);
    y := c ^ Word(a);
    FourStepsAs(step, c, c1, c2, c3, a[0], a[1], a[2], a[3], v3, v2, v1, Word(a), y, c1 ^ v1, c2 ^ v2, c3 ^ v3);
  }

  lemma FourStepsAs(step: Step, c: bv32, c1: bv32, c2: bv32, c3: bv32, a0: bv8, a1: bv8, a2: bv8, a3: bv8,
                    v3: bv32, v2: bv32, v1: bv32, v: bv32, y: bv32, y1: bv32, y2: bv32, y3: bv32)
    requires ShiftsByte(step)
    requires c1 == step(c, a0) && c2 == step(c1, a1) && c3 == step(c2, a2) && v3 == a3 as bv32
    requires Pushes(v2, a2, v3) && Pushes(v1, a1, v2) && Pushes(v, a0, v1)
    requires Sum(y, c, v) && Sum(y1, c1, v1) && Sum(y2, c2, v2) && Sum(y3, c3, v3)
    ensures step(c3, a3) == Shifted4(y)
  {
    StepAs(step, c3, a3, v3, y3);
    TwoSteps(step, y3, y2, c2, a2, v3, v2);
    TwoSteps(step, y2, y1, c1, a1, v2, v1);
    TwoSteps(step, y1, y, c, a0, v1, v);
  }

  lemma FourInjective(step: Step, c: bv32, a: seq<bv8>, b: seq<bv8>)
    requires ShiftsByte(step)
    requires |a| == |b| == 4 && Fold(step, c, a) == Fold(step, c, b)
    ensures a == b
  {
    var x := FourSteps(step, c, a);
    var y := FourSteps(step, c, b);
    Shifted4Injective(x, y);
    CancelLeft(x, c, Word(a), Word(b));
    WordInjective(a, b);
  }

  lemma CancelLeft(x: bv32, c: bv32, a: bv32, b: bv32)
    requires Sum(x, c, a) && Sum(x, c, b)
    ensures a == b
  {
  }

  // Four bytes or fewer.
  lemma ShortInjective(step: Step, c: bv32, a: seq<bv8>, b: seq<bv8>)
    requires ShiftsByte(step)
    requires |a| == |b| <= 4 && Fold(step, c, a) == Fold(step, c, b)
    ensures a == b
  {
    var pad := seq(4 - |a|, i => 0);
    FoldConcat(step, c, a, pad);
    FoldConcat(step, c, b, pad);
    FourInjective(step, c, a + pad, b + pad);
    assert a == (a + pad)[..|a|] && b == (b + pad)[..|b|];
  }

  lemma BurstFolds(step: Step, c: bv32, front: seq<bv8>, a: seq<bv8>, b: seq<bv8>, back: seq<bv8>)
    requires ShiftsByte(step)
    requires |a| == |b| <= 4 && Fold(step, c, front + a + back) == Fold(step, c, front + b + back)
    ensures a == b
  {
    FoldConcat(step, c, front + a, back);
    FoldConcat(step, c, front + b, back);
    ShiftsKeepApart(step);
    FoldInjective(step, Fold(step, c, front + a), Fold(step, c, front + b), back);
    FoldConcat(step, c, front, a);
    FoldConcat(step, c, front, b);
    ShortInjective(step, Fold(step, c, front), a, b);
  }

  // Two messages that agree outside the bytes from i to j.
  predicate Agree(a: seq<bv8>, b: seq<bv8>, i: nat, j: nat) {
    |a| == |b| && i <= j <= |a| && a[..i] == b[..i] && a[j..] == b[j..]
  }

  lemma BurstAgrees(step: Step, c: bv32, a: seq<bv8>, b: seq<bv8>, i: nat, j: nat)
    requires ShiftsByte(step)
    requires Agree(a, b, i, j) && j - i <= 4 && Fold(step, c, a) == Fold(step, c, b)
    ensures a == b
  {
    InThree(a, i, j);
    InThree(b, i, j);
    BurstFolds(step, c, a[..i], a[i..j], b[i..j], a[j..]);
  }

  lemma InThree(a: seq<bv8>, i: nat, j: nat)
    requires i <= j <= |a|
    ensures a == a[..i] + a[i..j] + a[j..]
  {
  }

  /** Messages that differ only within four consecutive bytes have the same CRC only if they are the same. */
  lemma BurstExact(a: seq<bv8>, b: seq<bv8>, i: nat, j: nat)
    requires Agree(a, b, i, j) && j - i <= 4
    ensures Crc32(a) == Crc32(b) <==> a == b
  {
    if Crc32(a) == Crc32(b) {
      TableShiftsByte();
      InvertInjective(Fold(TableStep, START, a), Fold(TableStep, START, b));
      BurstAgrees(TableStep, START, a, b, i, j);
    }
  }

  lemma InvertInjective(x: bv32, y: bv32)
    requires Inverted(x) == Inverted(y)
    ensures x == y
  {
  }

  // ----- The check value -----

  // The register behind the first k bytes.
  predicate RegisterAt(message: seq<bv8>, k: nat, c: bv32) {
    k <= |message| && Fold(TableStep, START, message[..k]) == c
  }

  lemma FoldOn(message: seq<bv8>, k: nat, next: nat, c: bv32, byte: bv8, d: bv32)
    requires RegisterAt(message, k, c) && k < |message| && message[k] == byte && next == k + 1 && TableStep(c, byte) == d
    ensures RegisterAt(message, next, d)
  {
    assert message[..next][..k] == message[..k];
  }

  lemma Digit1(digits: seq<bv8>)
    requires RegisterAt(digits, 0, 0xFFFFFFFF) && |digits| == 9 && digits[0] == 0x31
    ensures RegisterAt(digits, 1, 0x7C231048)
  {
    FoldOn(digits, 0, 1, 0xFFFFFFFF, 0x31, 0x7C231048);
  }

  lemma Digit2(digits: seq<bv8>)
    requires RegisterAt(digits, 1, 0x7C231048) && |digits| == 9 && digits[1] == 0x32
    ensures RegisterAt(digits, 2, 0xB0ACBB32)
  {
    FoldOn(digits, 1, 2, 0x7C231048, 0x32, 0xB0ACBB32);
  }

  lemma Digit3(digits: seq<bv8>)
    requires RegisterAt(digits, 2, 0xB0ACBB32) && |digits| == 9 && digits[2] == 0x33
    ensures RegisterAt(digits, 3, 0x77B79C2D)
  {
    FoldOn(digits, 2, 3, 0xB0ACBB32, 0x33, 0x77B79C2D);
  }

  lemma Digit4(digits: seq<bv8>)
    requires RegisterAt(digits, 3, 0x77B79C2D) && |digits| == 9 && digits[3] == 0x34
    ensures RegisterAt(digits, 4, 0x641C1F5C)
  {
    FoldOn(digits, 3, 4, 0x77B79C2D, 0x34, 0x641C1F5C);
  }

  lemma Digit5(digits: seq<bv8>)
    requires RegisterAt(digits, 4, 0x641C1F5C) && |digits| == 9 && digits[4] == 0x35
    ensures RegisterAt(digits, 5, 0x340AC5E3)
  {
    FoldOn(digits, 4, 5, 0x641C1F5C, 0x35, 0x340AC5E3);
  }

  lemma Digit6(digits: seq<bv8>)
    requires RegisterAt(digits, 5, 0x340AC5E3) && |digits| == 9 && digits[5] == 0x36
    ensures RegisterAt(digits, 6, 0xF68D2C9E)
  {
    FoldOn(digits, 5, 6, 0x340AC5E3, 0x36, 0xF68D2C9E);
  }

  lemma Digit7(digits: seq<bv8>)
    requires RegisterAt(digits, 6, 0xF68D2C9E) && |digits| == 9 && digits[6] == 0x37
    ensures RegisterAt(digits, 7, 0xAFFC9660)
  {
    FoldOn(digits, 6, 7, 0xF68D2C9E, 0x37, 0xAFFC9660);
  }

  lemma Digit8(digits: seq<bv8>)
    requires RegisterAt(digits, 7, 0xAFFC9660) && |digits| == 9 && digits[7] == 0x38
    ensures RegisterAt(digits, 8, 0x651F2550)
  {
    FoldOn(digits, 7, 8, 0xAFFC9660, 0x38, 0x651F2550);
  }

  lemma Digit9(digits: seq<bv8>)
    requires RegisterAt(digits, 8, 0x651F2550) && |digits| == 9 && digits[8] == 0x39
    ensures RegisterAt(digits, 9, 0x340BC6D9)
  {
    FoldOn(digits, 8, 9, 0x651F2550, 0x39, 0x340BC6D9);
  }

  predicate NineDigits(digits: seq<bv8>) {
    digits == [0x31, 0x32, 0x33, 0x34, 0x35, 0x36, 0x37, 0x38, 0x39]
  }

  lemma FiveDigits(digits: seq<bv8>)
    requires NineDigits(digits)
    ensures RegisterAt(digits, 5, 0x340AC5E3)
  {
    assert digits[..0] == [];
    Digit1(digits);
    Digit2(digits);
    Digit3(digits);
    Digit4(digits);
    Digit5(digits);
  }

  lemma FourMore(digits: seq<bv8>)
    requires NineDigits(digits) && RegisterAt(digits, 5, 0x340AC5E3)
    ensures RegisterAt(digits, 9, 0x340BC6D9)
  {
    Digit6(digits);
    Digit7(digits);
    Digit8(digits);
    Digit9(digits);
  }

  /** The nine digits "123456789" have the check value of CRC-32. */
  lemma CheckValue(digits: seq<bv8>)
    requires NineDigits(digits)
    ensures Crc32(digits) == 0xCBF43926
  {
    FiveDigits(digits);
    FourMore(digits);
    assert digits[..9] == digits;
  }
}
