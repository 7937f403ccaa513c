// The page bitmap: kernel/src/misc/bitmap/bitmap.cpp.

module Bitmaps {

  // The bit of a byte that stands for index k of its eight: the top bit first.
  function Selector(k: nat): bv8
    requires k < 8
  {
    0x80 >> k
  }

  predicate Tested(byte: bv8, k: nat)
    requires k < 8
  {
    byte & Selector(k) > 0
  }

  // `~0x80 >> k` on a 32-bit int: the operand is negative, so ones come in from the left.
  function ClearMask(k: nat): bv32
    requires k < 8
  {
    var operand: bv32 := !0x80;
    (operand >> k) | !(0xffff_ffff >> k)
  }

  // `byte &= mask`: the mask is an int, the result is truncated back to eight bits.
  function Cleared(byte: bv8, k: nat): bv8
    requires k < 8
  {
    ((byte as bv32 & ClearMask(k)) & 0xff) as bv8
  }

  function WithSelector(byte: bv8, k: nat): bv8
    requires k < 8
  {
    byte | Selector(k)
  }

  // What Set stores.
  function Stored(byte: bv8, k: nat, value: bool): bv8
    requires k < 8
  {
    if value then WithSelector(Cleared(byte, k), k) else Cleared(byte, k)
  }

  // The eight values of both shifts.
  lemma ShiftValues(k: nat)
    requires k < 8
    ensures Selector(k) == [0x80, 0x40, 0x20, 0x10, 0x08, 0x04, 0x02, 0x01][k]
    ensures ClearMask(k) & 0xff == [0x7f, 0xbf, 0xdf, 0xef, 0xf7, 0xfb, 0xfd, 0xfe][k]
  {
    if
    case k == 0 =>
    case k == 1 =>
    case k == 2 =>
    case k == 3 =>
    case k == 4 =>
    case k == 5 =>
    case k == 6 =>
    case k == 7 =>
  }

  lemma MaskedByte(byte: bv8, mask: bv32)
    ensures ((byte as bv32 & mask) & 0xff) as bv8 == byte & ((mask & 0xff) as bv8)
  {
  }

  /** The shifted negative mask clears exactly one bit of the byte: Set changes index k and no other. */
  lemma StoredExact(byte: bv8, k: nat, value: bool, j: nat)
    requires k < 8 && j < 8
    ensures Tested(Stored(byte, k, value), j) == (if j == k then value else Tested(byte, j))
  {
    ShiftValues(k);
    ShiftValues(j);
    MaskedByte(byte, ClearMask(k));
  }

  // Index i is bit i % 8 of byte i / 8.
  predicate At(bytes: seq<bv8>, i: nat)
    requires i < 8 * |bytes|
  {
    Tested(bytes[i / 8], i % 8)
  }

  // The packed bytes stand for the sequence of bits.
  ghost predicate Packs(bytes: seq<bv8>, bits: seq<bool>) {
    |bits| <= 8 * |bytes| && forall i {:trigger At(bytes, i)} :: 0 <= i < |bits| ==> bits[i] == At(bytes, i)
  }

  function Unpacked(bytes: seq<bv8>, count: nat): (bits: seq<bool>)
    requires count <= 8 * |bytes|
    ensures Packs(bytes, bits) && |bits| == count
  {
    seq(count, i requires 0 <= i < count => At(bytes, i))
  }

  /** Storing one index of the packed bytes is updating one element of the sequence. */
  lemma StoreIsUpdate(bytes: seq<bv8>, bits: seq<bool>, index: nat, value: bool)
    requires Packs(bytes, bits) && index < |bits|
    ensures Packs(bytes[index / 8 := Stored(bytes[index / 8], index % 8, value)], bits[index := value])
  {
    var after := bytes[index / 8 := Stored(bytes[index / 8], index % 8, value)];
    forall i | 0 <= i < |bits|
      ensures bits[index := value][i] == At(after, i)
    {
      StoredExact(bytes[index / 8], index % 8, value, i % 8);
      assert bits[i] == At(bytes, i);
    }
  }

  // The guards compare with `>`, so index Size * 8 passes them and reaches one
  // byte past the end; the model gives the buffer that byte.
  class Bitmap {
    const Size: nat
    const Address: nat
    const Buffer: array<bv8>
    // Bits 0 .. Size * 8, the last one in the byte past the end.
    ghost var Bits: seq<bool>

    ghost predicate Valid()
      reads this, Buffer
    {
      Buffer.Length == Size + 1 && |Bits| == 8 * Size + 1 && Packs(Buffer[..], Bits)
    }

    constructor (size: nat, address: nat, buffer: array<bv8>)
      requires buffer.Length == size + 1
      ensures Valid() && Size == size && Address == address && Buffer == buffer
      ensures Bits == Unpacked(buffer[..], 8 * size + 1)
    {
      Size := size;
      Address := address;
      Buffer := buffer;
      Bits := Unpacked(buffer[..], 8 * size + 1);
    }

    method Get(index: nat) returns (value: bool)
      requires Valid()
      ensures value == (index < |Bits| && Bits[index])
    {
      if index > Size * 8 {
        return false;
      }
      value := Tested(Buffer[index / 8], index % 8);
      assert value == At(Buffer[..], index);
    }

    method Set(index: nat, value: bool) returns (done: bool)
      requires Valid()
      modifies this`Bits, Buffer
      ensures Valid() && done == (index < |Bits|)
      ensures Bits == if done then old(Bits)[index := value] else old(Bits)
    {
      if index > Size * 8 {
        return false;
      }
      var j, k := index / 8, index % 8;
      ghost var before := Buffer[..];
      Buffer[j] := Cleared(Buffer[j], k);
      if value {
        Buffer[j] := WithSelector(Buffer[j], k);
      }
      assert Buffer[..] == before[j := Stored(before[j], k, value)];
      StoreIsUpdate(before, Bits, index, value);
      Bits := Bits[index := value];
      return true;
    }
  }
}
