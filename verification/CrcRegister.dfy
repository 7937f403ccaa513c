// The CRC-32 shift register: gnu-efi/lib/crc.c.

module CrcRegister {
  import opened CrcTable

  // The bits of a byte.
  const BITS: nat := 8

  // n bits at once.
  function Shifted(c: bv32, n: nat): bv32
    decreases n
  {
    if n == 0 then c else Shifted(Shift(c), n - 1)
  }

  // What is left of w behind its n lowest bits, and whether these are all zero.
  function Rest(w: bv32, n: nat): bv32
    decreases n
  {
    if n == 0 then w else Rest(w >> 1, n - 1)
  }

  predicate LowZero(w: bv32, n: nat)
    decreases n
  {
    n == 0 || (w & 1 == 0 && LowZero(w >> 1, n - 1))
  }

  predicate Sum(x: bv32, a: bv32, b: bv32) {
    x == a ^ b
  }

  // An even word does not change which way the register is shifted.
  lemma SameWay(x: bv32, a: bv32, b: bv32)
    requires b & 1 == 0 && Sum(x, a, b)
    ensures x & 1 == a & 1
  {
  }

  lemma SumDown(x: bv32, a: bv32, b: bv32)
    requires Sum(x, a, b)
    ensures Sum(x >> 1, a >> 1, b >> 1)
  {
  }

  lemma SumWith(x: bv32, a: bv32, b: bv32, y: bv32)
    requires Sum(x, a, b)
    ensures Sum(x ^ y, a ^ y, b)
  {
  }

  lemma ShiftEven(x: bv32, a: bv32, b: bv32)
    requires b & 1 == 0 && Sum(x, a, b)
    ensures Sum(Shift(x), Shift(a), b >> 1)
  {
    SameWay(x, a, b);
    SumDown(x, a, b);
    if a & 1 == 1 {
      SumWith(x >> 1, a >> 1, b >> 1, POLYNOMIAL);
      BothOdd(x, a, b >> 1);
    } else {
      BothEven(x, a, b >> 1);
    }
  }

  lemma BothOdd(x: bv32, a: bv32, rest: bv32)
    requires x & 1 == 1 && a & 1 == 1 && Sum((x >> 1) ^ POLYNOMIAL, (a >> 1) ^ POLYNOMIAL, rest)
    ensures Sum(Shift(x), Shift(a), rest)
  {
  }

  lemma BothEven(x: bv32, a: bv32, rest: bv32)
    requires x & 1 != 1 && a & 1 != 1 && Sum(x >> 1, a >> 1, rest)
    ensures Sum(Shift(x), Shift(a), rest)
  {
  }

  /** Bits not yet at the low end just move down. */
  lemma {:induction false} Carry(x: bv32, a: bv32, b: bv32, n: nat)
    requires LowZero(b, n) && Sum(x, a, b)
    ensures Sum(Shifted(x, n), Shifted(a, n), Rest(b, n))
    decreases n
  {
    if n == 0 {
      return;
    }
    ShiftEven(x, a, b);
    var s, t, h := Shift(x), Shift(a), b >> 1;
    Carry(s, t, h, n - 1);
    assert Shifted(x, n) == Shifted(s, n - 1);
    assert Shifted(a, n) == Shifted(t, n - 1);
    assert Rest(b, n) == Rest(h, n - 1);
  }

  lemma EightShifts(w: bv32)
    ensures Shifted(w, BITS) == Eight(w)
  {
  }

  lemma EightRest(w: bv32)
    ensures Rest(w, BITS) == w >> 8
  {
  }

  lemma EightZero(w: bv32)
    requires w & 0xFF == 0
    ensures LowZero(w, BITS)
  {
  }

  // ----- Shift is a bijection -----

  function Unshift(c: bv32): bv32 {
    if c & 0x80000000 != 0 then ((c ^ POLYNOMIAL) << 1) | 1 else c << 1
  }

  lemma UnshiftExact(c: bv32)
    ensures Unshift(Shift(c)) == c
  {
    if c & 1 == 1 {
      OddHigh(c);
      OddBack(c);
    } else {
      EvenHigh(c);
      EvenBack(c);
    }
  }

  lemma OddHigh(c: bv32)
    ensures ((c >> 1) ^ POLYNOMIAL) & 0x80000000 != 0
  {
  }

  lemma OddBack(c: bv32)
    requires c & 1 == 1
    ensures ((((c >> 1) ^ POLYNOMIAL) ^ POLYNOMIAL) << 1) | 1 == c
  {
  }

  lemma EvenHigh(c: bv32)
    ensures (c >> 1) & 0x80000000 == 0
  {
  }

  lemma EvenBack(c: bv32)
    requires c & 1 != 1
    ensures (c >> 1) << 1 == c
  {
  }

  lemma {:induction false} ShiftedInjective(a: bv32, b: bv32, n: nat)
    requires Shifted(a, n) == Shifted(b, n)
    ensures a == b
    decreases n
  {
    if n == 0 {
      return;
    }
    var s, t := Shift(a), Shift(b);
    ShiftedInjective(s, t, n - 1);
    UnshiftExact(a);
    UnshiftExact(b);
  }

  // ----- The reference: one bit at a time -----

  function BitStep(c: bv32, bit: bool): bv32 {
    if bit then Shift(c ^ 1) else Shift(c)
  }

  function BitCrc(c: bv32, bits: seq<bool>): bv32
    decreases |bits|
  {
    if bits == [] then c else BitCrc(BitStep(c, bits[0]), bits[1..])
  }

  // The n low bits, lowest first.
  function Bits(w: bv32, n: nat): seq<bool>
    decreases n
  {
    if n == 0 then [] else [w & 1 == 1] + Bits(w >> 1, n - 1)
  }

  lemma {:induction false} BitCrcConcat(c: bv32, a: seq<bool>, b: seq<bool>)
    ensures BitCrc(c, a + b) == BitCrc(BitCrc(c, a), b)
    decreases |a|
  {
    if a == [] {
      assert a + b == b;
    } else {
      assert (a + b)[1..] == a[1..] + b;
      BitCrcConcat(BitStep(c, a[0]), a[1..], b);
    }
  }

  // The lowest bit of w goes in now, the others later.
  lemma OneBit(x: bv32, c: bv32, w: bv32)
    requires Sum(x, c, w)
    ensures Sum(Shift(x), BitStep(c, w & 1 == 1), w >> 1)
  {
    if w & 1 == 1 {
      OddBit(x, c, w, c ^ 1, w ^ 1, w >> 1);
    } else {
      ZeroBit(w);
      ShiftEven(x, c, w);
    }
  }

  lemma OddBit(x: bv32, c: bv32, w: bv32, c': bv32, w': bv32, rest: bv32)
    requires Sum(x, c, w) && w & 1 == 1 && c' == c ^ 1 && w' == w ^ 1 && rest == w >> 1
    ensures Sum(Shift(x), Shift(c'), rest)
  {
    Regroup(x, c, w, c', w', 1);
    OneOff(w, w', rest);
    ShiftEven(x, c', w');
  }

  lemma ZeroBit(w: bv32)
    requires w & 1 != 1
    ensures w & 1 == 0
  {
  }

  lemma OneOff(w: bv32, w': bv32, rest: bv32)
    requires w & 1 == 1 && w' == w ^ 1 && rest == w >> 1
    ensures w' & 1 == 0 && w' >> 1 == rest
  {
  }

  lemma Regroup(x: bv32, c: bv32, w: bv32, c': bv32, w': bv32, low: bv32)
    requires Sum(x, c, w) && c' == c ^ low && w' == w ^ low
    ensures Sum(x, c', w')
  {
  }

  /** Feeding bits one by one is xoring them in at once and shifting. */
  lemma {:induction false} Serial(x: bv32, c: bv32, w: bv32, n: nat)
    requires Sum(x, c, w)
    ensures Sum(Shifted(x, n), BitCrc(c, Bits(w, n)), Rest(w, n))
    decreases n
  {
    if n == 0 {
      return;
    }
    OneBit(x, c, w);
    var s, t, h := Shift(x), BitStep(c, w & 1 == 1), w >> 1;
    Serial(s, t, h, n - 1);
    assert Shifted(x, n) == Shifted(s, n - 1);
    assert Rest(w, n) == Rest(h, n - 1);
    assert Bits(w, n)[1..] == Bits(h, n - 1);
    assert BitCrc(c, Bits(w, n)) == BitCrc(t, Bits(h, n - 1));
  }
}
