// C's bitwise operators on unsigned words, as functions on natural numbers.

module Word {

  // Bit k of a.
  predicate Bit(a: nat, k: nat) {
    if k == 0 then a % 2 == 1 else Bit(a / 2, k - 1)
  }

  // a & b
  function And(a: nat, b: nat): nat {
    if a == 0 || b == 0 then 0
    else 2 * And(a / 2, b / 2) + (if a % 2 == 1 && b % 2 == 1 then 1 else 0)
  }

  // a | b
  function Or(a: nat, b: nat): nat {
    if a == 0 then b else if b == 0 then a
    else 2 * Or(a / 2, b / 2) + (if a % 2 == 1 || b % 2 == 1 then 1 else 0)
  }

  const MAX64: nat := 0xffff_ffff_ffff_ffff

  // ~a on uint64_t
  function Complement(a: nat): nat {
    if a <= MAX64 then MAX64 - a else 0
  }

  // The complement digit by digit, within `width` bits.
  function Not(a: nat, width: nat): nat {
    if width == 0 then 0
    else 2 * Not(a / 2, width - 1) + (if a % 2 == 1 then 0 else 1)
  }

  // a << n
  function Shl(a: nat, n: nat): nat {
    if n == 0 then a else 2 * Shl(a, n - 1)
  }

  // a >> n
  function Shr(a: nat, n: nat): nat {
    if n == 0 then a else Shr(a / 2, n - 1)
  }

  // The word with exactly the bits below n.
  function Ones(n: nat): nat {
    if n == 0 then 0 else 2 * Ones(n - 1) + 1
  }

  lemma {:induction false} ZeroBit(k: nat)
    ensures !Bit(0, k)
  {
    if k > 0 {
      ZeroBit(k - 1);
    }
  }

  lemma {:induction false} AndBit(a: nat, b: nat, k: nat)
    ensures Bit(And(a, b), k) == (Bit(a, k) && Bit(b, k))
    decreases k
  {
    if a == 0 || b == 0 {
      ZeroBit(k);
    } else if k > 0 {
      AndBit(a / 2, b / 2, k - 1);
    }
  }

  lemma {:induction false} OrBit(a: nat, b: nat, k: nat)
    ensures Bit(Or(a, b), k) == (Bit(a, k) || Bit(b, k))
    decreases k
  {
    if a == 0 || b == 0 {
      ZeroBit(k);
    } else if k > 0 {
      OrBit(a / 2, b / 2, k - 1);
    }
  }

  lemma {:induction false} NotBit(a: nat, width: nat, k: nat)
    ensures Bit(Not(a, width), k) == (k < width && !Bit(a, k))
    decreases k
  {
    if width == 0 {
      ZeroBit(k);
    } else if k > 0 {
      NotBit(a / 2, width - 1, k - 1);
    }
  }

  lemma {:induction false} OnesBit(n: nat, k: nat)
    ensures Bit(Ones(n), k) == (k < n)
    decreases k
  {
    if n == 0 {
      ZeroBit(k);
    } else if k > 0 {
      OnesBit(n - 1, k - 1);
    }
  }

  lemma {:induction false} ShlBit(a: nat, n: nat, k: nat)
    ensures Bit(Shl(a, n), k) == (k >= n && Bit(a, k - n))
    decreases n
  {
    if n > 0 && k > 0 {
      ShlBit(a, n - 1, k - 1);
    }
  }

  lemma {:induction false} ShrBit(a: nat, n: nat, k: nat)
    ensures Bit(Shr(a, n), k) == Bit(a, n + k)
    decreases n
  {
    if n > 0 {
      ShrBit(a / 2, n - 1, k);
    }
  }

  /** Two words with the same bits are equal. */
  lemma {:induction false} SameBits(a: nat, b: nat)
    requires forall k: nat :: Bit(a, k) == Bit(b, k)
    ensures a == b
    decreases a + b
  {
    assert Bit(a, 0) == Bit(b, 0);
    if a + b > 0 {
      forall k: nat
        ensures Bit(a / 2, k) == Bit(b / 2, k)
      {
        assert Bit(a, k + 1) == Bit(b, k + 1);
      }
      SameBits(a / 2, b / 2);
    }
  }

  /** Masking with the low n bits is the remainder by 2^n. */
  lemma {:induction false} AndOnes(a: nat, n: nat)
    ensures And(a, Ones(n)) == a % (Ones(n) + 1)
    decreases n
  {
    if n > 0 {
      AndOnes(a / 2, n - 1);
      assert Ones(n) / 2 == Ones(n - 1);
      AppendBit(a, Ones(n - 1) + 1);
    }
  }

  lemma AppendBit(b: nat, p: nat)
    requires p > 0
    ensures b % (2 * p) == 2 * (b / 2 % p) + b % 2
  {
    var q, r := b / 2 / p, b / 2 % p;
    assert b / 2 == p * q + r;
    MulAssociates(p, q);
    RemainderUnique(b, 2 * p, q, 2 * r + b % 2);
  }

  lemma MulAssociates(p: nat, q: nat)
    ensures 2 * (p * q) == (2 * p) * q
  {
  }

  lemma RemainderUnique(a: nat, d: nat, q: nat, r: nat)
    requires r < d && a == d * q + r
    ensures a % d == r
  {
    var q' := a / d;
    if q < q' {
      MulMonotone(d, q + 1, q');
      assert false;
    } else if q' < q {
      MulMonotone(d, q' + 1, q);
      assert false;
    }
  }

  lemma MulMonotone(d: nat, x: nat, y: nat)
    requires x <= y
    ensures d * x <= d * y
  {
  }

  lemma {:induction false} ShrAdd(a: nat, m: nat, n: nat)
    ensures Shr(a, m + n) == Shr(Shr(a, m), n)
    decreases m
  {
    if m > 0 {
      ShrAdd(a / 2, m - 1, n);
    }
  }

  lemma ShrStep(a: nat, n: nat, rest: nat)
    requires n == rest + 1
    ensures Shr(a, n) == Shr(a / 2, rest)
  {
  }

  lemma ShrByThree(a: nat)
    ensures Shr(a, 3) == a / 8
  {
    ShrStep(a, 3, 2);
    ShrStep(a / 2, 2, 1);
    ShrStep(a / 2 / 2, 1, 0);
  }

  /** Shifting by a page or by a table index is division. */
  lemma ShrIsDivision(a: nat)
    ensures Shr(a, 9) == a / 512
    ensures Shr(a, 12) == a / 4096
  {
    ShrAdd(a, 3, 3);
    ShrAdd(a, 6, 3);
    ShrAdd(a, 9, 3);
    ShrByThree(a);
    ShrByThree(a / 8);
    ShrByThree(a / 64);
    ShrByThree(a / 512);
  }

  lemma {:induction false} ShlAdd(a: nat, m: nat, n: nat)
    ensures Shl(a, m + n) == Shl(Shl(a, m), n)
    decreases n
  {
    if n > 0 {
      ShlAdd(a, m, n - 1);
    }
  }

  lemma {:induction false} ShlOne(a: nat, n: nat)
    ensures Shl(a, n) == a * (Ones(n) + 1)
    decreases n
  {
    if n > 0 {
      ShlOne(a, n - 1);
      MulAssociates(a, Ones(n - 1) + 1);
    }
  }

  lemma {:induction false} OnesAdd(m: nat, n: nat)
    ensures Ones(m + n) == Shl(Ones(m), n) + Ones(n)
    decreases n
  {
    if n > 0 {
      OnesAdd(m, n - 1);
    }
  }

  lemma ShlConstant(a: nat)
    ensures Shl(a, 10) == a * 1024
    ensures Shl(a, 2) == a * 4
  {
    assert Ones(2) == 3;
    assert Ones(10) == 1023;
    ShlOne(a, 2);
    ShlOne(a, 10);
  }

  // The masks and sizes of the machine's fields.
  lemma OnesValues()
    ensures Ones(9) == 0x1ff && Ones(12) == 0xfff && Ones(40) == 0xff_ffff_ffff
  {
    assert Ones(10) == 0x3ff;
    OnesAdd(10, 10);
    OnesAdd(20, 10);
    OnesAdd(30, 10);
    ShlConstant(Ones(10));
    ShlConstant(Ones(20));
    ShlConstant(Ones(30));
  }

  /** Shifting left by twelve multiplies by the page size. */
  lemma ShlPage(a: nat)
    ensures Shl(a, 12) == a * 4096
  {
    ShlAdd(a, 10, 2);
    ShlConstant(a);
    ShlConstant(a * 1024);
  }

  lemma {:induction false} NotIsComplement(a: nat, width: nat)
    requires a <= Ones(width)
    ensures Not(a, width) == Ones(width) - a
  {
    if width > 0 {
      NotIsComplement(a / 2, width - 1);
    }
  }

  lemma OnesMonotone(m: nat, n: nat)
    requires m <= n
    ensures Ones(m) <= Ones(n)
    decreases n
  {
    if m < n {
      OnesMonotone(m, n - 1);
    }
  }

  lemma MaxIsOnes()
    ensures Ones(64) == MAX64
  {
    OnesValues();
    OnesAdd(40, 12);
    OnesAdd(52, 12);
    ShlPage(Ones(40));
    ShlPage(Ones(52));
  }

  /** The two forms of the complement agree: it flips each of the 64 bits. */
  lemma ComplementBit(a: nat, k: nat)
    requires a <= MAX64
    ensures Bit(Complement(a), k) == (k < 64 && !Bit(a, k))
  {
    MaxIsOnes();
    NotIsComplement(a, 64);
    NotBit(a, 64, k);
  }

  lemma PowerFits(n: nat)
    requires n < 64
    ensures Shl(1, n) <= MAX64
  {
    ShlOne(1, n);
    OnesMonotone(n + 1, 64);
    MaxIsOnes();
  }
}
