// Sealing and checking UEFI table headers: gnu-efi/lib/crc.c.

module TableHeaders {
  import opened CrcTable
  import opened Crc

  // The CRC32 field of EFI_TABLE_HEADER (UEFI specification, section 4.2).
  const FIELD := 16
  const BEHIND := 20

  function Split(v: bv32): (r: seq<bv8>)
    ensures |r| == 4
  {
    [(v & 0xFF) as bv8, ((v >> 8) & 0xFF) as bv8, ((v >> 16) & 0xFF) as bv8, ((v >> 24) & 0xFF) as bv8]
  }

  lemma SplitWord(v: bv32)
    ensures Word(Split(v)) == v
  {
    Rebuilt(v, (v & 0xFF) as bv8, ((v >> 8) & 0xFF) as bv8, ((v >> 16) & 0xFF) as bv8, ((v >> 24) & 0xFF) as bv8);
  }

  lemma Rebuilt(v: bv32, a: bv8, b: bv8, c: bv8, d: bv8)
    requires a == (v & 0xFF) as bv8 && b == ((v >> 8) & 0xFF) as bv8
    requires c == ((v >> 16) & 0xFF) as bv8 && d == ((v >> 24) & 0xFF) as bv8
    ensures Push(a, Push(b, Push(c, d as bv32))) == v
  {
  }

  lemma WordSplit(a: seq<bv8>)
    requires |a| == 4
    ensures Split(Word(a)) == a
  {
    SplitWord(Word(a));
    WordInjective(a, Split(Word(a)));
  }

  function Field(table: seq<bv8>): bv32
    requires |table| >= BEHIND
  {
    Word(table[FIELD..BEHIND])
  }

  function WithField(table: seq<bv8>, v: bv32): (r: seq<bv8>)
    requires |table| >= BEHIND
    ensures |r| == |table|
  {
    table[..FIELD] + Split(v) + table[BEHIND..]
  }

  lemma FieldExact(table: seq<bv8>, v: bv32)
    requires |table| >= BEHIND
    ensures Field(WithField(table, v)) == v && WithField(table, Field(table)) == table
    ensures forall w :: WithField(WithField(table, v), w) == WithField(table, w)
  {
    assert WithField(table, v)[FIELD..BEHIND] == Split(v);
    SplitWord(v);
    WordSplit(table[FIELD..BEHIND]);
    assert table == table[..FIELD] + table[FIELD..BEHIND] + table[BEHIND..];
    forall w
      ensures WithField(WithField(table, v), w) == WithField(table, w)
    {
      assert WithField(table, v)[..FIELD] == table[..FIELD] && WithField(table, v)[BEHIND..] == table[BEHIND..];
    }
  }

  // The CRC of the first bytes, the field taken as zero.
  function Checksum(table: seq<bv8>, size: nat): bv32
    requires |table| >= BEHIND && size <= |table|
  {
    Crc32(WithField(table, 0)[..size])
  }

  function Sealed(table: seq<bv8>, size: nat): (r: seq<bv8>)
    requires |table| >= BEHIND && size <= |table|
    ensures |r| == |table|
  {
    WithField(table, Checksum(table, size))
  }

  /**
   * The checksum is that of the covered bytes with four zeros in the place of the field; sealing stores it there,
   * lowest byte first, and leaves all other bytes.
   */
  lemma SealedExact(table: seq<bv8>, size: nat, c: bv32)
    requires BEHIND <= size <= |table| && c == Crc32(table[..16] + [0, 0, 0, 0] + table[20..size])
    ensures Checksum(table, size) == c
    ensures Sealed(table, size)[..16] == table[..16] && Sealed(table, size)[20..] == table[20..]
    ensures Sealed(table, size)[16..20]
         == [(c & 0xFF) as bv8, ((c >> 8) & 0xFF) as bv8, ((c >> 16) & 0xFF) as bv8, ((c >> 24) & 0xFF) as bv8]
  {
    ZeroSplit();
    assert WithField(table, 0)[..size] == table[..16] + [0, 0, 0, 0] + table[20..size];
  }

  lemma ZeroSplit()
    ensures Split(0) == [0, 0, 0, 0]
  {
  }

  predicate InRange(maxSize: nat, size: nat) {
    size != 0 && (maxSize == 0 || size <= maxSize)
  }

  predicate Accepts(table: seq<bv8>, size: nat)
    requires |table| >= BEHIND && size <= |table|
  {
    Field(table) == Checksum(table, size)
  }

  /** A sealed table is accepted. */
  lemma SealedAccepted(table: seq<bv8>, size: nat)
    requires |table| >= BEHIND && size <= |table|
    ensures Accepts(Sealed(table, size), size)
  {
    FieldExact(table, Checksum(table, size));
  }

  /** A sealed table with another value in its CRC field is rejected. */
  lemma FieldTamperExact(table: seq<bv8>, size: nat, v: bv32)
    requires |table| >= BEHIND && size <= |table|
    ensures Accepts(WithField(Sealed(table, size), v), size) <==> v == Field(Sealed(table, size))
  {
    FieldExact(table, Checksum(table, size));
    FieldExact(Sealed(table, size), v);
  }

  /** A sealed table changed within four consecutive covered bytes outside the field is rejected. */
  lemma BurstTamperExact(table: seq<bv8>, size: nat, w: seq<bv8>, i: nat, j: nat)
    requires |table| >= BEHIND && size <= |table|
    requires Agree(Sealed(table, size), w, i, j) && j - i <= 4 && j <= size && (j <= FIELD || BEHIND <= i)
    ensures Accepts(w, size) <==> w == Sealed(table, size)
  {
    var u := Sealed(table, size);
    SealedAccepted(table, size);
    Outside(u, w, i, j, size);
    BurstExact(WithField(u, 0)[..size], WithField(w, 0)[..size], i, j);
  }

  lemma AgreeAt(u: seq<bv8>, w: seq<bv8>, i: nat, j: nat, k: nat)
    requires Agree(u, w, i, j) && k < |u| && (k < i || j <= k)
    ensures u[k] == w[k]
  {
    if k < i {
      assert u[..i][k] == w[..i][k];
    } else {
      assert u[j..][k - j] == w[j..][k - j];
    }
  }

  lemma WithFieldAt(table: seq<bv8>, v: bv32, k: nat)
    requires BEHIND <= |table| && k < |table|
    ensures WithField(table, v)[k] == if FIELD <= k < BEHIND then Split(v)[k - FIELD] else table[k]
  {
  }

  lemma Outside(u: seq<bv8>, w: seq<bv8>, i: nat, j: nat, size: nat)
    requires |u| >= BEHIND && Agree(u, w, i, j) && j <= size <= |u| && (j <= FIELD || BEHIND <= i)
    ensures Field(u) == Field(w) && Agree(WithField(u, 0)[..size], WithField(w, 0)[..size], i, j)
    ensures WithField(u, 0)[..size] == WithField(w, 0)[..size] ==> u == w
  {
    var a, b := WithField(u, 0)[..size], WithField(w, 0)[..size];
    forall k | FIELD <= k < BEHIND
      ensures u[k] == w[k]
    {
      AgreeAt(u, w, i, j, k);
    }
    assert u[FIELD..BEHIND] == w[FIELD..BEHIND];
    forall k | 0 <= k < size && (k < i || j <= k)
      ensures a[k] == b[k]
    {
      AgreeAt(u, w, i, j, k);
      WithFieldAt(u, 0, k);
      WithFieldAt(w, 0, k);
    }
    assert a[..i] == b[..i] && a[j..] == b[j..];
    if a == b {
      forall k | 0 <= k < |u|
        ensures u[k] == w[k]
      {
        if i <= k < j {
          assert a[k] == b[k];
          WithFieldAt(u, 0, k);
          WithFieldAt(w, 0, k);
        } else {
          AgreeAt(u, w, i, j, k);
        }
      }
    }
  }

  // ----- The program -----

  lemma WideStep(c: bv32, entry: bv32)
    ensures ((c as bv64) >> 8) ^ (entry as bv64) == ((c >> 8) ^ entry) as bv64
  {
  }

  lemma WideIndex(c: bv32)
    ensures ((c as bv64) & 0xFF) as bv8 == (c & 0xFF) as bv8
  {
  }

  lemma WideEnd(c: bv32)
    ensures (((c as bv64) ^ 0xFFFFFFFF) & 0xFFFFFFFF) as bv32 == Inverted(c)
  {
  }

  // One turn of the loop, on the 64-bit register of the program.
  function WideTableStep(crc: bv64, byte: bv8): bv64 {
    (crc >> 8) ^ (CRCTable((crc & 0xFF) as bv8 ^ byte) as bv64)
  }

  lemma WideStepExact(c: bv32, byte: bv8)
    ensures WideTableStep(c as bv64, byte) == TableStep(c, byte) as bv64
  {
    WideIndex(c);
    WideStep(c, CRCTable((c & 0xFF) as bv8 ^ byte));
  }

  // The register after some bytes, as the program holds it.
  predicate Running(crc: bv64, c: bv32, bytes: seq<bv8>) {
    crc == c as bv64 && c == Fold(TableStep, START, bytes)
  }

  lemma RunningStep(crc: bv64, c: bv32, bytes: seq<bv8>, byte: bv8, more: seq<bv8>)
    requires Running(crc, c, bytes) && more == bytes + [byte]
    ensures Running(WideTableStep(crc, byte), TableStep(c, byte), more)
  {
    WideStepExact(c, byte);
    assert more[..|more| - 1] == bytes;
  }

  lemma RunningEnd(crc: bv64, c: bv32, bytes: seq<bv8>)
    requires Running(crc, c, bytes)
    ensures ((crc ^ 0xFFFFFFFF) & 0xFFFFFFFF) as bv32 == Crc32(bytes)
  {
    WideEnd(c);
  }

  method CalculateCrc(pt: array<bv8>, size: nat) returns (r: bv32)
    requires size <= pt.Length
    ensures r == Crc32(pt[..size])
  {
    ghost var c := START;
    var crc: bv64 := 0xFFFFFFFF;
    var k := 0;
    while k < size
      invariant k <= size && Running(crc, c, pt[..k])
    {
      RunningStep(crc, c, pt[..k], pt[k], pt[..k + 1]);
      c := TableStep(c, pt[k]);
      crc := WideTableStep(crc, pt[k]);
      k := k + 1;
    }
    RunningEnd(crc, c, pt[..size]);
    return ((crc ^ 0xFFFFFFFF) & 0xFFFFFFFF) as bv32;
  }

  method StoreField(hdr: array<bv8>, v: bv32)
    requires hdr.Length >= BEHIND
    modifies hdr
    ensures hdr[..] == WithField(old(hdr[..]), v)
  {
    var bytes := Split(v);
    hdr[16], hdr[17], hdr[18], hdr[19] := bytes[0], bytes[1], bytes[2], bytes[3];
  }

  method SetCrcAltSize(size: nat, hdr: array<bv8>)
    requires BEHIND <= hdr.Length && size <= hdr.Length
    modifies hdr
    ensures hdr[..] == Sealed(old(hdr[..]), size)
  {
    ghost var table := hdr[..];
    FieldExact(table, 0);
    StoreField(hdr, 0);
    var crc := CalculateCrc(hdr, size);
    StoreField(hdr, crc);
  }

  /** CheckCrcAltSize; the header is as it was. */
  method CheckCrcAltSize(maxSize: nat, size: nat, hdr: array<bv8>) returns (f: bool)
    requires BEHIND <= hdr.Length && (InRange(maxSize, size) ==> size <= hdr.Length)
    modifies hdr
    ensures hdr[..] == old(hdr[..])
    ensures f <==> size != 0 && (maxSize == 0 || size <= maxSize) && Accepts(hdr[..], size)
  {
    if size == 0 {
      return false;
    }
    if maxSize != 0 && size > maxSize {
      return false;
    }
    ghost var table := hdr[..];
    FieldExact(table, 0);
    var orgCrc := Word(hdr[FIELD..BEHIND]);
    StoreField(hdr, 0);
    var crc := CalculateCrc(hdr, size);
    StoreField(hdr, orgCrc);
    f := orgCrc == crc;
  }
}
