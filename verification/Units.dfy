// Pages and words, bytes and CHAR16 strings.

module Units {
  const PAGE: nat := 4096

  // The range of uint64_t.
  const WORD_LIMIT: nat := 0x1_0000_0000_0000_0000

  type byte = b: int | 0 <= b < 256
  type Char16 = c: int | 0 <= c < 0x10000

  // A string is held without its terminator.
  predicate IsText(text: seq<Char16>) {
    forall i :: 0 <= i < |text| ==> text[i] != 0
  }

  // The firmware's memory: whether it has a block of this many bytes.
  type Pool = nat -> bool

  lemma Regroup<T>(a: seq<T>, b: seq<T>, c: seq<T>)
    ensures a + (b + c) == a + b + c
  {
  }

  method CopyMem<T>(dest: array<T>, at: nat, source: seq<T>, src: nat, n: nat)
    requires at + n <= dest.Length && src + n <= |source|
    modifies dest
    ensures dest[..at] == old(dest[..at]) && dest[at..at + n] == source[src..src + n]
    ensures dest[at + n..] == old(dest[at + n..])
  {
    forall i | 0 <= i < n {
      dest[at + i] := source[src + i];
    }
  }
}
