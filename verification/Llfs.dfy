// The LLFS packager and reader: tools/buildllfs.py, kernel/src/filesystem/llfs.cpp.

module Llfs {
  import opened Units

  // ----- Little-endian numbers -----

  function Le(v: nat, n: nat): (r: seq<byte>)
    ensures |r| == n
    decreases n, v
  {
    if n == 0 then [] else [v % 256] + Le(v / 256, n - 1)
  }

  function Load(bytes: seq<byte>): nat {
    if bytes == [] then 0 else bytes[0] + 256 * Load(bytes[1..])
  }

  function Limit(n: nat): (r: nat)
    ensures r > 0
  {
    if n == 0 then 1 else 256 * Limit(n - 1)
  }

  /** What to_bytes writes is read back, below 256 to the number of bytes. */
  lemma {:induction false} LoadExact(v: nat, n: nat)
    ensures Load(Le(v, n)) == v <==> v < Limit(n)
    decreases n
  {
    if n > 0 {
      LoadExact(v / 256, n - 1);
      LoadBounded(Le(v / 256, n - 1));
      assert Le(v, n)[1..] == Le(v / 256, n - 1);
    }
  }

  lemma {:induction false} LoadBounded(bytes: seq<byte>)
    ensures Load(bytes) < Limit(|bytes|)
  {
    if bytes != [] {
      LoadBounded(bytes[1..]);
    }
  }

  lemma WordExact(v: nat)
    requires v < WORD_LIMIT
    ensures Load(Le(v, 8)) == v
  {
    assert Limit(8) == WORD_LIMIT;
    LoadExact(v, 8);
  }

  /** Byte i holds the digit of weight 256^i. */
  lemma {:induction false} LeDigit(v: nat, n: nat, i: nat)
    requires i < n
    ensures Le(v, n)[i] == v / Limit(i) % 256
    decreases n
  {
    if i > 0 {
      LeDigit(v / 256, n - 1, i - 1);
      DivTwice(v, Limit(i - 1));
    }
  }

  lemma DivTwice(v: nat, p: nat)
    requires p > 0
    ensures v / 256 / p == v / (256 * p)
  {
    var q, r := v / 256 / p, v / 256 % p;
    assert v / 256 == p * q + r;
    Weighed(p, q);
    QuotientIs(v, 256 * p, q, 256 * r + v % 256);
  }

  lemma Weighed(p: nat, q: nat)
    ensures 256 * (p * q) == (256 * p) * q
  {
  }

  lemma QuotientIs(v: nat, d: nat, q: nat, r: nat)
    requires r < d && v == d * q + r
    ensures v / d == q
  {
    var a := v / d;
    Larger(d, a + 1, q);
    Larger(d, q + 1, a);
  }

  lemma Larger(d: nat, x: nat, y: nat)
    ensures x <= y ==> d * x <= d * y
  {
  }

  // ----- What the packager writes -----

  // A name is counted in characters and written in their encodings.
  datatype File = File(name: seq<seq<byte>>, content: seq<byte>)

  const NAME := 368
  const HEADER := 17
  const ENTRY := 377

  function Encoded(name: seq<seq<byte>>): seq<byte> {
    if name == [] then [] else name[0] + Encoded(name[1..])
  }

  function Spaces(n: nat): (r: seq<byte>)
    ensures |r| == n
  {
    seq(n, i => 0x20)
  }

  function Padded(name: seq<seq<byte>>): seq<byte> {
    Encoded(name) + Spaces(if |name| <= NAME then NAME - |name| else 0)
  }

  // Every character has an encoding; an ASCII one has one byte.
  predicate IsName(name: seq<seq<byte>>) {
    forall i :: 0 <= i < |name| ==> name[i] != []
  }

  predicate Ascii(name: seq<seq<byte>>) {
    forall i :: 0 <= i < |name| ==> |name[i]| == 1
  }

  lemma {:induction false} EncodedLength(name: seq<seq<byte>>)
    requires IsName(name)
    ensures |Encoded(name)| >= |name| && (|Encoded(name)| == |name| <==> Ascii(name))
  {
    if name != [] {
      EncodedLength(name[1..]);
      assert Ascii(name) <==> |name[0]| == 1 && Ascii(name[1..]);
    }
  }

  /** A padded name fills the name field exactly when it is ASCII and not too long. */
  lemma PaddedExact(name: seq<seq<byte>>)
    requires IsName(name)
    ensures |Padded(name)| == NAME <==> Ascii(name) && |name| <= NAME
  {
    EncodedLength(name);
  }

  lemma {:induction false} EncodedAt(name: seq<seq<byte>>, i: nat)
    requires Ascii(name) && i < |name|
    ensures |Encoded(name)| == |name| && Encoded(name)[i] == name[i][0]
  {
    AsciiLength(name);
    if i > 0 {
      EncodedAt(name[1..], i - 1);
    }
  }

  lemma {:induction false} AsciiLength(name: seq<seq<byte>>)
    requires Ascii(name)
    ensures |Encoded(name)| == |name|
  {
    if name != [] {
      AsciiLength(name[1..]);
    }
  }

  /** The name field of an ASCII name that fits: the name, and spaces behind it. */
  lemma PaddedBytes(name: seq<seq<byte>>, i: nat)
    requires Ascii(name) && |name| <= NAME && i < NAME
    ensures |Padded(name)| == NAME && Padded(name)[i] == if i < |name| then name[i][0] else 0x20
  {
    AsciiLength(name);
    if i < |name| {
      EncodedAt(name, i);
    }
  }

  predicate Packable(files: seq<File>) {
    forall i :: 0 <= i < |files| ==>
      IsName(files[i].name) && Ascii(files[i].name) && |files[i].name| <= NAME && |files[i].content| < WORD_LIMIT
  }

  function Entry(file: File): seq<byte> {
    Padded(file.name) + Le(|file.content|, 8) + [0] + file.content
  }

  function Entries(files: seq<File>): seq<byte> {
    if files == [] then [] else Entries(files[..|files| - 1]) + Entry(files[|files| - 1])
  }

  lemma OneMoreEntry(header: seq<byte>, files: seq<File>, k: nat)
    requires k < |files|
    ensures Entries(files[..k + 1]) == Entries(files[..k]) + Entry(files[k])
    ensures header + Entries(files[..k + 1]) == header + Entries(files[..k]) + Entry(files[k])
  {
    assert files[..k + 1][..k] == files[..k];
    Regroup(header, Entries(files[..k]), Entry(files[k]));
  }

  function Header(count: nat): seq<byte> {
    [0x4C, 0x4C, 0x46, 0x53, 0x02] + Le(count, 8) + [0, 0, 0, 0]
  }

  function Image(files: seq<File>): seq<byte> {
    Header(|files|) + Entries(files)
  }

  // The packager's output file.
  class Packager {
    var Written: seq<byte>

    constructor ()
      ensures Written == []
    {
      Written := [];
    }

    method AddFile(name: seq<byte>, size: seq<byte>, content: seq<byte>)
      modifies this
      ensures Written == old(Written) + (name + size + [0] + content)
    {
      ghost var before := Written;
      Written := Written + name;
      Written := Written + size;
      Written := Written + [0];
      Written := Written + content;
      assert before + name + size + [0] + content == before + (name + size + [0] + content);
    }

    method AddFileFromHardDisk(file: File)
      modifies this
      ensures Written == old(Written) + Entry(file)
    {
      var padded := Encoded(file.name) + Spaces(if |file.name| <= NAME then NAME - |file.name| else 0);
      AddFile(padded, Le(|file.content|, 8), file.content);
    }

    method Build(files: seq<File>)
      requires Written == []
      modifies this
      ensures Written == Image(files)
    {
      Written := Written + [0x4C, 0x4C, 0x46, 0x53];
      Written := Written + [0x02];
      Written := Written + Le(|files|, 8);
      for i := 0 to 4
        invariant Written == [0x4C, 0x4C, 0x46, 0x53, 0x02] + Le(|files|, 8) + seq(i, k => 0)
      {
        Written := Written + [0];
      }
      assert Written == Header(|files|);
      for i := 0 to |files|
        invariant Written == Header(|files|) + Entries(files[..i])
      {
        AddFileFromHardDisk(files[i]);
        OneMoreEntry(Header(|files|), files, i);
      }
      assert files[..|files|] == files;
    }
  }

  // ----- What the reader sees -----

  function Count(image: seq<byte>): nat
    requires |image| >= HEADER
  {
    Load(image[5..13])
  }

  function FileSize(image: seq<byte>, entry: nat): nat
    requires entry + ENTRY <= |image|
  {
    Load(image[entry + NAME..entry + NAME + 8])
  }

  function NextEntry(image: seq<byte>, entry: nat): nat
    requires entry + ENTRY <= |image|
  {
    entry + ENTRY + FileSize(image, entry)
  }

  // n entries from here on lie within the image.
  predicate Walkable(image: seq<byte>, entry: nat, n: nat)
    decreases n
  {
    entry <= |image| && (n == 0 || (entry + ENTRY <= |image| && Walkable(image, NextEntry(image, entry), n - 1)))
  }

  // The entry n steps from here.
  function Walk(image: seq<byte>, entry: nat, n: nat): (r: nat)
    requires Walkable(image, entry, n)
    ensures r <= |image|
    decreases n
  {
    if n == 0 then entry else Walk(image, NextEntry(image, entry), n - 1)
  }

  lemma {:induction false} WalkOn(image: seq<byte>, entry: nat, k: nat, n: nat)
    requires k < n && Walkable(image, entry, n)
    ensures Walkable(image, entry, k) && Walkable(image, entry, k + 1)
    ensures var e := Walk(image, entry, k); e + ENTRY <= |image| && Walk(image, entry, k + 1) == NextEntry(image, e)
    decreases k
  {
    if k > 0 {
      WalkOn(image, NextEntry(image, entry), k - 1, n - 1);
    }
  }

  predicate IsImage(image: seq<byte>) {
    |image| >= HEADER && Walkable(image, HEADER, Count(image))
  }

  // The packed files one by one, back to back.
  ghost predicate Holds(image: seq<byte>, entry: nat, file: File) {
    && entry + ENTRY <= |image|
    && image[entry..entry + NAME] == Padded(file.name)
    && FileSize(image, entry) == |file.content|
    && entry + ENTRY + |file.content| <= |image|
    && image[entry + ENTRY..entry + ENTRY + |file.content|] == file.content
  }

  // The same byte by byte: the name and spaces up to 368 bytes, the size in eight, a zero, and the contents.
  ghost predicate Laid(image: seq<byte>, entry: nat, file: File) {
    && entry + 377 + |file.content| <= |image| && |file.name| <= 368
    && var bytes := image[entry..entry + 377 + |file.content|];
    && (forall i :: 0 <= i < |file.name| ==> [bytes[i]] == file.name[i])
    && (forall i :: |file.name| <= i < 368 ==> bytes[i] == 0x20)
    && (forall i :: 0 <= i < 8 ==> bytes[368..376][i] == |file.content| / Limit(i) % 256)
    && bytes[376] == 0 && bytes[377..] == file.content
  }

  lemma EntryLaid(before: seq<byte>, file: File, behind: seq<byte>)
    requires Packable([file])
    ensures Laid(before + Entry(file) + behind, |before|, file)
  {
    var image, entry, n := before + Entry(file) + behind, Entry(file), |file.content|;
    assert file == [file][0];
    PaddedExact(file.name);
    EntryParts(file, entry);
    assert image[|before|..|before| + 377 + n] == entry;
    forall i | 0 <= i < NAME
      ensures if i < |file.name| then [entry[i]] == file.name[i] else entry[i] == 0x20
    {
      PaddedBytes(file.name, i);
    }
  }

  lemma EntryParts(file: File, entry: seq<byte>)
    requires |Padded(file.name)| == NAME && entry == Entry(file)
    ensures |entry| == 377 + |file.content| && entry[..368] == Padded(file.name)
    ensures forall i :: 0 <= i < 8 ==> entry[368..376][i] == |file.content| / Limit(i) % 256
    ensures entry[376] == 0 && entry[377..] == file.content
  {
    assert entry[368..376] == Le(|file.content|, 8);
    forall i | 0 <= i < 8
      ensures entry[368..376][i] == |file.content| / Limit(i) % 256
    {
      LeDigit(|file.content|, 8, i);
    }
  }

  function Offset(files: seq<File>, k: nat): nat
    requires k <= |files|
  {
    HEADER + |Entries(files[..k])|
  }

  lemma EntryHolds(before: seq<byte>, file: File, behind: seq<byte>)
    requires Packable([file])
    ensures |Entry(file)| == ENTRY + |file.content| && Holds(before + Entry(file) + behind, |before|, file)
  {
    assert file == [file][0];
    PaddedExact(file.name);
    var image, e, entry := before + Entry(file) + behind, |before|, Entry(file);
    assert |entry| == ENTRY + |file.content|;
    Inside(before, entry, behind, 0, NAME);
    Inside(before, entry, behind, NAME, NAME + 8);
    Inside(before, entry, behind, ENTRY, |entry|);
    assert entry[..NAME] == Padded(file.name);
    assert entry[NAME..NAME + 8] == Le(|file.content|, 8);
    assert entry[ENTRY..] == file.content;
    WordExact(|file.content|);
  }

  lemma Inside(before: seq<byte>, middle: seq<byte>, behind: seq<byte>, i: nat, j: nat)
    requires i <= j <= |middle|
    ensures (before + middle + behind)[|before| + i..|before| + j] == middle[i..j]
  {
  }

  // What follows the first k entries.
  lemma {:induction false} EntriesSplit(files: seq<File>, k: nat) returns (behind: seq<byte>)
    requires k <= |files|
    ensures Entries(files) == Entries(files[..k]) + behind
    decreases |files|
  {
    if k == |files| {
      behind := [];
      assert files[..k] == files;
    } else {
      var front, last := files[..|files| - 1], files[|files| - 1];
      assert front[..k] == files[..k];
      var rest := EntriesSplit(front, k);
      Regroup(Entries(files[..k]), rest, Entry(last));
      behind := rest + Entry(last);
    }
  }

  // The image as what lies before an entry, the entry and what lies behind it.
  lemma ImageAround(files: seq<File>, k: nat) returns (before: seq<byte>, behind: seq<byte>)
    requires k < |files|
    ensures Image(files) == before + Entry(files[k]) + behind && |before| == Offset(files, k)
    ensures Offset(files, k + 1) == Offset(files, k) + |Entry(files[k])|
  {
    behind := EntriesSplit(files, k + 1);
    var header := Header(|files|);
    before := header + Entries(files[..k]);
    OneMoreEntry(header, files, k);
    Regroup(header, Entries(files[..k + 1]), behind);
  }

  lemma ImageHolds(files: seq<File>, k: nat)
    requires Packable(files) && k < |files|
    ensures Holds(Image(files), Offset(files, k), files[k]) && Laid(Image(files), Offset(files, k), files[k])
    ensures Offset(files, k + 1) == Offset(files, k) + ENTRY + |files[k].content|
  {
    var before, behind := ImageAround(files, k);
    EntryHolds(before, files[k], behind);
    EntryLaid(before, files[k], behind);
  }

  lemma NextOffset(files: seq<File>, image: seq<byte>, entry: nat, k: nat, next: nat, after: nat)
    requires Packable(files) && k < |files| && image == Image(files) && entry == Offset(files, k)
    requires next == k + 1 && after == Offset(files, next)
    ensures entry + ENTRY <= |image| && NextEntry(image, entry) == after
  {
    ImageHolds(files, k);
  }

  lemma {:induction false} ImageWalkable(files: seq<File>, image: seq<byte>, entry: nat, k: nat, n: nat, last: nat)
    requires Packable(files) && k + n <= |files| && image == Image(files)
    requires entry == Offset(files, k) && last == Offset(files, k + n)
    ensures Walkable(image, entry, n) && Walk(image, entry, n) == last
    decreases n
  {
    OffsetBounded(files, k);
    if n > 0 {
      var next := k + 1;
      var after := Offset(files, next);
      NextOffset(files, image, entry, k, next, after);
      ImageWalkable(files, image, after, next, n - 1, last);
    }
  }

  lemma OffsetBounded(files: seq<File>, k: nat)
    requires k <= |files|
    ensures Offset(files, k) <= |Image(files)| && (k == |files| ==> Offset(files, k) == |Image(files)|)
  {
    var behind := EntriesSplit(files, k);
    assert k == |files| ==> files[..k] == files;
  }

  // LLFSCheck.
  predicate LLFSCheck(image: seq<byte>)
    requires |image| >= HEADER
  {
    image[..4] == [0x4C, 0x4C, 0x46, 0x53] && image[4] == 2
  }

  // The walk of the packed image comes to file k, in n steps to its end.
  lemma WalkComesTo(files: seq<File>, image: seq<byte>, k: nat)
    requires Packable(files) && k <= |files| && image == Image(files)
    ensures Walkable(image, HEADER, k) && Walk(image, HEADER, k) == Offset(files, k)
    ensures k < |files| ==>
              Holds(image, Walk(image, HEADER, k), files[k]) && Laid(image, Walk(image, HEADER, k), files[k])
  {
    ImageWalkable(files, image, HEADER, 0, k, Offset(files, k));
    if k < |files| {
      ImageHolds(files, k);
    }
  }

  // "LLFS", version 2, the number of files and four zeros.
  ghost predicate Headed(image: seq<byte>, count: nat) {
    && |image| >= 17 && image[0] == image[1] == 0x4C && image[2] == 0x46 && image[3] == 0x53 && image[4] == 2
    && (forall i :: 0 <= i < 8 ==> image[5..13][i] == count / Limit(i) % 256)
    && image[13..17] == [0, 0, 0, 0]
  }

  lemma PackedHeader(files: seq<File>)
    requires |files| < WORD_LIMIT
    ensures var image := Image(files); |image| >= HEADER && LLFSCheck(image) && Count(image) == |files|
    ensures Headed(Image(files), |files|)
  {
    var image := Image(files);
    forall i | 0 <= i < 8
      ensures Le(|files|, 8)[i] == |files| / Limit(i) % 256
    {
      LeDigit(|files|, 8, i);
    }
    assert image[..4] == [0x4C, 0x4C, 0x46, 0x53];
    assert image[5..13] == Le(|files|, 8);
    WordExact(|files|);
  }

  // The walk visits exactly these files, in order, each with its padded name and its contents.
  ghost predicate Reads(image: seq<byte>, files: seq<File>) {
    && |image| >= HEADER && LLFSCheck(image) && IsImage(image) && Count(image) == |files|
    && (forall k :: 0 <= k < |files| ==> Walkable(image, HEADER, k) && Holds(image, Walk(image, HEADER, k), files[k]))
    && Walk(image, HEADER, |files|) == |image|
  }

  /** The reader undoes the packager: it takes the packed image and its walk, which ends
      at the end of the image, visits exactly the packed files. */
  lemma PackedIsRead(files: seq<File>)
    requires Packable(files) && |files| < WORD_LIMIT
    ensures Reads(Image(files), files)
    ensures Headed(Image(files), |files|)
    ensures forall k :: 0 <= k < |files| ==>
              Walkable(Image(files), HEADER, k) && Laid(Image(files), Walk(Image(files), HEADER, k), files[k])
  {
    var image := Image(files);
    PackedHeader(files);
    WalkComesTo(files, image, |files|);
    OffsetBounded(files, |files|);
    forall k | 0 <= k < |files|
      ensures Walkable(image, HEADER, k) && Holds(image, Walk(image, HEADER, k), files[k])
      ensures Laid(image, Walk(image, HEADER, k), files[k])
    {
      WalkComesTo(files, image, k);
    }
  }
}
