// Finding files in an LLFS image: kernel/src/filesystem/llfs.cpp.

module LlfsReader {
  import opened Units
  import opened Llfs

  // The kernel's strlen, on a string given without its terminator: the index of the last
  // character, one less than the length.
  method Strlen(str: seq<byte>) returns (strlenOutput: nat)
    ensures strlenOutput == Measured(str)
  {
    strlenOutput := 0;
    for i := 0 to |str|
      invariant strlenOutput == if i == 0 then 0 else i - 1
    {
      strlenOutput := i;
    }
  }

  function Measured(str: seq<byte>): nat {
    if str == [] then 0 else |str| - 1
  }

  // The name field of an entry agrees with a file name as far as it is compared.
  predicate Fits(name: seq<byte>, filename: seq<byte>) {
    Measured(filename) <= |name| && name[..Measured(filename)] == filename[..Measured(filename)]
  }

  function NameAt(image: seq<byte>, entry: nat): (name: seq<byte>)
    requires entry + ENTRY <= |image|
    ensures |name| == NAME
  {
    image[entry..entry + NAME]
  }

  // How many of n entries from here on come before the first that fits.
  function FirstFit(image: seq<byte>, entry: nat, n: nat, filename: seq<byte>): (k: nat)
    requires Walkable(image, entry, n)
    ensures k <= n && Walkable(image, entry, k)
    ensures k < n ==> Walk(image, entry, k) + ENTRY <= |image| && Fits(NameAt(image, Walk(image, entry, k)), filename)
    decreases n
  {
    if n == 0 || Fits(NameAt(image, entry), filename) then 0
    else 1 + FirstFit(image, NextEntry(image, entry), n - 1, filename)
  }

  method Memcmp(a: seq<byte>, b: seq<byte>, n: nat) returns (r: int)
    requires n <= |a| && n <= |b|
    ensures r == 0 <==> a[..n] == b[..n]
  {
    for i := 0 to n
      invariant a[..i] == b[..i]
    {
      if a[i] != b[i] {
        assert a[..n][i] != b[..n][i];
        return if a[i] < b[i] then -1 else 1;
      }
      assert a[..i + 1] == a[..i] + [a[i]] && b[..i + 1] == b[..i] + [b[i]];
    }
    return 0;
  }

  // An image in memory. Entries are addressed from its start; the counters are ints.
  predicate Readable(image: seq<byte>) {
    IsImage(image) && Count(image) < 0x8000_0000 && |image| < WORD_LIMIT
  }

  // Behind i entries that do not fit, at entry, the search is still for the same one.
  predicate Sought(image: seq<byte>, filename: seq<byte>, n: nat, i: nat, entry: nat)
    requires Walkable(image, HEADER, n)
  {
    && i <= n && Walkable(image, HEADER, i) && entry == Walk(image, HEADER, i) && Walkable(image, entry, n - i)
    && FirstFit(image, HEADER, n, filename) == i + FirstFit(image, entry, n - i, filename)
  }

  lemma SoughtOn(image: seq<byte>, filename: seq<byte>, n: nat, i: nat, entry: nat, next: nat)
    returns (after: nat)
    requires Walkable(image, HEADER, n) && Sought(image, filename, n, i, entry) && i < n && next == i + 1
    ensures entry + ENTRY <= |image| && after == NextEntry(image, entry)
    ensures if Fits(NameAt(image, entry), filename) then FirstFit(image, HEADER, n, filename) == i
            else Sought(image, filename, n, next, after)
  {
    WalkOn(image, HEADER, i, n);
    after := NextEntry(image, entry);
  }

  /** LLFSOpenFile: the first entry that fits, or NULL. */
  method LLFSOpenFile(image: seq<byte>, filename: seq<byte>) returns (found: nat)
    requires Readable(image) && Measured(filename) <= NAME
    ensures var k := FirstFit(image, HEADER, Count(image), filename);
            found == if k == Count(image) then 0 else Walk(image, HEADER, k)
  {
    var n := Count(image);
    var firstEntry: nat := HEADER;
    var i: nat := 0;
    while i < n
      invariant i <= n && Sought(image, filename, n, i, firstEntry)
    {
      ghost var after := SoughtOn(image, filename, n, i, firstEntry, i + 1);
      var length := Strlen(filename);
      var difference := Memcmp(NameAt(image, firstEntry), filename, length);
      if difference == 0 {
        return firstEntry;
      }
      firstEntry := firstEntry + ENTRY + FileSize(image, firstEntry);
      assert firstEntry == after;
      i := i + 1;
    }
    return 0;
  }

  /** LLFSGetFileSystemSize: where the walk ends. */
  method LLFSGetFileSystemSize(image: seq<byte>) returns (fsize: nat)
    requires Readable(image)
    ensures fsize == Walk(image, HEADER, Count(image))
  {
    var n := Count(image);
    var firstEntry := HEADER;
    fsize := HEADER;
    var i := 0;
    while i < n
      invariant i <= n && Walkable(image, HEADER, i) && fsize == firstEntry == Walk(image, HEADER, i)
    {
      WalkOn(image, HEADER, i, n);
      fsize := fsize + (ENTRY + FileSize(image, firstEntry));
      firstEntry := firstEntry + ENTRY + FileSize(image, firstEntry);
      i := i + 1;
    }
  }

  // ----- On packed images -----

  // The first of the packed files whose padded name fits.
  function FirstNamed(files: seq<File>, filename: seq<byte>): (k: nat)
    ensures k <= |files| && forall j :: 0 <= j < k ==> !Fits(Padded(files[j].name), filename)
    ensures k < |files| ==> Fits(Padded(files[k].name), filename)
  {
    if files == [] || Fits(Padded(files[0].name), filename) then 0 else 1 + FirstNamed(files[1..], filename)
  }

  lemma {:induction false} FirstFitLeast(image: seq<byte>, entry: nat, n: nat, filename: seq<byte>, j: nat)
    requires Walkable(image, entry, n) && j < FirstFit(image, entry, n, filename)
    ensures Walkable(image, entry, j) && Walk(image, entry, j) + ENTRY <= |image|
    ensures !Fits(NameAt(image, Walk(image, entry, j)), filename)
    decreases j
  {
    if j > 0 {
      FirstFitLeast(image, NextEntry(image, entry), n - 1, filename, j - 1);
    }
  }

  lemma PackedName(files: seq<File>, image: seq<byte>, k: nat, entry: nat)
    requires Reads(image, files) && k < |files| && Walkable(image, HEADER, k) && entry == Walk(image, HEADER, k)
    ensures entry + ENTRY <= |image| && NameAt(image, entry) == Padded(files[k].name)
  {
    assert Holds(image, entry, files[k]);
  }

  lemma FirstIsFirst(files: seq<File>, image: seq<byte>, filename: seq<byte>, fit: nat)
    requires Reads(image, files) && fit == FirstFit(image, HEADER, |files|, filename)
    ensures fit == FirstNamed(files, filename)
  {
    var named := FirstNamed(files, filename);
    if fit < named {
      PackedName(files, image, fit, Walk(image, HEADER, fit));
    }
    if named < fit {
      PackedName(files, image, named, Walk(image, HEADER, named));
      FirstFitLeast(image, HEADER, |files|, filename, named);
    }
  }

  /** On a packed image LLFSOpenFile finds the first file whose padded name begins with all
      but the last character of the name asked for, and what LLFSReadFile points to there is
      the content of that file. */
  lemma OpenExact(files: seq<File>, filename: seq<byte>, image: seq<byte>, k: nat)
    requires Packable(files) && |files| < WORD_LIMIT && image == Image(files) && k == FirstNamed(files, filename)
    ensures Reads(image, files) && FirstFit(image, HEADER, Count(image), filename) == k
    ensures k < |files| ==> Holds(image, Walk(image, HEADER, k), files[k])
  {
    PackedIsRead(files);
    FirstIsFirst(files, image, filename, FirstFit(image, HEADER, |files|, filename));
  }

  predicate SameStart(files: seq<File>, j: nat, k: nat)
    requires j < |files| && k < |files| && |Padded(files[j].name)| == |Padded(files[k].name)| == NAME
  {
    Padded(files[j].name)[..NAME - 1] == Padded(files[k].name)[..NAME - 1]
  }

  /** A file asked for by its full padded name is found exactly when no earlier name agrees
      with it in the first 367 bytes. */
  lemma OpensItselfExactly(files: seq<File>, k: nat)
    requires Packable(files) && k < |files|
    ensures forall j :: 0 <= j <= k ==> |Padded(files[j].name)| == NAME
    ensures FirstNamed(files, Padded(files[k].name)) == k <==> forall j :: 0 <= j < k ==> !SameStart(files, j, k)
  {
    PaddedExact(files[k].name);
    forall j | 0 <= j <= k
      ensures |Padded(files[j].name)| == NAME
      ensures Fits(Padded(files[j].name), Padded(files[k].name)) <==> SameStart(files, j, k)
    {
      PaddedExact(files[j].name);
    }
    var first := FirstNamed(files, Padded(files[k].name));
    assert Fits(Padded(files[k].name), Padded(files[k].name));
    assert first <= k;
  }
}
