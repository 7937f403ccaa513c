// Headers in memory and the segment list they spell, one lemma per relinking
// done by kernel/src/memory/heap.cpp.

module HeapLinks {
  import opened HeapList
  import opened HeapRuns

  // HeapSegHdr; addresses stand for pointers and 0 for NULL.
  datatype Header = Header(length: nat, next: nat, last: nat, free: bool)

  // Headers by address. Address 0 is an ordinary cell: the kernel maps page 0,
  // and Split stores through a NULL `next`.
  type Headers = map<nat, Header>

  function NextOf(segs: seq<Seg>, i: nat): nat
    requires i < |segs|
  {
    if i + 1 < |segs| then segs[i + 1].addr else 0
  }

  function LastOf(segs: seq<Seg>, i: nat): nat
    requires i < |segs|
  {
    if i > 0 then segs[i - 1].addr else 0
  }

  // The header of segment i holds the segment, and points to its neighbours.
  predicate Cell(hdrs: Headers, segs: seq<Seg>, i: nat)
    requires i < |segs|
  {
    var a := segs[i].addr;
    a != 0 && a in hdrs && hdrs[a] == Header(segs[i].length, NextOf(segs, i), LastOf(segs, i), segs[i].free)
  }

  // The headers spell the list; `next` and `last` are then mutually inverse.
  ghost predicate Spells(hdrs: Headers, segs: seq<Seg>) {
    0 in hdrs && forall i :: 0 <= i < |segs| ==> Cell(hdrs, segs, i)
  }

  ghost predicate Increasing(segs: seq<Seg>) {
    forall i, j :: 0 <= i < j < |segs| ==> segs[i].addr < segs[j].addr
  }

  lemma TilesIncrease(h: Heap)
    requires Tiles(h)
    ensures Increasing(h.segs)
  {
    forall i, j | 0 <= i < j < |h.segs|
      ensures h.segs[i].addr < h.segs[j].addr
    {
      InOrder(h, i, j);
    }
  }

  // ----- Marking -----

  lemma MarkSpells(hdrs: Headers, segs: seq<Seg>, k: nat, free: bool)
    requires Spells(hdrs, segs) && Increasing(segs) && k < |segs| && segs[k].addr in hdrs
    ensures Spells(hdrs[segs[k].addr := hdrs[segs[k].addr].(free := free)], segs[k := segs[k].(free := free)])
  {
    var a := segs[k].addr;
    var hdrs', segs' := hdrs[a := hdrs[a].(free := free)], segs[k := segs[k].(free := free)];
    forall i | 0 <= i < |segs'|
      ensures Cell(hdrs', segs', i)
    {
      assert Cell(hdrs, segs, i);
      assert NextOf(segs', i) == NextOf(segs, i) && LastOf(segs', i) == LastOf(segs, i);
      assert i != k ==> segs[i].addr != a;
    }
  }

  // ----- CombineForward -----

  // Its stores: a swallows b, whose successor is c.
  function Merged(hdrs: Headers, a: nat, b: nat, c: nat): Headers
    requires a in hdrs && b in hdrs && c in hdrs
  {
    var relinked := if c != 0 then hdrs[c := hdrs[c].(last := a)] else hdrs;
    relinked[a := relinked[a].(length := relinked[a].length + relinked[b].length + HEADER, next := c)]
  }

  // The same stores one at a time, in the source's order.
  lemma MergedInSteps(hdrs: Headers, a: nat, b: nat, c: nat)
    requires a in hdrs && b in hdrs && c in hdrs && a != b && hdrs[b].next == c
    ensures var r0 := if c != 0 then hdrs[c := hdrs[c].(last := a)] else hdrs;
            var r1 := r0[a := r0[a].(length := r0[a].length + r0[b].length + HEADER)];
            r1[a := r1[a].(next := r1[b].next)] == Merged(hdrs, a, b, c)
  {
  }

  lemma MergedAt(hdrs: Headers, a: nat, b: nat, c: nat, x: nat)
    requires a in hdrs && b in hdrs && c in hdrs && x in hdrs && a != c
    ensures x in Merged(hdrs, a, b, c)
    ensures Merged(hdrs, a, b, c)[x]
         == (if x == a then hdrs[a].(length := hdrs[a].length + hdrs[b].length + HEADER, next := c)
             else if x == c && c != 0 then hdrs[c].(last := a) else hdrs[x])
  {
  }

  lemma MergeNeighbours(segs: seq<Seg>, k: nat, i: nat)
    requires k + 1 < |segs| && i < |segs| - 1
    ensures var m := Merge(segs, k);
            |m| == |segs| - 1
            && NextOf(m, i) == (if i < k then NextOf(segs, i) else NextOf(segs, i + 1))
            && LastOf(m, i) == (if i <= k then LastOf(segs, i) else if i == k + 1 then segs[k].addr else LastOf(segs, i + 1))
  {
    MergeAt(segs, k, i);
    if i > 0 {
      MergeAt(segs, k, i - 1);
    }
    if i + 1 < |segs| - 1 {
      MergeAt(segs, k, i + 1);
    }
  }

  lemma MergeCell(hdrs: Headers, segs: seq<Seg>, k: nat, i: nat)
    requires Spells(hdrs, segs) && Increasing(segs) && k + 1 < |segs| && i < |segs| - 1
    ensures var a, b, c := segs[k].addr, segs[k + 1].addr, NextOf(segs, k + 1);
            a in hdrs && b in hdrs && c in hdrs
            && |Merge(segs, k)| == |segs| - 1 && Cell(Merged(hdrs, a, b, c), Merge(segs, k), i)
  {
    var a, b, c := segs[k].addr, segs[k + 1].addr, NextOf(segs, k + 1);
    assert Cell(hdrs, segs, k) && Cell(hdrs, segs, k + 1);
    assert k + 2 < |segs| ==> Cell(hdrs, segs, k + 2);
    var j := if i <= k then i else i + 1;
    assert Cell(hdrs, segs, j);
    MergeAt(segs, k, i);
    MergeNeighbours(segs, k, i);
    MergedAt(hdrs, a, b, c, segs[j].addr);
    assert j != k ==> segs[j].addr != a;
    assert j != k + 2 && c != 0 ==> segs[j].addr != c;
  }

  lemma MergeSpells(hdrs: Headers, segs: seq<Seg>, k: nat)
    requires Spells(hdrs, segs) && Increasing(segs) && k + 1 < |segs|
    ensures var a, b, c := segs[k].addr, segs[k + 1].addr, NextOf(segs, k + 1);
            a in hdrs && b in hdrs && c in hdrs && hdrs[a].next == b && hdrs[b].next == c
            && Spells(Merged(hdrs, a, b, c), Merge(segs, k))
  {
    assert Cell(hdrs, segs, k) && Cell(hdrs, segs, k + 1);
    MergeCell(hdrs, segs, k, 0);
    var hdrs', m := Merged(hdrs, segs[k].addr, segs[k + 1].addr, NextOf(segs, k + 1)), Merge(segs, k);
    forall i | 0 <= i < |m|
      ensures Cell(hdrs', m, i)
    {
      MergeCell(hdrs, segs, k, i);
    }
  }

  // ----- Split -----

  // Its stores at a, for a new header at b in front of c; c may be NULL.
  function Divided(hdrs: Headers, a: nat, b: nat, c: nat, n: nat, rest: nat): Headers
    requires a in hdrs && c in hdrs
  {
    hdrs[c := hdrs[c].(last := b)][b := Header(rest, c, a, hdrs[a].free)][a := hdrs[a].(next := b, length := n)]
  }

  // The same stores one at a time.
  lemma DividedInSteps(hdrs: Headers, a: nat, b: nat, c: nat, n: nat, rest: nat)
    requires a in hdrs && c in hdrs && a != c && a != b
    ensures var r0 := hdrs[c := hdrs[c].(last := b)];
            var r1 := r0[b := Header(rest, c, a, r0[a].free)];
            r1[a := r1[a].(next := b, length := n)] == Divided(hdrs, a, b, c, n, rest)
  {
  }

  lemma DividedAt(hdrs: Headers, a: nat, b: nat, c: nat, n: nat, rest: nat, x: nat)
    requires a in hdrs && c in hdrs && a != c && a != b && b != c && (x in hdrs || x == b)
    ensures x in Divided(hdrs, a, b, c, n, rest)
    ensures Divided(hdrs, a, b, c, n, rest)[x]
         == (if x == a then hdrs[a].(next := b, length := n) else if x == b then Header(rest, c, a, hdrs[a].free)
             else if x == c then hdrs[c].(last := b) else hdrs[x])
  {
  }

  function SplitSegs(segs: seq<Seg>, k: nat, n: nat): seq<Seg>
    requires k < |segs| && segs[k].length >= n + HEADER
  {
    segs[..k] + [segs[k].(length := n), Seg(segs[k].addr + n + HEADER, segs[k].length - n - HEADER, segs[k].free)]
    + segs[k + 1..]
  }

  lemma SplitSegsAt(segs: seq<Seg>, k: nat, n: nat, i: nat)
    requires k < |segs| && segs[k].length >= n + HEADER && i <= |segs|
    ensures |SplitSegs(segs, k, n)| == |segs| + 1
    ensures SplitSegs(segs, k, n)[i]
         == (if i < k then segs[i] else if i == k then segs[k].(length := n)
             else if i == k + 1 then Seg(segs[k].addr + n + HEADER, segs[k].length - n - HEADER, segs[k].free)
             else segs[i - 1])
  {
  }

  lemma SplitNeighbours(segs: seq<Seg>, k: nat, n: nat, i: nat)
    requires k < |segs| && segs[k].length >= n + HEADER && i <= |segs|
    ensures var s, b := SplitSegs(segs, k, n), segs[k].addr + n + HEADER;
            |s| == |segs| + 1
            && NextOf(s, i) == (if i < k then NextOf(segs, i) else if i == k then b else NextOf(segs, i - 1))
            && LastOf(s, i) == (if i <= k then LastOf(segs, i) else if i == k + 1 then segs[k].addr
                                else if i == k + 2 then b else LastOf(segs, i - 1))
  {
    SplitSegsAt(segs, k, n, i);
    if i > 0 {
      SplitSegsAt(segs, k, n, i - 1);
    }
    if i < |segs| {
      SplitSegsAt(segs, k, n, i + 1);
    }
  }

  // The new header lies strictly inside segment k, so it is no header of the list.
  lemma NewHeaderApart(h: Heap, k: nat, n: nat, i: nat)
    requires Tiles(h) && k < |h.segs| && h.segs[k].length >= n + HEADER && i < |h.segs|
    ensures h.segs[k].addr + n + HEADER != h.segs[i].addr
  {
    assert EndOf(h.segs[k]) == Next(h, k);
    if i < k {
      InOrder(h, i, k);
    } else if k < i {
      InOrder(h, k, i);
    }
  }

  // The cells of the old list, by their addresses.
  lemma OldCells(hdrs: Headers, h: Heap, k: nat, j: nat)
    requires Spells(hdrs, h.segs) && Tiles(h) && k < |h.segs| && j < |h.segs|
    ensures Cell(hdrs, h.segs, j)
    ensures var a, c, x := h.segs[k].addr, NextOf(h.segs, k), h.segs[j].addr;
            a in hdrs && c in hdrs && a != 0 && a != c && hdrs[a].next == c && hdrs[a].length == h.segs[k].length
            && (x == a <==> j == k) && (x == c <==> j == k + 1) && hdrs[a].free == h.segs[k].free
  {
    TilesIncrease(h);
    assert Cell(hdrs, h.segs, k) && Cell(hdrs, h.segs, j);
    assert k + 1 < |h.segs| ==> Cell(hdrs, h.segs, k + 1);
  }

  lemma SplitCell(hdrs: Headers, h: Heap, k: nat, n: nat, i: nat, hdrs': Headers, s: seq<Seg>)
    requires Spells(hdrs, h.segs) && Tiles(h) && k < |h.segs| && h.segs[k].length >= n + HEADER && i <= |h.segs|
    requires var a, c := h.segs[k].addr, NextOf(h.segs, k);
             a in hdrs && c in hdrs && hdrs' == Divided(hdrs, a, a + n + HEADER, c, n, h.segs[k].length - n - HEADER)
    requires s == SplitSegs(h.segs, k, n)
    ensures |s| == |h.segs| + 1 && Cell(hdrs', s, i)
  {
    var a, c, rest := h.segs[k].addr, NextOf(h.segs, k), h.segs[k].length - n - HEADER;
    var b := a + n + HEADER;
    var j := if i <= k then i else i - 1;
    OldCells(hdrs, h, k, j);
    NewApartFromNext(h, k, n);
    NewHeaderApart(h, k, n, j);
    SplitSegsAt(h.segs, k, n, i);
    SplitNeighbours(h.segs, k, n, i);
    if i == k + 1 {
      DividedAt(hdrs, a, b, c, n, rest, b);
    } else {
      DividedAt(hdrs, a, b, c, n, rest, h.segs[j].addr);
    }
  }

  lemma NewApartFromNext(h: Heap, k: nat, n: nat)
    requires Tiles(h) && k < |h.segs| && h.segs[k].length >= n + HEADER
    ensures h.segs[k].addr + n + HEADER != NextOf(h.segs, k)
  {
    if k + 1 < |h.segs| {
      NewHeaderApart(h, k, n, k + 1);
    }
  }

  lemma SplitSpells(hdrs: Headers, h: Heap, k: nat, n: nat, hdrs': Headers, s: seq<Seg>)
    requires Spells(hdrs, h.segs) && Tiles(h) && k < |h.segs| && h.segs[k].length >= n + HEADER
    requires var a, c := h.segs[k].addr, NextOf(h.segs, k);
             a in hdrs && c in hdrs && hdrs' == Divided(hdrs, a, a + n + HEADER, c, n, h.segs[k].length - n - HEADER)
    requires s == SplitSegs(h.segs, k, n)
    ensures Spells(hdrs', s)
  {
    SplitSegsAt(h.segs, k, n, 0);
    forall i | 0 <= i < |s|
      ensures Cell(hdrs', s, i)
    {
      SplitCell(hdrs, h, k, n, i, hdrs', s);
    }
  }

  /**
   * Splitting the tail stores the new header's address through the NULL `next`; splitting any other segment leaves
   * page 0 alone.
   */
  lemma SplitNullStore(hdrs: Headers, h: Heap, k: nat, n: nat)
    requires Spells(hdrs, h.segs) && Tiles(h) && k < |h.segs| && h.segs[k].length >= n + HEADER
    ensures var a, c, rest := h.segs[k].addr, NextOf(h.segs, k), h.segs[k].length - n - HEADER;
            a in hdrs && c in hdrs
            && Divided(hdrs, a, a + n + HEADER, c, n, rest)[0]
                 == (if k + 1 == |h.segs| then hdrs[0].(last := a + n + HEADER) else hdrs[0])
  {
    var a, c := h.segs[k].addr, NextOf(h.segs, k);
    OldCells(hdrs, h, k, k);
    assert k + 1 < |h.segs| ==> Cell(hdrs, h.segs, k + 1);
    NewApartFromNext(h, k, n);
    DividedAt(hdrs, a, a + n + HEADER, c, n, h.segs[k].length - n - HEADER, 0);
  }

  // ----- ExpandHeap -----

  // Its stores before it combines: a new free segment at a behind the tail.
  function Appended(hdrs: Headers, tail: nat, a: nat, length: nat): Headers
    requires tail in hdrs
  {
    hdrs[tail := hdrs[tail].(next := a)][a := Header(length, 0, tail, true)]
  }

  lemma AppendCell(hdrs: Headers, h: Heap, length: nat, i: nat)
    requires Spells(hdrs, h.segs) && Tiles(h) && i <= |h.segs|
    ensures var tail := Last(h).addr;
            tail in hdrs && Cell(Appended(hdrs, tail, h.end, length), h.segs + [Seg(h.end, length, true)], i)
  {
    var k, s := |h.segs| - 1, h.segs + [Seg(h.end, length, true)];
    assert Cell(hdrs, h.segs, k) && EndOf(h.segs[k]) == Next(h, k);
    if i < |h.segs| {
      assert Cell(hdrs, h.segs, i);
      assert NextOf(s, i) == if i == k then h.end else NextOf(h.segs, i);
      assert LastOf(s, i) == LastOf(h.segs, i);
      if i < k {
        InOrder(h, i, k);
      }
    }
  }

  lemma AppendSpells(hdrs: Headers, h: Heap, length: nat)
    requires Spells(hdrs, h.segs) && Tiles(h)
    ensures var tail := Last(h).addr;
            tail in hdrs && Spells(Appended(hdrs, tail, h.end, length), h.segs + [Seg(h.end, length, true)])
  {
    AppendCell(hdrs, h, length, 0);
    var hdrs', s := Appended(hdrs, Last(h).addr, h.end, length), h.segs + [Seg(h.end, length, true)];
    forall i | 0 <= i < |s|
      ensures Cell(hdrs', s, i)
    {
      AppendCell(hdrs, h, length, i);
    }
  }
}
