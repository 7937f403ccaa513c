// Mapping memory, on values: kernel/src/memory/ptm.cpp over the frame allocator.

module VmSpec {
  import opened Paging
  import opened PageIndex
  import opened PageTables
  import F = FrameSpec

  // Physical memory and the allocator that hands out its frames.
  datatype Vm = Vm(words: Words, frames: F.Frames)

  // How an operation ends: KernelPanic never returns.
  datatype Outcome = Done(vm: Vm, frame: nat) | Panic(vm: Vm)

  predicate Locked(vm: Vm, frame: nat) {
    F.Taken(vm.frames.bits, frame)
  }

  // The invariant of the page tables: they form a tree of frames that the
  // allocator will not hand out, and everything reachable is writable.
  ghost predicate Inv(vm: Vm, root: nat) {
    && F.Valid(vm.frames) && 8 * vm.frames.size <= FRAMES
    && Tree(vm.words, root)
    && (forall p, f :: TableAt(vm.words, root, p, f) ==> Locked(vm, f))
    && (forall q :: Indices(q) && Walk(vm.words, root, q).Some? ==> Walk(vm.words, root, q).value.writable)
  }

  // The table one level down, allocated if the entry is not present.
  function NextTable(vm: Vm, f: nat, index: nat): (r: Outcome)
    requires F.Valid(vm.frames)
    ensures F.Valid(r.vm.frames) && r.vm.frames.size == vm.frames.size
  {
    var entry := Entry(vm.words, f, index);
    if Present(entry) then Done(vm, Frame(entry))
    else if F.Exhausted(vm.frames) then Panic(vm.(frames := F.AfterRequest(vm.frames)))
    else
      var z := F.Requested(vm.frames);
      Done(Vm(Linked(vm.words, f, index, z, Mapped(entry, z)), F.AfterRequest(vm.frames)), z)
  }

  // What every operation on the tables keeps besides the invariant.
  ghost predicate Extends(vm: Vm, after: Vm, root: nat) {
    && after.frames.size == vm.frames.size
    && (forall k :: Locked(vm, k) ==> Locked(after, k))
    && (forall p, f :: TableAt(vm.words, root, p, f) ==> TableAt(after.words, root, p, f))
    && (forall f :: IsTable(after.words, root, f) ==> IsTable(vm.words, root, f) || !Locked(vm, f))
    && (forall f :: IsTable(after.words, root, f) ==> Locked(after, f))
  }

  ghost predicate SameTranslations(vm: Vm, after: Vm, root: nat) {
    forall q :: IsRoute(q) ==> Walk(after.words, root, q) == Walk(vm.words, root, q)
  }

  lemma RequestLocks(frames: F.Frames)
    requires F.Valid(frames) && 8 * frames.size <= FRAMES
    ensures var after, z := F.AfterRequest(frames), F.Requested(frames);
            F.Valid(after) && after.size == frames.size
            && (forall k :: F.Taken(frames.bits, k) ==> F.Taken(after.bits, k))
            && (!F.Exhausted(frames) ==> z < FRAMES && !F.Taken(frames.bits, z) && F.Taken(after.bits, z))
  {
    F.RequestExact(frames);
  }

  /** A panic changes nothing but the hint. */
  lemma NextTablePanic(vm: Vm, root: nat, f: nat, index: nat)
    requires Inv(vm, root) && NextTable(vm, f, index).Panic?
    ensures var after := NextTable(vm, f, index).vm;
            Inv(after, root) && Extends(vm, after, root) && after.words == vm.words
  {
    F.RequestExact(vm.frames);
    forall g | IsTable(vm.words, root, g)
      ensures Locked(vm, g)
    {
    }
  }

  lemma NextTableFresh(vm: Vm, root: nat, p: seq<nat>, f: nat, index: nat)
    requires Inv(vm, root) && TableAt(vm.words, root, p, f) && |p| <= 2 && index < 512
    requires !Present(Entry(vm.words, f, index)) && !F.Exhausted(vm.frames)
    ensures var z := F.Requested(vm.frames);
            CanLink(vm.words, root, p, f, index, z, Mapped(Entry(vm.words, f, index), z))
  {
    RequestLocks(vm.frames);
    MappedFrame(Entry(vm.words, f, index), F.Requested(vm.frames));
    assert !IsTable(vm.words, root, F.Requested(vm.frames));
  }

  /** Which tables exist after linking one: the old ones where they were, and the new one. */
  lemma LinkTables(m: Words, root: nat, p: seq<nat>, f: nat, i: nat, z: nat, value: nat)
    requires CanLink(m, root, p, f, i, z, value)
    ensures var m' := Linked(m, f, i, z, value);
            forall q, g :: TableAt(m', root, q, g) <==> TableAt(m, root, q, g) || (q == p + [i] && g == z)
    ensures Tree(Linked(m, f, i, z, value), root)
  {
    var m' := Linked(m, f, i, z, value);
    forall q, g
      ensures TableAt(m', root, q, g) <==> TableAt(m, root, q, g) || (q == p + [i] && g == z)
    {
      if TablePath(q) {
        LinkWalk(m, root, p, f, i, z, value, q);
      }
    }
  }

  // The three cases of linking in one statement.
  lemma LinkWalk(m: Words, root: nat, p: seq<nat>, f: nat, i: nat, z: nat, value: nat, q: seq<nat>)
    requires CanLink(m, root, p, f, i, z, value) && Indices(q)
    ensures q == p + [i] ==> Walk(m, root, q) == None
    ensures Walk(Linked(m, f, i, z, value), root, q)
         == if q == p + [i] then Some(NewTable(Walk(m, root, p).value, Entry(m, f, i), z)) else Walk(m, root, q)
  {
    if q == p + [i] {
      LinkFound(m, root, p, f, i, z, value);
    } else if p + [i] <= q {
      LinkBelow(m, root, p, f, i, z, value, q);
    } else {
      LinkElsewhere(m, root, p, f, i, z, value, q);
    }
  }

  /** Descending one level, allocating if need be, keeps the invariant and every translation. */
  lemma NextTableExact(vm: Vm, root: nat, p: seq<nat>, f: nat, index: nat)
    requires Inv(vm, root) && TableAt(vm.words, root, p, f) && |p| <= 2 && index < 512
    requires NextTable(vm, f, index).Done?
    ensures var after, g := NextTable(vm, f, index).vm, NextTable(vm, f, index).frame;
            Inv(after, root) && Extends(vm, after, root) && SameTranslations(vm, after, root)
            && TableAt(after.words, root, p + [index], g)
  {
    var entry := Entry(vm.words, f, index);
    assert (p + [index])[..|p|] == p;
    if Present(entry) {
      assert TableAt(vm.words, root, p + [index], Frame(entry));
      assert forall g :: IsTable(vm.words, root, g) ==> Locked(vm, g);
    } else {
      NextTableFresh(vm, root, p, f, index);
      FreshTableExact(vm, root, p, f, index);
    }
  }

  lemma FreshTableExact(vm: Vm, root: nat, p: seq<nat>, f: nat, index: nat)
    requires Inv(vm, root) && TableAt(vm.words, root, p, f) && |p| <= 2 && index < 512
    requires !Present(Entry(vm.words, f, index)) && !F.Exhausted(vm.frames)
    ensures var after, g := NextTable(vm, f, index).vm, NextTable(vm, f, index).frame;
            Inv(after, root) && Extends(vm, after, root) && SameTranslations(vm, after, root)
            && TableAt(after.words, root, p + [index], g)
  {
    var z := F.Requested(vm.frames);
    var value := Mapped(Entry(vm.words, f, index), z);
    var after := NextTable(vm, f, index).vm;
    NextTableFresh(vm, root, p, f, index);
    RequestLocks(vm.frames);
    LinkTables(vm.words, root, p, f, index, z, value);
    forall q | Indices(q)
      ensures Walk(after.words, root, q).Some? ==> Walk(after.words, root, q).value.writable
      ensures IsRoute(q) ==> Walk(after.words, root, q) == Walk(vm.words, root, q)
    {
      LinkWalk(vm.words, root, p, f, index, z, value, q);
    }
    forall g | IsTable(after.words, root, g)
      ensures IsTable(vm.words, root, g) || g == z
    {
      var q :| TableAt(after.words, root, q, g);
    }
  }

  lemma ExtendsTransitive(a: Vm, b: Vm, c: Vm, root: nat)
    requires Extends(a, b, root) && Extends(b, c, root)
    ensures Extends(a, c, root)
  {
    forall f | IsTable(c.words, root, f)
      ensures IsTable(a.words, root, f) || !Locked(a, f)
    {
      assert IsTable(b.words, root, f) || !Locked(b, f);
    }
  }

  // ----- MapMemory -----

  // One level further down, unless the kernel has panicked.
  function Below(r: Outcome, index: nat): (s: Outcome)
    requires F.Valid(r.vm.frames)
    ensures F.Valid(s.vm.frames) && s.vm.frames.size == r.vm.frames.size
  {
    if r.Panic? then r else NextTable(r.vm, r.frame, index)
  }

  // The descents from the root along a path.
  function DescendAlong(vm: Vm, root: nat, path: seq<nat>): (r: Outcome)
    requires F.Valid(vm.frames)
    ensures F.Valid(r.vm.frames) && r.vm.frames.size == vm.frames.size
    decreases |path|
  {
    if path == [] then Done(vm, root)
    else Below(DescendAlong(vm, root, path[..|path| - 1]), path[|path| - 1])
  }

  // MapMemory's three, ending at the last-level table.
  function Descend(vm: Vm, root: nat, route: seq<nat>): (r: Outcome)
    requires F.Valid(vm.frames) && |route| == 4
    ensures F.Valid(r.vm.frames) && r.vm.frames.size == vm.frames.size
  {
    DescendAlong(vm, root, route[..3])
  }

  lemma DescendThree(vm: Vm, root: nat, route: seq<nat>)
    requires F.Valid(vm.frames) && |route| == 4
    ensures Descend(vm, root, route) == Below(Below(Below(Done(vm, root), route[0]), route[1]), route[2])
  {
    var p1, p2, p3 := route[..1], route[..2], route[..3];
    assert p3[..2] == p2 && p2[..1] == p1 && p1[..0] == [];
    assert DescendAlong(vm, root, p1) == Below(Done(vm, root), route[0]);
    assert DescendAlong(vm, root, p2) == Below(DescendAlong(vm, root, p1), route[1]);
  }

  // MapMemory along a route; `address` is the physical address shifted right by 12.
  function Map(vm: Vm, root: nat, route: seq<nat>, address: nat): (r: Outcome)
    requires F.Valid(vm.frames) && |route| == 4
    ensures F.Valid(r.vm.frames) && r.vm.frames.size == vm.frames.size
  {
    var s := Descend(vm, root, route);
    if s.Panic? then s
    else
      var value := Mapped(Entry(s.vm.words, s.frame, route[3]), address);
      s.(vm := s.vm.(words := Write(s.vm.words, s.frame, route[3], value)))
  }

  // Either outcome of a descent keeps the invariant and all translations.
  ghost predicate Descended(vm: Vm, root: nat, path: seq<nat>, r: Outcome) {
    && Inv(r.vm, root) && Extends(vm, r.vm, root) && SameTranslations(vm, r.vm, root)
    && (r.Done? ==> TableAt(r.vm.words, root, path, r.frame))
  }

  lemma DescendedBelow(vm: Vm, root: nat, p: seq<nat>, r: Outcome, index: nat)
    requires Descended(vm, root, p, r) && |p| <= 2 && index < 512
    ensures Descended(vm, root, p + [index], Below(r, index))
  {
    if r.Done? {
      var s := NextTable(r.vm, r.frame, index);
      if s.Done? {
        NextTableExact(r.vm, root, p, r.frame, index);
      } else {
        NextTablePanic(r.vm, root, r.frame, index);
      }
      ExtendsTransitive(vm, r.vm, s.vm, root);
    }
  }

  lemma ExtendsReflexive(vm: Vm, root: nat)
    requires Inv(vm, root)
    ensures Extends(vm, vm, root)
  {
  }

  lemma {:induction false} DescendAlongExact(vm: Vm, root: nat, path: seq<nat>)
    requires Inv(vm, root) && TablePath(path)
    ensures Descended(vm, root, path, DescendAlong(vm, root, path))
    decreases |path|
  {
    if path == [] {
      assert TableAt(vm.words, root, path, root);
      ExtendsReflexive(vm, root);
    } else {
      var front, index := path[..|path| - 1], path[|path| - 1];
      DescendAlongExact(vm, root, front);
      DescendedBelow(vm, root, front, DescendAlong(vm, root, front), index);
      assert front + [index] == path;
    }
  }

  lemma DescendExact(vm: Vm, root: nat, route: seq<nat>)
    requires Inv(vm, root) && IsRoute(route)
    ensures Descended(vm, root, route[..3], Descend(vm, root, route))
  {
    DescendAlongExact(vm, root, route[..3]);
  }

  /** Writing a last-level entry changes the walk of its own page only, and no table. */
  lemma LeafExact(m: Words, root: nat, p: seq<nat>, f: nat, i: nat, value: nat, q: seq<nat>)
    requires Tree(m, root) && TableAt(m, root, p, f) && |p| == 3 && i < 512 && Indices(q)
    ensures Walk(Write(m, f, i, value), root, q)
         == if q == p + [i] then Follow(value, Walk(m, root, p).value) else Walk(m, root, q)
  {
    if q == p + [i] {
      WriteAtEnd(m, root, p, f, i, value);
    } else {
      assert p + [i] <= q ==> q == p + [i];
      WriteElsewhere(m, root, p, f, i, value, q);
    }
  }

  lemma LeafKeepsTables(vm: Vm, root: nat, p: seq<nat>, f: nat, i: nat, value: nat)
    requires Inv(vm, root) && TableAt(vm.words, root, p, f) && |p| == 3 && i < 512 && (Present(value) ==> Writable(value))
    ensures var after := vm.(words := Write(vm.words, f, i, value));
            Inv(after, root) && Extends(vm, after, root)
  {
    var after := vm.(words := Write(vm.words, f, i, value));
    forall q | Indices(q)
      ensures TablePath(q) ==> Walk(after.words, root, q) == Walk(vm.words, root, q)
      ensures Walk(after.words, root, q).Some? ==> Walk(after.words, root, q).value.writable
    {
      LeafExact(vm.words, root, p, f, i, value, q);
    }
    assert forall q, g :: TableAt(after.words, root, q, g) <==> TableAt(vm.words, root, q, g);
    forall g | IsTable(after.words, root, g)
      ensures IsTable(vm.words, root, g)
    {
      var q :| TableAt(after.words, root, q, g);
      assert TableAt(vm.words, root, q, g);
    }
  }

  // What MapMemory promises: the page goes to the frame, writable, and no other page moves.
  ghost predicate MapsOnly(vm: Vm, after: Vm, root: nat, route: seq<nat>, frame: nat) {
    && (forall q :: IsRoute(q) && q != route ==> Walk(after.words, root, q) == Walk(vm.words, root, q))
    && Walk(after.words, root, route).Some?
    && Walk(after.words, root, route).value.frame == frame
    && Walk(after.words, root, route).value.writable
    && (Walk(vm.words, root, route).Some? ==>
          Walk(after.words, root, route).value.user == Walk(vm.words, root, route).value.user)
  }

  /**
   * MapMemory translates its page to the given frame, present and writable, and leaves every
   * other page's translation as it was, whichever of the three tables had to be allocated.
   */
  lemma MapExact(vm: Vm, root: nat, route: seq<nat>, address: nat)
    requires Inv(vm, root) && IsRoute(route)
    ensures var r := Map(vm, root, route, address);
            Inv(r.vm, root) && Extends(vm, r.vm, root)
            && (r.Panic? ==> SameTranslations(vm, r.vm, root))
            && (r.Done? ==> MapsOnly(vm, r.vm, root, route, address % FRAMES))
  {
    DescendExact(vm, root, route);
    var s := Descend(vm, root, route);
    if s.Done? {
      var p, i := route[..3], route[3];
      assert p + [i] == route;
      var before := Entry(s.vm.words, s.frame, i);
      MappedExact(before, address);
      LeafKeepsTables(s.vm, root, p, s.frame, i, Mapped(before, address));
      ExtendsTransitive(vm, s.vm, Map(vm, root, route, address).vm, root);
      forall q | IsRoute(q)
        ensures Walk(Map(vm, root, route, address).vm.words, root, q)
             == if q == route then Follow(Mapped(before, address), Walk(s.vm.words, root, p).value)
                else Walk(vm.words, root, q)
      {
        LeafExact(s.vm.words, root, p, s.frame, i, Mapped(before, address), q);
      }
      assert Walk(s.vm.words, root, p).value.writable;
      assert Walk(s.vm.words, root, route) == Follow(before, Walk(s.vm.words, root, p).value);
    }
  }

  /**
   * Every table has one parent entry: two present entries of tables above the last level never share a target, and
   * none points to the root.
   */
  lemma OneParent(m: Words, root: nat, p: seq<nat>, q: seq<nat>, f: nat, g: nat, i: nat, j: nat)
    requires Tree(m, root)
    requires TableAt(m, root, p, f) && |p| <= 2 && i < 512 && Present(Entry(m, f, i))
    requires TableAt(m, root, q, g) && |q| <= 2 && j < 512 && Present(Entry(m, g, j))
    ensures Frame(Entry(m, f, i)) == Frame(Entry(m, g, j)) ==> f == g && i == j
    ensures Frame(Entry(m, f, i)) != root
  {
    ChildTable(m, root, p, f, i, p + [i]);
    ChildTable(m, root, q, g, j, q + [j]);
    assert TableAt(m, root, [], root);
    if Frame(Entry(m, f, i)) == Frame(Entry(m, g, j)) {
      SameParent(p, q, i, j);
    }
  }

  lemma ChildTable(m: Words, root: nat, p: seq<nat>, f: nat, i: nat, child: seq<nat>)
    requires TableAt(m, root, p, f) && |p| <= 2 && i < 512 && Present(Entry(m, f, i)) && child == p + [i]
    ensures TableAt(m, root, child, Frame(Entry(m, f, i))) && child != []
  {
    assert child[..|p|] == p;
  }

  lemma SameParent(p: seq<nat>, q: seq<nat>, i: nat, j: nat)
    requires p + [i] == q + [j]
    ensures p == q && i == j
  {
    assert (p + [i])[..|p|] == p && (q + [j])[..|q|] == q;
    assert (p + [i])[|p|] == i && (q + [j])[|q|] == j;
  }

  /** RequestPage never hands out a live table. */
  lemma RequestAvoidsTables(vm: Vm, root: nat)
    requires Inv(vm, root) && !F.Exhausted(vm.frames)
    ensures !IsTable(vm.words, root, F.Requested(vm.frames))
    ensures Inv(vm.(frames := F.AfterRequest(vm.frames)), root)
  {
    RequestLocks(vm.frames);
  }
}
