// Opening pages to user mode (MapUserspaceMemory in kernel/src/memory/ptm.cpp),
// and the exact set of pages user mode can reach (Intel SDM Vol. 3A, section 4.6).

module VmShare {
  import opened Paging
  import opened PageIndex
  import opened PageTables
  import opened VmSpec
  import F = FrameSpec

  // The entry read, its user flag set, and written back.
  function ShareAt(m: Words, f: nat, i: nat): Words {
    Write(m, f, i, Shared(Entry(m, f, i)))
  }

  // MapUserspaceMemory along a route: each level follows the entry it has just
  // written, present or not.
  function Share(m: Words, root: nat, route: seq<nat>): Words
    requires |route| == 4
  {
    var m1 := ShareAt(m, root, route[0]);
    var l3 := Frame(Entry(m1, root, route[0]));
    var m2 := ShareAt(m1, l3, route[1]);
    var l2 := Frame(Entry(m2, l3, route[1]));
    var m3 := ShareAt(m2, l2, route[2]);
    var l1 := Frame(Entry(m3, l2, route[2]));
    ShareAt(m3, l1, route[3])
  }

  // The same place, with the same write access; user access may have been added.
  predicate Opened(before: Option<Access>, after: Option<Access>) {
    && before.Some? == after.Some?
    && (before.Some? ==> before.value.frame == after.value.frame && before.value.writable == after.value.writable
                         && (before.value.user ==> after.value.user))
  }

  ghost predicate OnlyOpens(m: Words, m': Words, root: nat) {
    forall q :: Opened(Walk(m, root, q), Walk(m', root, q))
  }

  lemma EntryShared(m: Words, f: nat, i: nat, g: nat, j: nat)
    ensures Entry(ShareAt(m, f, i), g, j) == if g == f && j == i then Shared(Entry(m, f, i)) else Entry(m, g, j)
  {
  }

  // Setting a user flag anywhere in memory moves no walk, wherever the word lies.
  lemma {:induction false} ShareOpens(m: Words, root: nat, f: nat, i: nat, q: seq<nat>)
    ensures Opened(Walk(m, root, q), Walk(ShareAt(m, f, i), root, q))
    decreases |q|
  {
    if q != [] {
      var front, index := q[..|q| - 1], q[|q| - 1];
      ShareOpens(m, root, f, i, front);
      if Walk(m, root, front).Some? {
        var g := Walk(m, root, front).value.frame;
        EntryShared(m, f, i, g, index);
        SharedExact(Entry(m, f, i));
        FollowOpened(Entry(m, g, index), Entry(ShareAt(m, f, i), g, index),
                     Walk(m, root, front).value, Walk(ShareAt(m, f, i), root, front).value);
      }
    }
  }

  lemma FollowOpened(e: nat, e': nat, a: Access, a': Access)
    requires e' == e || Shares(e', e)
    requires a'.frame == a.frame && a'.writable == a.writable && (a.user ==> a'.user)
    ensures Opened(Follow(e, a), Follow(e', a'))
  {
  }

  lemma ShareAtOnlyOpens(m: Words, root: nat, f: nat, i: nat)
    ensures OnlyOpens(m, ShareAt(m, f, i), root)
  {
    forall q
      ensures Opened(Walk(m, root, q), Walk(ShareAt(m, f, i), root, q))
    {
      ShareOpens(m, root, f, i, q);
    }
  }

  /** MapUserspaceMemory never changes a translation, even on a page that is not mapped. */
  lemma ShareOnlyOpens(m: Words, root: nat, route: seq<nat>)
    requires |route| == 4
    ensures OnlyOpens(m, Share(m, root, route), root)
  {
    var m1 := ShareAt(m, root, route[0]);
    var l3 := Frame(Entry(m1, root, route[0]));
    var m2 := ShareAt(m1, l3, route[1]);
    var l2 := Frame(Entry(m2, l3, route[1]));
    var m3 := ShareAt(m2, l2, route[2]);
    var l1 := Frame(Entry(m3, l2, route[2]));
    ShareAtOnlyOpens(m, root, root, route[0]);
    ShareAtOnlyOpens(m1, root, l3, route[1]);
    ShareAtOnlyOpens(m2, root, l2, route[2]);
    ShareAtOnlyOpens(m3, root, l1, route[3]);
    OpensTransitive(m, m1, m2, root);
    OpensTransitive(m, m2, m3, root);
    OpensTransitive(m, m3, Share(m, root, route), root);
  }

  lemma OpensTransitive(a: Words, b: Words, c: Words, root: nat)
    requires OnlyOpens(a, b, root) && OnlyOpens(b, c, root)
    ensures OnlyOpens(a, c, root)
  {
    forall q
      ensures Opened(Walk(a, root, q), Walk(c, root, q))
    {
      assert Opened(Walk(a, root, q), Walk(b, root, q)) && Opened(Walk(b, root, q), Walk(c, root, q));
    }
  }

  lemma OpensKeepsTables(m: Words, m': Words, root: nat)
    requires OnlyOpens(m, m', root)
    ensures forall p, f :: TableAt(m', root, p, f) <==> TableAt(m, root, p, f)
    ensures Tree(m, root) ==> Tree(m', root)
  {
    forall p, f
      ensures TableAt(m', root, p, f) <==> TableAt(m, root, p, f)
    {
      assert Opened(Walk(m, root, p), Walk(m', root, p));
    }
  }

  lemma OpensKeepsInv(vm: Vm, m': Words, root: nat)
    requires Inv(vm, root) && OnlyOpens(vm.words, m', root)
    ensures Inv(vm.(words := m'), root) && Extends(vm, vm.(words := m'), root)
  {
    OpensKeepsTables(vm.words, m', root);
    forall q | Indices(q) && Walk(m', root, q).Some?
      ensures Walk(m', root, q).value.writable
    {
      assert Opened(Walk(vm.words, root, q), Walk(m', root, q));
    }
    forall f | IsTable(m', root, f)
      ensures IsTable(vm.words, root, f) && Locked(vm, f)
    {
      var p :| TableAt(m', root, p, f);
      assert TableAt(vm.words, root, p, f);
    }
  }

  // ----- Exactly which pages are open -----

  // The last-level user flags are set for the pages of `open` only, and those
  // pages are mapped with the flag set at all four levels.
  ghost predicate UserExact(m: Words, root: nat, open: set<seq<nat>>) {
    && (forall q :: IsRoute(q) && q in open ==> Walk(m, root, q).Some? && Walk(m, root, q).value.user)
    && (forall q, t :: IsRoute(q) && TableAt(m, root, q[..3], t) && User(Entry(m, t, q[3])) ==> q in open)
  }

  predicate UserReaches(m: Words, root: nat, route: seq<nat>) {
    Walk(m, root, route).Some? && Walk(m, root, route).value.user
  }

  /** Under the invariant, user mode reaches exactly the pages of `open`. */
  lemma UserReachesExactly(m: Words, root: nat, open: set<seq<nat>>, route: seq<nat>)
    requires UserExact(m, root, open) && IsRoute(route)
    ensures UserReaches(m, root, route) <==> route in open
  {
    if UserReaches(m, root, route) {
      assert TableAt(m, root, route[..3], Walk(m, root, route[..3]).value.frame);
    }
  }

  // An entry above the last level is not the entry of a page.
  lemma UpperEntry(m: Words, root: nat, p: seq<nat>, f: nat, q: seq<nat>, t: nat)
    requires Tree(m, root) && TableAt(m, root, p, f) && |p| <= 2
    requires IsRoute(q) && TableAt(m, root, q[..3], t)
    ensures t != f
  {
    var r := q[..3];
    assert t == f ==> p == r;
  }

  lemma ShareUpper(m: Words, root: nat, p: seq<nat>, f: nat, i: nat, open: set<seq<nat>>)
    requires Tree(m, root) && TableAt(m, root, p, f) && |p| <= 2 && UserExact(m, root, open)
    ensures UserExact(ShareAt(m, f, i), root, open)
  {
    var m' := ShareAt(m, f, i);
    ShareAtOnlyOpens(m, root, f, i);
    OpensKeepsTables(m, m', root);
    forall q | IsRoute(q) && q in open
      ensures Walk(m', root, q).Some? && Walk(m', root, q).value.user
    {
      assert Opened(Walk(m, root, q), Walk(m', root, q));
    }
    forall q, t | IsRoute(q) && TableAt(m', root, q[..3], t) && User(Entry(m', t, q[3]))
      ensures q in open
    {
      UpperEntry(m, root, p, f, q, t);
      EntryShared(m, f, i, t, q[3]);
    }
  }

  lemma ShareLeaf(m: Words, root: nat, route: seq<nat>, t: nat, open: set<seq<nat>>)
    requires Tree(m, root) && IsRoute(route) && TableAt(m, root, route[..3], t)
    requires Walk(m, root, route).Some? && Walk(m, root, route[..3]).value.user
    requires UserExact(m, root, open)
    ensures UserExact(ShareAt(m, t, route[3]), root, open + {route})
  {
    var p, i := route[..3], route[3];
    var value := Shared(Entry(m, t, i));
    var m' := ShareAt(m, t, i);
    assert p + [i] == route;
    SharedExact(Entry(m, t, i));
    ShareAtOnlyOpens(m, root, t, i);
    OpensKeepsTables(m, m', root);
    forall q | IsRoute(q) && q in open + {route}
      ensures Walk(m', root, q).Some? && Walk(m', root, q).value.user
    {
      assert Opened(Walk(m, root, q), Walk(m', root, q));
      LeafExact(m, root, p, t, i, value, q);
    }
    forall q, u | IsRoute(q) && TableAt(m', root, q[..3], u) && User(Entry(m', u, q[3]))
      ensures q in open + {route}
    {
      assert TableAt(m, root, q[..3], u);
      EntryShared(m, t, i, u, q[3]);
      if u == t && q[3] == i {
        assert q[..3] == p;
        assert q == q[..3] + [q[3]];
      }
    }
  }

  // One level of sharing along a mapped path: the path below is open so far.
  lemma SharePath(m: Words, root: nat, p: seq<nat>, f: nat, i: nat)
    requires Tree(m, root) && TableAt(m, root, p, f)
    requires Walk(m, root, p).value.user && Walk(m, root, p + [i]).Some?
    ensures Tree(ShareAt(m, f, i), root)
    ensures Walk(ShareAt(m, f, i), root, p + [i]).Some? && Walk(ShareAt(m, f, i), root, p + [i]).value.user
    ensures Walk(ShareAt(m, f, i), root, p + [i]).value.frame == Frame(Entry(ShareAt(m, f, i), f, i))
  {
    SharedExact(Entry(m, f, i));
    ShareAtOnlyOpens(m, root, f, i);
    OpensKeepsTables(m, ShareAt(m, f, i), root);
    WriteAtEnd(m, root, p, f, i, Shared(Entry(m, f, i)));
    assert (p + [i])[..|p|] == p;
  }

  /** Sharing a mapped page opens that page and no other. */
  lemma ShareExact(m: Words, root: nat, route: seq<nat>, open: set<seq<nat>>)
    requires Tree(m, root) && IsRoute(route) && Walk(m, root, route).Some? && UserExact(m, root, open)
    ensures UserExact(Share(m, root, route), root, open + {route})
  {
    var p0: seq<nat> := [];
    var p1, p2, p3 := p0 + [route[0]], p0 + [route[0]] + [route[1]], p0 + [route[0]] + [route[1]] + [route[2]];
    assert p1 == route[..1] && p2 == route[..2] && p3 == route[..3];
    WalkPrefix(m, root, route, 1);
    var m1 := ShareAt(m, root, route[0]);
    var l3 := Frame(Entry(m1, root, route[0]));
    assert TableAt(m, root, p0, root);
    ShareUpper(m, root, p0, root, route[0], open);
    SharePath(m, root, p0, root, route[0]);
    ShareAtOnlyOpens(m, root, root, route[0]);
    assert Opened(Walk(m, root, route), Walk(m1, root, route));
    ShareExactFrom(m1, root, route, l3, open);
  }

  lemma ShareExactFrom(m1: Words, root: nat, route: seq<nat>, l3: nat, open: set<seq<nat>>)
    requires Tree(m1, root) && IsRoute(route) && Walk(m1, root, route).Some? && UserExact(m1, root, open)
    requires TableAt(m1, root, route[..1], l3) && Walk(m1, root, route[..1]).value.user
    ensures var m2 := ShareAt(m1, l3, route[1]);
            var l2 := Frame(Entry(m2, l3, route[1]));
            var m3 := ShareAt(m2, l2, route[2]);
            UserExact(ShareAt(m3, Frame(Entry(m3, l2, route[2])), route[3]), root, open + {route})
  {
    var p1, p2, p3 := route[..1], route[..1] + [route[1]], route[..1] + [route[1]] + [route[2]];
    assert p2 == route[..2] && p3 == route[..3];
    var m2 := ShareAt(m1, l3, route[1]);
    var l2 := Frame(Entry(m2, l3, route[1]));
    WalkPrefix(m1, root, route, 2);
    ShareUpper(m1, root, p1, l3, route[1], open);
    SharePath(m1, root, p1, l3, route[1]);
    ShareAtOnlyOpens(m1, root, l3, route[1]);
    assert Opened(Walk(m1, root, route), Walk(m2, root, route));
    var m3 := ShareAt(m2, l2, route[2]);
    WalkPrefix(m2, root, route, 3);
    ShareUpper(m2, root, p2, l2, route[2], open);
    SharePath(m2, root, p2, l2, route[2]);
    ShareAtOnlyOpens(m2, root, l2, route[2]);
    assert Opened(Walk(m2, root, route), Walk(m3, root, route));
    ShareLeaf(m3, root, route, Frame(Entry(m3, l2, route[2])), open);
  }

  // ----- Mapping keeps the set of open pages -----

  lemma LinkKeepsUsers(m: Words, root: nat, p: seq<nat>, f: nat, i: nat, z: nat, value: nat, open: set<seq<nat>>)
    requires CanLink(m, root, p, f, i, z, value) && UserExact(m, root, open)
    ensures UserExact(Linked(m, f, i, z, value), root, open)
  {
    var m' := Linked(m, f, i, z, value);
    LinkTables(m, root, p, f, i, z, value);
    forall q | IsRoute(q) && q in open
      ensures Walk(m', root, q).Some? && Walk(m', root, q).value.user
    {
      LinkWalk(m, root, p, f, i, z, value, q);
    }
    assert TableAt(m, root, p, f) && IsTable(m, root, f);
    forall q, t | IsRoute(q) && TableAt(m', root, q[..3], t) && User(Entry(m', t, q[3]))
      ensures q in open
    {
      if TableAt(m, root, q[..3], t) {
        UpperEntry(m, root, p, f, q, t);
        assert IsTable(m, root, t);
        assert Entry(m', t, q[3]) == Entry(m, t, q[3]);
      } else {
        assert t == z && Entry(m', z, q[3]) == 0;
        ZeroNotUser();
      }
    }
  }

  lemma ZeroNotUser()
    ensures !User(0)
  {
  }

  lemma NextTableKeepsUsers(vm: Vm, root: nat, p: seq<nat>, f: nat, index: nat, open: set<seq<nat>>)
    requires Inv(vm, root) && TableAt(vm.words, root, p, f) && |p| <= 2 && index < 512
    requires UserExact(vm.words, root, open)
    ensures UserExact(NextTable(vm, f, index).vm.words, root, open)
  {
    if !Present(Entry(vm.words, f, index)) && !F.Exhausted(vm.frames) {
      NextTableFresh(vm, root, p, f, index);
      var z := F.Requested(vm.frames);
      LinkKeepsUsers(vm.words, root, p, f, index, z, Mapped(Entry(vm.words, f, index), z), open);
    }
  }

  // A table reached along p, with the user flags exact.
  ghost predicate Standing(r: Outcome, root: nat, p: seq<nat>, open: set<seq<nat>>) {
    Inv(r.vm, root) && UserExact(r.vm.words, root, open) && (r.Done? ==> TableAt(r.vm.words, root, p, r.frame))
  }

  lemma StandingBelow(r: Outcome, root: nat, p: seq<nat>, index: nat, open: set<seq<nat>>)
    requires Standing(r, root, p, open) && |p| <= 2 && index < 512
    ensures Standing(Below(r, index), root, p + [index], open)
  {
    ExtendsReflexive(r.vm, root);
    DescendedBelow(r.vm, root, p, r, index);
    if r.Done? {
      NextTableKeepsUsers(r.vm, root, p, r.frame, index, open);
    }
  }

  lemma {:induction false} DescendStands(vm: Vm, root: nat, path: seq<nat>, open: set<seq<nat>>)
    requires Inv(vm, root) && TablePath(path) && UserExact(vm.words, root, open)
    ensures Standing(DescendAlong(vm, root, path), root, path, open)
    decreases |path|
  {
    if path == [] {
      assert TableAt(vm.words, root, path, root);
    } else {
      var front, index := path[..|path| - 1], path[|path| - 1];
      DescendStands(vm, root, front, open);
      StandingBelow(DescendAlong(vm, root, front), root, front, index, open);
      assert front + [index] == path;
    }
  }

  /** MapMemory opens no page and closes none. */
  lemma MapKeepsUsers(vm: Vm, root: nat, route: seq<nat>, address: nat, open: set<seq<nat>>)
    requires Inv(vm, root) && IsRoute(route) && UserExact(vm.words, root, open)
    ensures UserExact(Map(vm, root, route, address).vm.words, root, open)
  {
    DescendExact(vm, root, route);
    DescendStands(vm, root, route[..3], open);
    var s := Descend(vm, root, route);
    if s.Done? {
      var before := Entry(s.vm.words, s.frame, route[3]);
      MappedExact(before, address);
      LeafKeepsUsers(s.vm.words, root, route, s.frame, Mapped(before, address), address % FRAMES, open);
    }
  }

  lemma LeafKeepsUsers(m: Words, root: nat, route: seq<nat>, t: nat, value: nat, frame: nat, open: set<seq<nat>>)
    requires Tree(m, root) && IsRoute(route) && TableAt(m, root, route[..3], t)
    requires Maps(value, Entry(m, t, route[3]), frame) && UserExact(m, root, open)
    ensures UserExact(Write(m, t, route[3], value), root, open)
  {
    var p, i := route[..3], route[3];
    var m' := Write(m, t, i, value);
    assert p + [i] == route;
    forall q | Indices(q)
      ensures Walk(m', root, q) == if q == route then Follow(value, Walk(m, root, p).value) else Walk(m, root, q)
    {
      LeafExact(m, root, p, t, i, value, q);
    }
    forall q, u | IsRoute(q) && TableAt(m', root, q[..3], u) && User(Entry(m', u, q[3]))
      ensures q in open
    {
      assert TableAt(m, root, q[..3], u);
      assert Entry(m', u, q[3]) == if u == t && q[3] == i then value else Entry(m, u, q[3]);
    }
  }

  // Whatever pages are open before are exactly the open pages after.
  ghost predicate KeepsUsers(m: Words, m': Words, root: nat) {
    forall open :: UserExact(m, root, open) ==> UserExact(m', root, open)
  }

  lemma MapKeepsAllUsers(vm: Vm, root: nat, route: seq<nat>, address: nat)
    requires Inv(vm, root) && IsRoute(route)
    ensures KeepsUsers(vm.words, Map(vm, root, route, address).vm.words, root)
  {
    forall open | UserExact(vm.words, root, open)
      ensures UserExact(Map(vm, root, route, address).vm.words, root, open)
    {
      MapKeepsUsers(vm, root, route, address, open);
    }
  }

  lemma KeepsUsersTransitive(a: Words, b: Words, c: Words, root: nat)
    requires KeepsUsers(a, b, root) && KeepsUsers(b, c, root)
    ensures KeepsUsers(a, c, root)
  {
    forall open | UserExact(a, root, open)
      ensures UserExact(c, root, open)
    {
      assert UserExact(b, root, open);
    }
  }
}
