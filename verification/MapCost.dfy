// When MapMemory runs out of memory: kernel/src/memory/ptm.cpp over pfa.cpp.

module MapCost {
  import opened Paging
  import opened PageIndex
  import opened PageTables
  import opened VmSpec
  import F = FrameSpec

  // How many tables along a path are not there yet.
  function Missing(m: Words, root: nat, path: seq<nat>): (n: nat)
    ensures n <= |path|
    decreases |path|
  {
    if path == [] then 0
    else Missing(m, root, path[..|path| - 1]) + (if Walk(m, root, path).Some? then 0 else 1)
  }

  // The three tables above a page.
  function MissingTables(m: Words, root: nat, route: seq<nat>): (n: nat)
    requires |route| == 4
    ensures n <= 3
  {
    Missing(m, root, route[..3])
  }

  // A descent ends well exactly when a page is available for each missing table, and takes just
  // these; otherwise it ends with none left.
  ghost predicate Costs(vm: Vm, r: Outcome, missing: nat)
    requires F.Valid(vm.frames) && F.Valid(r.vm.frames)
  {
    && (r.Done? <==> missing <= F.Available(vm.frames))
    && F.Available(r.vm.frames) == (if r.Done? then F.Available(vm.frames) - missing else 0)
    && (missing == 0 ==> r.vm.frames == vm.frames)
  }

  // The descent touches nothing off its path.
  lemma {:induction false} DescendAdds(vm: Vm, root: nat, path: seq<nat>, q: seq<nat>)
    requires Inv(vm, root) && TablePath(path) && Indices(q) && !(q <= path)
    ensures Walk(DescendAlong(vm, root, path).vm.words, root, q) == Walk(vm.words, root, q)
    decreases |path|
  {
    if path != [] {
      var front, index := path[..|path| - 1], path[|path| - 1];
      assert front + [index] == path;
      var s := DescendAlong(vm, root, front);
      assert !(q <= front);
      DescendAdds(vm, root, front, q);
      DescendAlongExact(vm, root, front);
      if s.Done? {
        NextTableAdds(s.vm, root, front, s.frame, index, q);
      }
    }
  }

  lemma NextTableAdds(vm: Vm, root: nat, p: seq<nat>, f: nat, index: nat, q: seq<nat>)
    requires Inv(vm, root) && TableAt(vm.words, root, p, f) && |p| <= 2 && index < 512 && Indices(q) && q != p + [index]
    ensures Walk(NextTable(vm, f, index).vm.words, root, q) == Walk(vm.words, root, q)
  {
    var entry := Entry(vm.words, f, index);
    if !Present(entry) && !F.Exhausted(vm.frames) {
      NextTableFresh(vm, root, p, f, index);
      var z := F.Requested(vm.frames);
      LinkWalk(vm.words, root, p, f, index, z, Mapped(entry, z), q);
    }
  }

  lemma PresentIsWalked(m: Words, root: nat, p: seq<nat>, f: nat, index: nat, path: seq<nat>)
    requires TableAt(m, root, p, f) && path == p + [index]
    ensures Walk(m, root, path).Some? <==> Present(Entry(m, f, index))
  {
    assert path[..|p|] == p;
  }

  lemma NextTableCosts(vm: Vm, f: nat, index: nat)
    requires F.Valid(vm.frames)
    ensures Costs(vm, NextTable(vm, f, index), if Present(Entry(vm.words, f, index)) then 0 else 1)
  {
    F.RequestAvailable(vm.frames);
  }

  lemma CostsAdd(vm: Vm, s: Outcome, r: Outcome, missing: nat, more: nat)
    requires F.Valid(vm.frames) && F.Valid(s.vm.frames) && F.Valid(r.vm.frames) && Costs(vm, s, missing)
    requires if s.Done? then Costs(s.vm, r, more) else r == s
    ensures Costs(vm, r, missing + more)
  {
  }

  lemma {:induction false} DescendCosts(vm: Vm, root: nat, path: seq<nat>)
    requires Inv(vm, root) && TablePath(path)
    ensures Costs(vm, DescendAlong(vm, root, path), Missing(vm.words, root, path))
    decreases |path|
  {
    if path != [] {
      var front, index := path[..|path| - 1], path[|path| - 1];
      var s, r := DescendAlong(vm, root, front), DescendAlong(vm, root, path);
      assert front + [index] == path;
      DescendCosts(vm, root, front);
      DescendAlongExact(vm, root, front);
      DescendAdds(vm, root, front, path);
      if s.Done? {
        PresentIsWalked(s.vm.words, root, front, s.frame, index, path);
        NextTableCosts(s.vm, s.frame, index);
      }
      CostsAdd(vm, s, r, Missing(vm.words, root, front), if Walk(vm.words, root, path).Some? then 0 else 1);
    }
  }

  /**
   * MapMemory panics exactly when fewer pages are available than tables are missing above the page, and then
   * none is left; otherwise it takes just one page for each of them, and with all three there it takes none.
   */
  lemma MapCosts(vm: Vm, root: nat, route: seq<nat>, address: nat)
    requires Inv(vm, root) && IsRoute(route)
    ensures var r, missing := Map(vm, root, route, address), MissingTables(vm.words, root, route);
            && (r.Panic? <==> F.Available(vm.frames) < missing)
            && (r.Panic? ==> F.Exhausted(r.vm.frames))
            && (r.Done? ==> F.Available(r.vm.frames) == F.Available(vm.frames) - missing)
            && (missing == 0 ==> r.vm.frames == vm.frames)
  {
    DescendCosts(vm, root, route[..3]);
    F.RequestAvailable(Map(vm, root, route, address).vm.frames);
  }
}
