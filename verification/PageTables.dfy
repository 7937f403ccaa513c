// Four-level page tables in physical memory, and how writing one entry changes
// what the processor's walk finds (Intel SDM Vol. 3A, sections 4.5 and 4.6).

module PageTables {
  import opened Paging

  datatype Option<T> = None | Some(value: T)

  // Physical memory as entries: (frame, index) -> 64-bit word. Unwritten words read as zero.
  type Words = map<(nat, nat), nat>

  function Entry(m: Words, frame: nat, index: nat): nat {
    if (frame, index) in m then m[(frame, index)] else 0
  }

  function Write(m: Words, frame: nat, index: nat, value: nat): Words {
    m[(frame, index) := value]
  }

  // memset(frame, 0, 0x1000)
  function Zeroed(m: Words, frame: nat): (r: Words)
    ensures forall g, i :: Entry(r, g, i) == if g == frame && i < 512 then 0 else Entry(m, g, i)
  {
    ZeroedTo(m, frame, 512)
  }

  // The first k entries zeroed.
  function ZeroedTo(m: Words, frame: nat, k: nat): Words {
    m + ZeroBlock(frame, k)
  }

  function ZeroBlock(frame: nat, k: nat): (block: Words)
    ensures forall g: nat, i: nat :: (g, i) in block <==> g == frame && i < k
    ensures forall w :: w in block ==> block[w] == 0
  {
    map i: nat | 0 <= i < k :: (frame, i) := 0
  }

  lemma ZeroedStep(m: Words, frame: nat, k: nat)
    ensures Write(ZeroedTo(m, frame, k), frame, k, 0) == ZeroedTo(m, frame, k + 1)
  {
    var b, c := ZeroBlock(frame, k), ZeroBlock(frame, k + 1);
    forall w: (nat, nat)
      ensures w in c <==> w in b || w == (frame, k)
    {
      assert w == (w.0, w.1);
    }
    assert c == b[(frame, k) := 0];
    UpdateOfSum(m, b, frame, k);
  }

  lemma UpdateOfSum(m: Words, block: Words, frame: nat, k: nat)
    ensures Write(m + block, frame, k, 0) == m + block[(frame, k) := 0]
  {
  }

  // What the walk has accumulated: the frame it arrived at, and whether every
  // entry on the way allows writes and user accesses.
  datatype Access = Access(frame: nat, writable: bool, user: bool)

  // The walk from the root along a path of indices: a table for up to three
  // indices, the page itself for four.
  function Walk(m: Words, root: nat, path: seq<nat>): Option<Access>
    decreases |path|
  {
    if path == [] then Some(Access(root, true, true))
    else
      match Walk(m, root, path[..|path| - 1])
      case None => None
      case Some(a) => Follow(Entry(m, a.frame, path[|path| - 1]), a)
  }

  function Follow(entry: nat, a: Access): Option<Access> {
    if Present(entry)
    then Some(Access(Frame(entry), a.writable && Writable(entry), a.user && User(entry)))
    else None
  }

  predicate Indices(path: seq<nat>) {
    |path| <= 4 && forall i :: 0 <= i < |path| ==> path[i] < 512
  }

  // Paths to tables.
  predicate TablePath(path: seq<nat>) {
    |path| <= 3 && Indices(path)
  }

  // The frame of the table at a path.
  predicate TableAt(m: Words, root: nat, path: seq<nat>, frame: nat) {
    TablePath(path) && Walk(m, root, path).Some? && Walk(m, root, path).value.frame == frame
  }

  ghost predicate IsTable(m: Words, root: nat, frame: nat) {
    exists path :: TableAt(m, root, path, frame)
  }

  // The tables form a tree: no frame is reached along two paths.
  ghost predicate Tree(m: Words, root: nat) {
    forall p, q, f :: TableAt(m, root, p, f) && TableAt(m, root, q, f) ==> p == q
  }

  lemma {:induction false} WalkPrefix(m: Words, root: nat, path: seq<nat>, k: nat)
    requires k <= |path| && Walk(m, root, path).Some?
    ensures Walk(m, root, path[..k]).Some?
    decreases |path|
  {
    if k < |path| {
      var front := path[..|path| - 1];
      assert front[..k] == path[..k];
      WalkPrefix(m, root, front, k);
    } else {
      assert path[..k] == path;
    }
  }

  /** The walk depends only on the entries it passes. */
  lemma {:induction false} WalkDependsOn(m: Words, m': Words, root: nat, path: seq<nat>)
    requires forall k :: 0 <= k < |path| && Walk(m, root, path[..k]).Some? ==>
               var f := Walk(m, root, path[..k]).value.frame;
               Entry(m', f, path[k]) == Entry(m, f, path[k])
    ensures Walk(m', root, path) == Walk(m, root, path)
    decreases |path|
  {
    if path != [] {
      var n := |path| - 1;
      var front := path[..n];
      forall k | 0 <= k < n && Walk(m, root, front[..k]).Some?
        ensures var f := Walk(m, root, front[..k]).value.frame;
                Entry(m', f, front[k]) == Entry(m, f, front[k])
      {
        assert front[..k] == path[..k];
      }
      WalkDependsOn(m, m', root, front);
    }
  }

  lemma PrefixAt(p: seq<nat>, i: nat, q: seq<nat>, k: nat)
    requires k < |q|
    ensures q[..k] == p && q[k] == i ==> p + [i] <= q
  {
    assert q[..k + 1] == q[..k] + [q[k]];
  }

  /** Writing an entry of one table leaves every walk alone that does not pass this entry. */
  lemma WriteElsewhere(m: Words, root: nat, p: seq<nat>, f: nat, i: nat, value: nat, q: seq<nat>)
    requires Tree(m, root) && TableAt(m, root, p, f)
    requires Indices(q) && !(p + [i] <= q)
    ensures Walk(Write(m, f, i, value), root, q) == Walk(m, root, q)
  {
    var m' := Write(m, f, i, value);
    forall k | 0 <= k < |q| && Walk(m, root, q[..k]).Some?
      ensures var g := Walk(m, root, q[..k]).value.frame;
              Entry(m', g, q[k]) == Entry(m, g, q[k])
    {
      var g := Walk(m, root, q[..k]).value.frame;
      assert TableAt(m, root, q[..k], g);
      assert g == f ==> q[..k] == p;
      PrefixAt(p, i, q, k);
    }
    WalkDependsOn(m, m', root, q);
  }

  /** The path to a table does not pass the entries of that table. */
  lemma WriteKeepsOwnTable(m: Words, root: nat, p: seq<nat>, f: nat, i: nat, value: nat)
    requires Tree(m, root) && TableAt(m, root, p, f)
    ensures Walk(Write(m, f, i, value), root, p) == Walk(m, root, p)
  {
    WriteElsewhere(m, root, p, f, i, value, p);
  }

  lemma WriteAtEnd(m: Words, root: nat, p: seq<nat>, f: nat, i: nat, value: nat)
    requires Tree(m, root) && TableAt(m, root, p, f)
    ensures Walk(Write(m, f, i, value), root, p + [i]) == Follow(value, Walk(m, root, p).value)
  {
    WriteKeepsOwnTable(m, root, p, f, i, value);
    assert (p + [i])[..|p|] == p;
  }

  /** Zeroing a frame that holds no table leaves every walk alone. */
  lemma ZeroElsewhere(m: Words, root: nat, z: nat, q: seq<nat>)
    requires !IsTable(m, root, z) && Indices(q)
    ensures Walk(Zeroed(m, z), root, q) == Walk(m, root, q)
  {
    forall k | 0 <= k < |q| && Walk(m, root, q[..k]).Some?
      ensures var g := Walk(m, root, q[..k]).value.frame;
              Entry(Zeroed(m, z), g, q[k]) == Entry(m, g, q[k])
    {
      var g := Walk(m, root, q[..k]).value.frame;
      assert TableAt(m, root, q[..k], g);
    }
    WalkDependsOn(m, Zeroed(m, z), root, q);
  }

  lemma ZeroKeepsTree(m: Words, root: nat, z: nat)
    requires Tree(m, root) && !IsTable(m, root, z)
    ensures Tree(Zeroed(m, z), root) && !IsTable(Zeroed(m, z), root, z)
    ensures forall q :: Indices(q) ==> Walk(Zeroed(m, z), root, q) == Walk(m, root, q)
  {
    forall q | Indices(q)
      ensures Walk(Zeroed(m, z), root, q) == Walk(m, root, q)
    {
      ZeroElsewhere(m, root, z, q);
    }
    forall p, q, f | TableAt(Zeroed(m, z), root, p, f) && TableAt(Zeroed(m, z), root, q, f)
      ensures p == q
    {
      assert TableAt(m, root, p, f) && TableAt(m, root, q, f);
    }
    if IsTable(Zeroed(m, z), root, z) {
      var p :| TableAt(Zeroed(m, z), root, p, z);
      assert TableAt(m, root, p, z);
    }
  }

  // ----- Linking a new, empty table -----

  // Entry `index` of table f, written after frame z was zeroed.
  function Linked(m: Words, f: nat, index: nat, z: nat, value: nat): Words {
    Write(Zeroed(m, z), f, index, value)
  }

  ghost predicate CanLink(m: Words, root: nat, p: seq<nat>, f: nat, i: nat, z: nat, value: nat) {
    && Tree(m, root)
    && TableAt(m, root, p, f) && |p| <= 2 && i < 512
    && !Present(Entry(m, f, i))
    && !IsTable(m, root, z)
    && Maps(value, Entry(m, f, i), z)
  }

  // The walk to the new table.
  function NewTable(a: Access, entry: nat, z: nat): Access {
    Access(z, a.writable, a.user && User(entry))
  }

  /** Linking a table leaves every walk alone that does not go through it. */
  lemma LinkElsewhere(m: Words, root: nat, p: seq<nat>, f: nat, i: nat, z: nat, value: nat, q: seq<nat>)
    requires CanLink(m, root, p, f, i, z, value) && Indices(q) && !(p + [i] <= q)
    ensures Walk(Linked(m, f, i, z, value), root, q) == Walk(m, root, q)
  {
    ZeroKeepsTree(m, root, z);
    assert TableAt(Zeroed(m, z), root, p, f);
    WriteElsewhere(Zeroed(m, z), root, p, f, i, value, q);
  }

  /** The new table is found on its own path, which led nowhere before. */
  lemma LinkFound(m: Words, root: nat, p: seq<nat>, f: nat, i: nat, z: nat, value: nat)
    requires CanLink(m, root, p, f, i, z, value)
    ensures Walk(m, root, p + [i]) == None
    ensures Walk(Linked(m, f, i, z, value), root, p + [i]) == Some(NewTable(Walk(m, root, p).value, Entry(m, f, i), z))
  {
    ZeroKeepsTree(m, root, z);
    assert TableAt(Zeroed(m, z), root, p, f);
    assert (p + [i])[..|p|] == p;
    WriteAtEnd(Zeroed(m, z), root, p, f, i, value);
  }

  /** Nothing is mapped through the new table: such paths led nowhere before and lead nowhere now. */
  lemma LinkBelow(m: Words, root: nat, p: seq<nat>, f: nat, i: nat, z: nat, value: nat, q: seq<nat>)
    requires CanLink(m, root, p, f, i, z, value) && Indices(q) && p + [i] <= q && q != p + [i]
    ensures Walk(m, root, q) == None == Walk(Linked(m, f, i, z, value), root, q)
  {
    LinkFound(m, root, p, f, i, z, value);
    StopsAt(m, root, p + [i], q);
    var m' := Linked(m, f, i, z, value);
    forall j | 0 <= j < 512
      ensures !Present(Entry(m', z, j))
    {
      assert IsTable(m, root, f);
      ZeroNotPresent();
    }
    StopsAtEmptyTable(m', root, p + [i], z, q);
  }

  lemma ZeroNotPresent()
    ensures !Present(0)
  {
  }

  lemma StopsAt(m: Words, root: nat, p: seq<nat>, q: seq<nat>)
    requires Walk(m, root, p) == None && p <= q
    ensures Walk(m, root, q) == None
  {
    assert q[..|p|] == p;
    if Walk(m, root, q).Some? {
      WalkPrefix(m, root, q, |p|);
    }
  }

  lemma StopsAtEmptyTable(m: Words, root: nat, p: seq<nat>, z: nat, q: seq<nat>)
    requires Walk(m, root, p).Some? && Walk(m, root, p).value.frame == z
    requires forall j :: 0 <= j < 512 ==> !Present(Entry(m, z, j))
    requires Indices(q) && p <= q && p != q
    ensures Walk(m, root, q) == None
  {
    var next := q[..|p| + 1];
    assert next[..|p|] == p;
    assert next[|p|] < 512;
    assert Walk(m, root, next) == None;
    StopsAt(m, root, next, q);
  }
}
