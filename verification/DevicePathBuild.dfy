// Device paths made from others: gnu-efi/lib/dpath.c.

module DevicePathBuilders {
  import opened Units
  import opened DevicePathSpec
  import opened DevicePaths

  // ----- Unpacking -----

  // With this size the loop ends at that total.
  predicate EndsAt(nodes: seq<Node>, k: nat, size: nat, total: nat) {
    k <= |nodes| && RunningTotal(nodes[k..], size) == total
  }

  lemma EndsAtStep(nodes: seq<Node>, k: nat, size: nat, total: nat, next: nat, sum: nat, padded: nat)
    requires EndsAt(nodes, k, size, total) && k < |nodes| && next == k + 1
    requires sum == size + Length(nodes[k]) && padded == sum + Padding(sum)
    ensures EndsAt(nodes, next, padded, total) && (next == |nodes| ==> total == padded)
  {
    assert nodes[k..][1..] == nodes[next..];
  }

  lemma EndsAtStart(nodes: seq<Node>, total: nat)
    requires total == |Encoded(AllUnpacked(nodes))|
    ensures EndsAt(nodes, 0, 0, total)
  {
    TotalExact(nodes, 0);
    assert nodes[0..] == nodes;
  }

  // The first loop of UnpackDevicePath.
  method UnpackedSize(bytes: seq<byte>, devPath: nat, ghost nodes: seq<Node>) returns (size: nat)
    requires IsPath(nodes) && Lies(bytes, devPath, nodes)
    ensures size == |Encoded(AllUnpacked(nodes))|
  {
    ghost var k, total := 0, |Encoded(AllUnpacked(nodes))|;
    EndsAtStart(nodes, total);
    StandsFirst(bytes, devPath, nodes);
    var src: nat := devPath;
    size := 0;
    while true
      invariant Stands(bytes, devPath, nodes, k, src) && EndsAt(nodes, k, size, total)
      decreases |nodes| - k
    {
      ghost var next := k + 1;
      var after := src + NodeLength(bytes, src);
      StepOn(bytes, devPath, nodes, k, src, next, after);
      var sum := size + NodeLength(bytes, src);
      var padded := sum + Padding(sum);
      EndsAtStep(nodes, k, size, total, next, sum, padded);
      size := padded;
      if EndAt(bytes, src) {
        break;
      }
      src := after;
      k := next;
    }
  }

  predicate ZeroFrom(bytes: seq<byte>, at: nat) {
    forall i :: at <= i < |bytes| ==> bytes[i] == 0
  }

  // The payload of a node, from its header on.
  predicate Carries(bytes: seq<byte>, at: nat, n: Node) {
    && at + Length(n) <= |bytes| && bytes[at + 1] == n.subType
    && forall i :: at + HEADER <= i < at + Length(n) ==> bytes[i] == n.data[i - at - HEADER]
  }

  lemma Copied(dest: seq<byte>, at: nat, bytes: seq<byte>, src: nat, n: Node)
    requires Reads(bytes, src, n) && at + Length(n) <= |dest| && dest[at..at + Length(n)] == bytes[src..src + Length(n)]
    ensures Carries(dest, at, n) && dest[at] == n.kind
  {
    var part, source := dest[at..at + Length(n)], bytes[src..src + Length(n)];
    assert part[0] == dest[at] && part[1] == dest[at + 1] && source[0] == bytes[src] && source[1] == bytes[src + 1];
    forall i | at + HEADER <= i < at + Length(n)
      ensures dest[i] == n.data[i - at - HEADER]
    {
      var j := i - at;
      assert part[j] == dest[i] && source[j] == bytes[src + j];
      assert bytes[src + HEADER..src + Length(n)][j - HEADER] == bytes[src + j];
    }
  }

  lemma WrittenNode(dest: seq<byte>, at: nat, n: Node, size: nat)
    requires size == Rounded(n) && at + size <= |dest| && Carries(dest, at, n) && ZeroFrom(dest, at + Length(n))
    requires dest[at] == Marked(n.kind) && dest[at + 2] == size % 256 && dest[at + 3] == size / 256 % 256
    ensures dest[at..at + size] == UnpackedBytes(n)
  {
    var part, bytes := dest[at..at + size], UnpackedBytes(n);
    forall j | 0 <= j < size
      ensures part[j] == bytes[j]
    {
      assert part[j] == dest[at + j];
      if j >= HEADER {
        UnpackedAt(n, j);
      }
    }
  }

  lemma UnpackedAt(n: Node, j: nat)
    requires HEADER <= j < Rounded(n)
    ensures UnpackedBytes(n)[j] == if j < Length(n) then n.data[j - HEADER] else 0
  {
  }

  // One turn of the second loop: a node copied, its length rounded and its type marked.
  method WriteNode(dest: array<byte>, at: nat, bytes: seq<byte>, src: nat, ghost n: Node) returns (size: nat)
    requires Reads(bytes, src, n) && at + Rounded(n) <= dest.Length && ZeroFrom(dest[..], at)
    modifies dest
    ensures size == Rounded(n) && dest[..at] == old(dest[..at]) && ZeroFrom(dest[..], at + size)
    ensures dest[at..at + size] == UnpackedBytes(n)
  {
    size := NodeLength(bytes, src);
    CopyMem(dest, at, bytes, src, size);
    Copied(dest[..], at, bytes, src, n);
    assert ZeroFrom(dest[..], at + size) by {
      assert forall i :: at + size <= i < dest.Length ==> dest[i] == dest[at + size..][i - at - size];
    }
    size := size + Padding(size);
    dest[at + 2], dest[at + 3] := size % 256, size / 256 % 256;
    dest[at] := Marked(dest[at]);
    WrittenNode(dest[..], at, n, size);
    assert dest[..][at..at + size] == dest[at..at + size];
  }

  // The first k nodes are unpacked.
  predicate UnpackedUpTo(dest: seq<byte>, nodes: seq<Node>, k: nat, at: nat) {
    && k <= |nodes| && at == |Encoded(AllUnpacked(nodes[..k]))| && at <= |dest|
    && dest[..at] == Encoded(AllUnpacked(nodes[..k])) && ZeroFrom(dest, at)
  }

  lemma {:induction false} AllUnpackedStep(nodes: seq<Node>, k: nat)
    requires k < |nodes|
    ensures Encoded(AllUnpacked(nodes[..k + 1])) == Encoded(AllUnpacked(nodes[..k])) + UnpackedBytes(nodes[k])
    ensures |Encoded(AllUnpacked(nodes[..k + 1]))| <= |Encoded(AllUnpacked(nodes))|
  {
    var all := AllUnpacked(nodes);
    assert AllUnpacked(nodes[..k + 1]) == all[..k + 1] && AllUnpacked(nodes[..k]) == all[..k];
    EncodedStep(all, k);
    UnpackedNode(nodes[k]);
    assert all == all[..k + 1] + all[k + 1..];
    EncodedConcat(all[..k + 1], all[k + 1..]);
  }

  lemma UnpackedOneMore(dest: seq<byte>, before: seq<byte>, nodes: seq<Node>, k: nat, at: nat, next: nat, after: nat)
    requires k < |nodes| && next == k + 1 && UnpackedUpTo(before, nodes, k, at) && after == at + Rounded(nodes[k]) <= |dest|
    requires dest[..at] == before[..at] && dest[at..after] == UnpackedBytes(nodes[k]) && ZeroFrom(dest, after)
    ensures UnpackedUpTo(dest, nodes, next, after)
  {
    AllUnpackedStep(nodes, k);
    assert dest[..after] == dest[..at] + dest[at..after];
  }

  /** UnpackDevicePath: exactly the bytes of the unpacked nodes, in a buffer of exactly their
      size, or NULL if there is no memory for that. */
  method UnpackDevicePath(bytes: seq<byte>, devPath: nat, ghost nodes: seq<Node>, pool: Pool)
    returns (newPath: array?<byte>)
    requires IsPath(nodes) && Lies(bytes, devPath, nodes)
    ensures newPath != null <==> pool(|Encoded(AllUnpacked(nodes))|)
    ensures newPath != null ==> fresh(newPath) && newPath[..] == Encoded(AllUnpacked(nodes))
  {
    var size := UnpackedSize(bytes, devPath, nodes);
    newPath := AllocateZeroPool(size, pool);
    if newPath != null {
      UnpackInto(newPath, bytes, devPath, nodes);
    }
  }

  /** Where every node leaves room for its rounded length, what UnpackDevicePath wrote reads back as
      a path: it has the unpacked instances, and DevicePathSize of it is the size of the buffer. */
  lemma UnpackedReadsBack(newPath: seq<byte>, nodes: seq<Node>, u: seq<Node>)
    requires IsPath(nodes) && HasRoom(nodes) && u == AllUnpacked(nodes) && newPath == Encoded(u)
    ensures IsPath(u) && Lies(newPath, 0, u) && Instances(u) == EachUnpacked(Instances(nodes))
    ensures |newPath| == |Encoded(u)| == Total(EachUnpacked(Instances(nodes)))
  {
    UnpackedInstances(nodes);
    SizesSum(u);
    assert newPath[0..|newPath|] == newPath;
  }

  method AllocateZeroPool(size: nat, pool: Pool) returns (r: array?<byte>)
    ensures r != null <==> pool(size)
    ensures r != null ==> fresh(r) && r.Length == size && ZeroFrom(r[..], 0)
  {
    if !pool(size) {
      return null;
    }
    r := new byte[size](i => 0);
  }

  method UnpackOne(newPath: array<byte>, dest: nat, bytes: seq<byte>, src: nat, ghost nodes: seq<Node>, ghost k: nat, ghost next: nat)
    returns (after: nat)
    requires newPath.Length == |Encoded(AllUnpacked(nodes))| && UnpackedUpTo(newPath[..], nodes, k, dest)
    requires k < |nodes| && next == k + 1 && Reads(bytes, src, nodes[k])
    modifies newPath
    ensures UnpackedUpTo(newPath[..], nodes, next, after)
  {
    ghost var before := newPath[..];
    AllUnpackedStep(nodes, k);
    var size := WriteNode(newPath, dest, bytes, src, nodes[k]);
    after := dest + size;
    UnpackedOneMore(newPath[..], before, nodes, k, dest, next, after);
  }

  // The second loop of UnpackDevicePath.
  method UnpackInto(newPath: array<byte>, bytes: seq<byte>, devPath: nat, ghost nodes: seq<Node>)
    requires IsPath(nodes) && Lies(bytes, devPath, nodes)
    requires newPath.Length == |Encoded(AllUnpacked(nodes))| && ZeroFrom(newPath[..], 0)
    modifies newPath
    ensures newPath[..] == Encoded(AllUnpacked(nodes))
  {
    ghost var k := 0;
    var src: nat, dest := devPath, 0;
    StandsFirst(bytes, devPath, nodes);
    assert nodes[..0] == [];
    while true
      invariant Stands(bytes, devPath, nodes, k, src) && UnpackedUpTo(newPath[..], nodes, k, dest)
      decreases |nodes| - k
    {
      ghost var next := k + 1;
      var after := src + NodeLength(bytes, src);
      StepOn(bytes, devPath, nodes, k, src, next, after);
      dest := UnpackOne(newPath, dest, bytes, src, nodes, k, next);
      if EndAt(bytes, src) {
        break;
      }
      src := after;
      k := next;
    }
    assert nodes[..|nodes|] == nodes;
  }

  // ----- Appending -----

  method AllocatePool(size: nat, pool: Pool) returns (r: array?<byte>)
    ensures r != null <==> pool(size)
    ensures r != null ==> fresh(r) && r.Length == size
  {
    if !pool(size) {
      return null;
    }
    r := new byte[size];
  }

  method DuplicateDevicePath(bytes: seq<byte>, devPath: nat, ghost nodes: seq<Node>, pool: Pool)
    returns (r: array?<byte>)
    requires IsPath(nodes) && Lies(bytes, devPath, nodes)
    ensures r != null <==> pool(|Encoded(nodes)|)
    ensures r != null ==> fresh(r) && r[..] == Encoded(nodes)
  {
    var size := DevicePathSize(bytes, devPath, nodes);
    r := AllocatePool(size, pool);
    if r != null {
      CopyMem(r, 0, bytes, devPath, size);
      assert r[..] == r[0..0 + size];
    }
  }

  // The address of the end of the entire path.
  method FindEntireEnd(bytes: seq<byte>, devPath: nat, ghost nodes: seq<Node>) returns (pos: nat)
    requires IsPath(nodes) && Lies(bytes, devPath, nodes)
    ensures Stands(bytes, devPath, nodes, |nodes| - 1, pos)
  {
    pos := devPath;
    ghost var k := 0;
    StandsFirst(bytes, devPath, nodes);
    while !EndAt(bytes, pos)
      invariant Stands(bytes, devPath, nodes, k, pos)
      decreases |nodes| - k
    {
      var after := pos + NodeLength(bytes, pos);
      ghost var next := k + 1;
      StepOn(bytes, devPath, nodes, k, pos, next, after);
      pos := after;
      k := next;
    }
  }

  lemma AppendedBytes(nodes: seq<Node>, more: seq<Node>, front: seq<byte>, end: seq<byte>)
    requires IsPath(nodes) && IsPath(more) && front == Encoded(nodes[..|nodes| - 1])
    requires end == NodeBytes(nodes[|nodes| - 1].(subType := INSTANCE))
    ensures Encoded(Appended(nodes, more)) == front + end + Encoded(more)
  {
    var last := nodes[|nodes| - 1].(subType := INSTANCE);
    EncodedConcat(nodes[..|nodes| - 1] + [last], more);
    EncodedConcat(nodes[..|nodes| - 1], [last]);
    assert Encoded([last]) == NodeBytes(last) + Encoded([]);
  }

  lemma EndBytes(bytes: seq<byte>, at: nat, nodes: seq<Node>, pos: nat)
    requires IsPath(nodes) && Lies(bytes, at, nodes) && Stands(bytes, at, nodes, |nodes| - 1, pos)
    ensures pos + HEADER == at + |Encoded(nodes)| <= |bytes| && NodeLength(bytes, pos) == HEADER
    ensures bytes[at..pos] == Encoded(nodes[..|nodes| - 1])
    ensures bytes[pos..pos + HEADER] == NodeBytes(nodes[|nodes| - 1])
  {
    var k := |nodes| - 1;
    SizeAtEnd(nodes, k);
    EncodedStep(nodes, k);
    PathNodes(nodes, k);
    assert nodes[..k + 1] == nodes;
    TwoParts(bytes, at, Encoded(nodes[..k]), NodeBytes(nodes[k]), Encoded(nodes));
  }

  lemma TwoParts(bytes: seq<byte>, at: nat, front: seq<byte>, end: seq<byte>, whole: seq<byte>)
    requires whole == front + end && at + |whole| <= |bytes| && bytes[at..at + |whole|] == whole
    ensures bytes[at..at + |front|] == front && bytes[at + |front|..at + |front| + |end|] == end
  {
    assert whole[0..|front|] == front && whole[|front|..|whole|] == end;
    Within(bytes, at, |whole|, 0, |front|);
    Within(bytes, at, |whole|, |front|, |whole|);
  }

  /** AppendDevicePathInstance: the bytes of the first path, its end made the end of an instance,
      and of the second; NULL where memory is short. */
  method AppendDevicePathInstance(bytes: seq<byte>, src: Pointer, ghost nodes: seq<Node>,
                                  other: seq<byte>, instance: nat, ghost more: seq<Node>, pool: Pool)
    returns (ptr: array?<byte>)
    requires src.At? ==> IsPath(nodes) && Lies(bytes, src.at, nodes)
    requires IsPath(more) && Lies(other, instance, more)
    ensures ptr != null <==> pool((if src.Null? then 0 else |Encoded(nodes)|) + |Encoded(more)|)
    ensures ptr != null ==> fresh(ptr)
    ensures ptr != null ==> ptr[..] == if src.Null? then Encoded(more) else Encoded(Appended(nodes, more))
  {
    if src.Null? {
      ptr := DuplicateDevicePath(other, instance, more, pool);
      return;
    }
    var srcSize := DevicePathSize(bytes, src.at, nodes);
    var instanceSize := DevicePathSize(other, instance, more);
    ptr := AllocatePool(srcSize + instanceSize, pool);
    if ptr != null {
      CopyMem(ptr, 0, bytes, src.at, srcSize);
      assert ptr[..][0..0 + srcSize] == ptr[0..0 + srcSize];
      AppendInto(ptr, nodes, other, instance, instanceSize, more);
    }
  }

  // The second half: the end found and rewritten, and the instance copied behind it.
  method AppendInto(ptr: array<byte>, ghost nodes: seq<Node>, other: seq<byte>, instance: nat, size: nat, ghost more: seq<Node>)
    requires IsPath(nodes) && Lies(ptr[..], 0, nodes) && IsPath(more) && Lies(other, instance, more)
    requires size == |Encoded(more)| && ptr.Length == |Encoded(nodes)| + size
    modifies ptr
    ensures ptr[..] == Encoded(Appended(nodes, more))
  {
    ghost var before := ptr[..];
    var devPath := FindEntireEnd(ptr[..], 0, nodes);
    EndBytes(before, 0, nodes, devPath);
    var next := devPath + NodeLength(ptr[..], devPath);
    ptr[devPath + 1] := INSTANCE;
    ghost var marked := ptr[..];
    assert marked == before[devPath + 1 := INSTANCE];
    CopyMem(ptr, next, other, instance, size);
    assert ptr[..][..next] == marked[..next] && ptr[..][next..] == ptr[next..next + size];
    AppendDone(before, marked, ptr[..], devPath, next, nodes, more);
  }

  lemma AppendDone(before: seq<byte>, marked: seq<byte>, r: seq<byte>, at: nat, next: nat, nodes: seq<Node>, more: seq<Node>)
    requires IsPath(nodes) && Lies(before, 0, nodes) && Stands(before, 0, nodes, |nodes| - 1, at) && IsPath(more)
    requires next == at + HEADER <= |before| && marked == before[at + 1 := INSTANCE] && next <= |r|
    requires r[..next] == marked[..next] && r[next..] == Encoded(more)
    ensures r == Encoded(Appended(nodes, more))
  {
    EndBytes(before, 0, nodes, at);
    Assembled(before, marked, r, at, next, Encoded(more));
    AppendedBytes(nodes, more, before[0..at], before[at..next][1 := INSTANCE]);
  }

  lemma Assembled(before: seq<byte>, marked: seq<byte>, r: seq<byte>, at: nat, next: nat, tail: seq<byte>)
    requires next == at + HEADER <= |before| && marked == before[at + 1 := INSTANCE] && next <= |r|
    requires r[..next] == marked[..next] && r[next..] == tail
    ensures r == before[0..at] + before[at..next][1 := INSTANCE] + tail
  {
    assert marked[..next] == before[0..at] + before[at..next][1 := INSTANCE];
  }
}
