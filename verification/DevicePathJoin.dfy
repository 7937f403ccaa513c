// Putting a device path behind the instances of another: gnu-efi/lib/dpath.c, AppendDevicePath.

module DevicePathJoins {
  import opened Units
  import opened DevicePathSpec
  import opened DevicePaths
  import opened DevicePathBuilders

  // The bytes so far, with those of the instances left, are the whole.
  predicate Joining(done: seq<byte>, left: seq<seq<Node>>, tail: seq<byte>, whole: seq<byte>) {
    done + JoinedBytes(left, tail) == whole
  }

  // What the code leaves: all turns, with the last end marker changed.
  predicate Ended(dst: seq<byte>, whole: seq<byte>) {
    && HEADER <= |whole| <= |dst|
    && dst[..|whole|] == whole[..|whole| - HEADER] + EndNode(ENTIRE)
  }

  /** AppendDevicePath, of a path that fits: for every instance of the first path its nodes, the whole second
      path and an end of instance; the last end is that of the entire path. */
  method AppendDevicePath(bytes: seq<byte>, src1: Pointer, ghost nodes: seq<Node>,
                          other: seq<byte>, src2: Pointer, ghost more: seq<Node>, pool: Pool) returns (dst: array?<byte>)
    requires src1.At? || src2.At?
    requires src1.At? ==> IsPath(nodes) && Lies(bytes, src1.at, nodes)
    requires src2.At? ==> IsPath(more) && Lies(other, src2.at, more)
    requires src1.At? && src2.At? ==>
               Short(nodes) && (|Instances(nodes)| == 1 || |Encoded(more)| <= |Encoded(nodes)|)
    ensures src1.Null? ==> (dst != null <==> pool(|Encoded(more)|))
    ensures src2.Null? ==> (dst != null <==> pool(|Encoded(nodes)|))
    ensures src1.At? && src2.At? ==>
              (dst != null <==> pool(|Encoded(nodes)| * |Instances(nodes)| + |Encoded(more)|))
    ensures dst != null ==> fresh(dst)
    ensures dst != null && src1.Null? ==> dst[..] == Encoded(more)
    ensures dst != null && src2.Null? ==> dst[..] == Encoded(nodes)
    ensures dst != null && src1.At? && src2.At? ==>
              Ended(dst[..], JoinedBytes(Instances(nodes), Encoded(more))) && Lies(dst[..], 0, Joined(nodes, more))
  {
    if src1.Null? {
      dst := DuplicateDevicePath(other, src2.at, more, pool);
      return;
    }
    if src2.Null? {
      dst := DuplicateDevicePath(bytes, src1.at, nodes, pool);
      return;
    }
    var src1Size := DevicePathSize(bytes, src1.at, nodes);
    var src1Inst := DevicePathInstanceCount(bytes, src1, nodes);
    var src2Size := DevicePathSize(other, src2.at, more);
    var size := src1Size * src1Inst + src2Size;
    dst := AllocatePool(size, pool);
    if dst != null {
      ghost var whole := JoinedBytes(Instances(nodes), Encoded(more));
      JoinedFitsExactly(nodes, Encoded(more));
      JoinInto(dst, bytes, src1, nodes, other, src2.at, src2Size, more, whole);
      FirstJoinedLies(dst[..], nodes, more, whole);
    }
  }

  // Behind the first instance and the second path come other bytes, but the path ends there.
  lemma FirstJoinedLies(dst: seq<byte>, nodes: seq<Node>, more: seq<Node>, whole: seq<byte>)
    requires IsPath(nodes) && whole == JoinedBytes(Instances(nodes), Encoded(more)) && Ended(dst, whole)
    ensures Lies(dst, 0, Joined(nodes, more))
  {
    var e := FirstEnd(nodes);
    FirstInstance(nodes, e);
    EncodedConcat(nodes[..e], more);
    var back := FirstTurn(Instances(nodes), Encoded(more));
    PrefixKept(dst, whole, Encoded(Joined(nodes, more)), back);
  }

  lemma FirstTurn(instances: seq<seq<Node>>, tail: seq<byte>) returns (back: seq<byte>)
    requires instances != []
    ensures JoinedBytes(instances, tail) == Encoded(instances[0]) + tail + back && |back| >= HEADER
  {
    var front, rest := Encoded(instances[0]), JoinedBytes(instances[1..], tail);
    back := EndNode(INSTANCE) + rest;
    assert front + tail + EndNode(INSTANCE) + rest == front + tail + back;
  }

  lemma PrefixKept(dst: seq<byte>, whole: seq<byte>, front: seq<byte>, back: seq<byte>)
    requires Ended(dst, whole) && whole == front + back && |back| >= HEADER
    ensures 0 + |front| <= |dst| && dst[0..0 + |front|] == front
  {
    assert dst[..|front|] == dst[..|whole|][..|front|] == whole[..|front|];
  }

  // The loop over the instances, and the end marker changed behind it.
  method JoinInto(dst: array<byte>, bytes: seq<byte>, src1: Pointer, ghost nodes: seq<Node>,
                  other: seq<byte>, src2: nat, src2Size: nat, ghost more: seq<Node>, ghost whole: seq<byte>)
    requires src1.At? && IsPath(nodes) && Lies(bytes, src1.at, nodes) && Short(nodes)
    requires Lies(other, src2, more) && src2Size == |Encoded(more)|
    requires whole == JoinedBytes(Instances(nodes), Encoded(more)) && |whole| <= dst.Length
    modifies dst
    ensures Ended(dst[..], whole)
  {
    var dstPos: nat, path := 0, src1;
    ghost var rest, tail := nodes, Encoded(more);
    assert dst[..0] + whole == whole;
    while true
      invariant path.At? ==> IsPath(rest) && Lies(bytes, path.at, rest) && Short(rest)
      invariant dstPos <= dst.Length && Joining(dst[..dstPos], if path.At? then Instances(rest) else [], tail, whole)
      decreases path.At?, |rest|
    {
      var inst, size;
      inst, path, size := DevicePathInstance(bytes, path, rest);
      if inst.Null? {
        break;
      }
      ghost var following := ShortStep(bytes, inst.at, rest, path, size);
      FirstLies(bytes, inst.at, rest, size);
      dstPos := JoinOne(dst, dstPos, bytes, inst.at, size, Instances(rest), other, src2, src2Size, tail, whole);
      rest := following;
    }
    MarkEnd(dst, dstPos, whole);
  }

  lemma FirstLies(bytes: seq<byte>, at: nat, nodes: seq<Node>, size: nat)
    requires IsPath(nodes) && Lies(bytes, at, nodes) && Short(nodes) && size == |Encoded(nodes[..Stop(nodes)])|
    ensures at + size <= |bytes| && bytes[at..at + size] == Encoded(Instances(nodes)[0])
  {
    var e := FirstEnd(nodes);
    StopsAtEnd(nodes, e);
    FirstInstance(nodes, e);
    assert nodes == nodes[..e] + nodes[e..];
    EncodedConcat(nodes[..e], nodes[e..]);
    TwoParts(bytes, at, Encoded(nodes[..e]), Encoded(nodes[e..]), Encoded(nodes));
  }

  // One turn: an instance, the second path and an end of instance.
  method JoinOne(dst: array<byte>, at: nat, bytes: seq<byte>, inst: nat, size: nat, ghost left: seq<seq<Node>>,
                 other: seq<byte>, src2: nat, src2Size: nat, ghost tail: seq<byte>, ghost whole: seq<byte>)
    returns (dstPos: nat)
    requires left != [] && inst + size <= |bytes| && bytes[inst..inst + size] == Encoded(left[0])
    requires src2 + src2Size <= |other| && other[src2..src2 + src2Size] == tail
    requires at <= dst.Length && Joining(dst[..at], left, tail, whole) && |whole| <= dst.Length
    modifies dst
    ensures dstPos <= dst.Length && Joining(dst[..dstPos], left[1..], tail, whole)
  {
    ghost var done := dst[..at];
    JoinedStep(done, left, tail, whole);
    dstPos := CopyBehind(dst, at, bytes, inst, size);
    dstPos := CopyBehind(dst, dstPos, other, src2, src2Size);
    dstPos := CopyBehind(dst, dstPos, EndNode(INSTANCE), 0, HEADER);
    assert EndNode(INSTANCE)[0..0 + HEADER] == EndNode(INSTANCE);
  }

  lemma JoinedStep(done: seq<byte>, left: seq<seq<Node>>, tail: seq<byte>, whole: seq<byte>)
    requires left != [] && Joining(done, left, tail, whole)
    ensures Joining(done + Encoded(left[0]) + tail + EndNode(INSTANCE), left[1..], tail, whole)
    ensures |done| + |Encoded(left[0])| + |tail| + HEADER <= |whole|
  {
    var rest := JoinedBytes(left[1..], tail);
    assert done + (Encoded(left[0]) + tail + EndNode(INSTANCE) + rest)
        == done + Encoded(left[0]) + tail + EndNode(INSTANCE) + rest;
  }

  method CopyBehind(dst: array<byte>, at: nat, bytes: seq<byte>, src: nat, n: nat) returns (next: nat)
    requires at + n <= dst.Length && src + n <= |bytes|
    modifies dst
    ensures next == at + n && dst[..next] == old(dst[..at]) + bytes[src..src + n]
  {
    CopyMem(dst, at, bytes, src, n);
    next := at + n;
    assert dst[..next] == dst[..at] + dst[at..next];
  }

  method MarkEnd(dst: array<byte>, dstPos: nat, ghost whole: seq<byte>)
    requires dstPos <= dst.Length && dst[..dstPos] == whole && HEADER <= |whole|
    modifies dst
    ensures Ended(dst[..], whole)
  {
    var next := CopyBehind(dst, dstPos - HEADER, EndNode(ENTIRE), 0, HEADER);
    assert next == |whole|;
  }
}
