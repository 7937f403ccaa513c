// Walking and building device paths: gnu-efi/lib/dpath.c.

module DevicePaths {
  import opened Units
  import opened DevicePathSpec

  // ----- Paths in memory -----

  // From this address on, memory holds these nodes.
  predicate Lies(bytes: seq<byte>, at: nat, nodes: seq<Node>) {
    at + |Encoded(nodes)| <= |bytes| && bytes[at..at + |Encoded(nodes)|] == Encoded(nodes)
  }

  function NodeLength(bytes: seq<byte>, at: nat): nat
    requires at + HEADER <= |bytes|
  {
    var low: nat, high: nat := bytes[at + 2], bytes[at + 3];
    low + 256 * high
  }

  predicate EndTypeAt(bytes: seq<byte>, at: nat)
    requires at + HEADER <= |bytes|
  {
    Masked(bytes[at]) == END
  }

  predicate EndAt(bytes: seq<byte>, at: nat)
    requires at + HEADER <= |bytes|
  {
    EndTypeAt(bytes, at) && bytes[at + 1] == ENTIRE
  }

  // The node at an address, read from memory.
  predicate Reads(bytes: seq<byte>, at: nat, n: Node) {
    && at + Length(n) <= |bytes| && bytes[at] == n.kind && bytes[at + 1] == n.subType
    && NodeLength(bytes, at) == Length(n) && bytes[at + HEADER..at + Length(n)] == n.data
  }

  lemma Within(bytes: seq<byte>, at: nat, m: nat, i: nat, j: nat)
    requires at + m <= |bytes| && i <= j <= m
    ensures bytes[at..at + m][i..j] == bytes[at + i..at + j]
  {
    var a, b := bytes[at..at + m][i..j], bytes[at + i..at + j];
    forall k | 0 <= k < j - i
      ensures a[k] == b[k]
    {
      assert a[k] == bytes[at..at + m][i + k];
    }
  }

  lemma FirstBytes(n: Node, rest: seq<byte>)
    ensures (NodeBytes(n) + rest)[HEADER..Length(n)] == n.data && (NodeBytes(n) + rest)[Length(n)..] == rest
  {
    var header, b := NodeBytes(n)[..HEADER], NodeBytes(n);
    assert b == header + n.data && b[HEADER..] == n.data;
    assert (b + rest)[|b|..] == rest && |b| == Length(n);
    assert (b + rest)[HEADER..|b|] == b[HEADER..];
  }

  lemma LiesFirst(bytes: seq<byte>, at: nat, nodes: seq<Node>, n: Node, next: nat)
    requires Lies(bytes, at, nodes) && nodes != [] && n == nodes[0] && IsNode(n) && next == at + Length(n)
    ensures Reads(bytes, at, n) && Lies(bytes, next, nodes[1..])
  {
    var rest := Encoded(nodes[1..]);
    var here := NodeBytes(n) + rest;
    assert bytes[at..at + |here|] == here;
    assert here[0] == bytes[at] && here[1] == bytes[at + 1] && here[2] == bytes[at + 2] && here[3] == bytes[at + 3];
    FirstBytes(n, rest);
    Within(bytes, at, |here|, HEADER, Length(n));
    Within(bytes, at, |here|, Length(n), |here|);
  }

  lemma EncodedStep(nodes: seq<Node>, k: nat)
    requires k < |nodes|
    ensures Encoded(nodes[..k + 1]) == Encoded(nodes[..k]) + NodeBytes(nodes[k])
  {
    assert nodes[..k + 1] == nodes[..k] + [nodes[k]];
    EncodedConcat(nodes[..k], [nodes[k]]);
    assert Encoded([nodes[k]]) == NodeBytes(nodes[k]) + Encoded([]);
  }

  lemma {:induction false} PathNodes(nodes: seq<Node>, k: nat)
    requires IsPath(nodes) && k < |nodes|
    ensures IsNode(nodes[k]) && (IsEnd(nodes[k]) <==> k + 1 == |nodes|)
  {
    if k > 0 {
      PathNodes(nodes[1..], k - 1);
    }
  }

  // The walk has come to node k of the path.
  predicate Walked(bytes: seq<byte>, at: nat, nodes: seq<Node>, k: nat, pos: nat) {
    k <= |nodes| && pos == at + |Encoded(nodes[..k])| && Lies(bytes, pos, nodes[k..])
  }

  // And that node can be read there.
  predicate Stands(bytes: seq<byte>, at: nat, nodes: seq<Node>, k: nat, pos: nat) {
    && Walked(bytes, at, nodes, k, pos) && k < |nodes| && Reads(bytes, pos, nodes[k])
    && (EndAt(bytes, pos) <==> k + 1 == |nodes|) && (EndTypeAt(bytes, pos) <==> IsEndType(nodes[k]))
  }

  lemma StandsAt(bytes: seq<byte>, at: nat, nodes: seq<Node>, k: nat, pos: nat)
    requires IsPath(nodes) && Walked(bytes, at, nodes, k, pos) && k < |nodes|
    ensures Stands(bytes, at, nodes, k, pos)
  {
    PathNodes(nodes, k);
    LiesFirst(bytes, pos, nodes[k..], nodes[k], pos + Length(nodes[k]));
  }

  lemma StandsFirst(bytes: seq<byte>, at: nat, nodes: seq<Node>)
    requires IsPath(nodes) && Lies(bytes, at, nodes)
    ensures Stands(bytes, at, nodes, 0, at)
  {
    assert nodes[..0] == [] && nodes[0..] == nodes;
    StandsAt(bytes, at, nodes, 0, at);
  }

  lemma StepOn(bytes: seq<byte>, at: nat, nodes: seq<Node>, k: nat, pos: nat, next: nat, after: nat)
    requires IsPath(nodes) && Stands(bytes, at, nodes, k, pos) && next == k + 1 && after == pos + NodeLength(bytes, pos)
    ensures Walked(bytes, at, nodes, next, after)
    ensures next < |nodes| ==> Stands(bytes, at, nodes, next, after)
  {
    PathNodes(nodes, k);
    LiesFirst(bytes, pos, nodes[k..], nodes[k], after);
    EncodedStep(nodes, k);
    assert nodes[k..][1..] == nodes[next..];
    if next < |nodes| {
      StandsAt(bytes, at, nodes, next, after);
    }
  }

  method DevicePathSize(bytes: seq<byte>, devPath: nat, ghost nodes: seq<Node>) returns (size: nat)
    requires IsPath(nodes) && Lies(bytes, devPath, nodes)
    ensures size == |Encoded(nodes)|
  {
    var pos: nat := devPath;
    ghost var k := 0;
    StandsFirst(bytes, devPath, nodes);
    while !EndAt(bytes, pos)
      invariant Stands(bytes, devPath, nodes, k, pos)
      decreases |nodes| - k
    {
      var after := pos + NodeLength(bytes, pos);
      ghost var next := k + 1;
      StepOn(bytes, devPath, nodes, k, pos, next, after);
      pos := after;
      k := next;
    }
    SizeAtEnd(nodes, k);
    size := pos - devPath + HEADER;
  }

  lemma SizeAtEnd(nodes: seq<Node>, k: nat)
    requires IsPath(nodes) && k + 1 == |nodes|
    ensures |Encoded(nodes)| == |Encoded(nodes[..k])| + HEADER
  {
    PathNodes(nodes, k);
    EncodedStep(nodes, k);
    assert nodes[..k + 1] == nodes;
  }

  // ----- Instances -----

  datatype Pointer = Null | At(at: nat)

  // The node DevicePathInstance stops at: the first end, or the one its sanity check refuses.
  function Stop(nodes: seq<Node>): (k: nat)
    requires IsPath(nodes)
    ensures k < |nodes|
  {
    if FirstEnd(nodes) <= SANE then FirstEnd(nodes) else SANE
  }

  method DevicePathInstance(bytes: seq<byte>, devicePath: Pointer, ghost nodes: seq<Node>)
    returns (start: Pointer, next: Pointer, size: nat)
    requires devicePath.At? ==> IsPath(nodes) && Lies(bytes, devicePath.at, nodes)
    ensures start == devicePath
    ensures devicePath.At? ==> Delimits(devicePath.at, nodes, Stop(nodes), next, size)
  {
    if devicePath.Null? {
      return Null, Null, 0;
    }
    var devPath, count := FindEnd(bytes, devicePath.at, nodes);
    StepOn(bytes, devicePath.at, nodes, count, devPath, count + 1, devPath + NodeLength(bytes, devPath));
    next := if bytes[devPath + 1] == ENTIRE then Null else At(devPath + NodeLength(bytes, devPath));
    return devicePath, next, devPath - devicePath.at;
  }

  // The nodes before node k, and where to go on behind it.
  predicate Delimits(at: nat, nodes: seq<Node>, k: nat, next: Pointer, size: nat)
    requires k < |nodes|
  {
    && size == |Encoded(nodes[..k])|
    && next == if nodes[k].subType == ENTIRE then Null else At(at + |Encoded(nodes[..k + 1])|)
  }

  // The loop of DevicePathInstance.
  method FindEnd(bytes: seq<byte>, start: nat, ghost nodes: seq<Node>) returns (devPath: nat, count: nat)
    requires IsPath(nodes) && Lies(bytes, start, nodes)
    ensures count == Stop(nodes) && Stands(bytes, start, nodes, count, devPath)
  {
    devPath := start;
    count := 0;
    StandsFirst(bytes, start, nodes);
    while true
      invariant Stands(bytes, start, nodes, count, devPath) && count <= Stop(nodes)
      decreases |nodes| - count
    {
      if EndTypeAt(bytes, devPath) {
        break;
      }
      if count > 0x200 {
        break;
      }
      var after, more := devPath + NodeLength(bytes, devPath), count + 1;
      StepOn(bytes, start, nodes, count, devPath, more, after);
      devPath := after;
      count := more;
    }
  }

  /** What DevicePathInstance returns is the first instance exactly when that has at most 513 nodes. */
  lemma FirstInstanceExactly(at: nat, nodes: seq<Node>, next: Pointer, size: nat)
    requires IsPath(nodes) && Delimits(at, nodes, Stop(nodes), next, size)
    ensures size == |Encoded(Instances(nodes)[0])| <==> |Instances(nodes)[0]| <= 513
  {
    var e := FirstEnd(nodes);
    FirstInstance(nodes, e);
    if e > SANE {
      CutShorter(nodes[..e], SANE);
      assert nodes[..e][..SANE] == nodes[..SANE];
    }
  }

  lemma CutShorter(nodes: seq<Node>, k: nat)
    requires k < |nodes|
    ensures |Encoded(nodes[..k])| < |Encoded(nodes)|
  {
    assert nodes == nodes[..k] + nodes[k..];
    EncodedConcat(nodes[..k], nodes[k..]);
  }

  // Every instance passes the sanity check.
  predicate Short(nodes: seq<Node>)
    requires IsPath(nodes)
  {
    forall i :: 0 <= i < |Instances(nodes)| ==> |Instances(nodes)[i]| <= SANE
  }

  lemma ShortStep(bytes: seq<byte>, at: nat, nodes: seq<Node>, next: Pointer, size: nat) returns (rest: seq<Node>)
    requires IsPath(nodes) && Lies(bytes, at, nodes) && Short(nodes) && Delimits(at, nodes, Stop(nodes), next, size)
    ensures if next.Null? then |Instances(nodes)| == 1
            else |rest| < |nodes| && IsPath(rest) && Lies(bytes, next.at, rest) && Short(rest)
                 && Instances(rest) == Instances(nodes)[1..]
  {
    var e := FirstEnd(nodes);
    StopsAtEnd(nodes, e);
    var after := e + 1;
    rest := nodes[after..];
    if next.At? {
      StandsFirst(bytes, at, nodes);
      WalkTo(bytes, at, nodes, 0, at, after);
      ShortRest(Instances(nodes), Instances(rest));
    }
  }

  lemma StopsAtEnd(nodes: seq<Node>, e: nat)
    requires IsPath(nodes) && Short(nodes) && e == FirstEnd(nodes)
    ensures Stop(nodes) == e
    ensures if nodes[e].subType == ENTIRE then |Instances(nodes)| == 1
            else e + 1 < |nodes| && IsPath(nodes[e + 1..]) && Instances(nodes[e + 1..]) == Instances(nodes)[1..]
  {
    FirstInstance(nodes, e);
    PathNodes(nodes, e);
    assert |Instances(nodes)[0]| <= SANE;
  }

  lemma ShortRest(all: seq<seq<Node>>, rest: seq<seq<Node>>)
    requires all != [] && rest == all[1..] && forall i :: 0 <= i < |all| ==> |all[i]| <= SANE
    ensures forall i :: 0 <= i < |rest| ==> |rest[i]| <= SANE
  {
  }

  lemma {:induction false} WalkTo(bytes: seq<byte>, at: nat, nodes: seq<Node>, k: nat, pos: nat, last: nat)
    requires IsPath(nodes) && Stands(bytes, at, nodes, k, pos) && k <= last < |nodes|
    ensures Stands(bytes, at, nodes, last, at + |Encoded(nodes[..last])|)
    decreases last - k
  {
    if k < last {
      var next, after := k + 1, pos + NodeLength(bytes, pos);
      StepOn(bytes, at, nodes, k, pos, next, after);
      WalkTo(bytes, at, nodes, next, after, last);
    }
  }

  /** DevicePathInstanceCount, of a path whose instances pass the sanity check. */
  method DevicePathInstanceCount(bytes: seq<byte>, devicePath: Pointer, ghost nodes: seq<Node>) returns (count: nat)
    requires devicePath.At? ==> IsPath(nodes) && Lies(bytes, devicePath.at, nodes) && Short(nodes)
    ensures count == if devicePath.Null? then 0 else |Instances(nodes)|
  {
    count := 0;
    ghost var rest := nodes;
    var path, start, size := devicePath, devicePath, 0;
    while true
      invariant path.At? ==> IsPath(rest) && Lies(bytes, path.at, rest) && Short(rest)
      invariant (if devicePath.Null? then 0 else |Instances(nodes)|) == count + if path.Null? then 0 else |Instances(rest)|
      decreases path.At?, |rest|
    {
      ghost var before := path;
      start, path, size := DevicePathInstance(bytes, path, rest);
      if start.Null? {
        break;
      }
      rest := ShortStep(bytes, start.at, rest, path, size);
      count := count + 1;
    }
  }
}
