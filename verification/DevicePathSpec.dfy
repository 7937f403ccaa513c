// Device paths as lists of nodes: gnu-efi/lib/dpath.c, gnu-efi/inc/efidevp.h.

module DevicePathSpec {
  import opened Units

  const HEADER := 4
  // MIN_ALIGNMENT_SIZE of x86-64.
  const ALIGNMENT := 4
  const END: byte := 0x7F
  const ENTIRE: byte := 0xFF
  const INSTANCE: byte := 0x01
  // The longest node whose rounded length fits in two bytes.
  const ROOM := 0xFFFC
  // The last node index DevicePathInstance takes to be sane is 01000, octal.
  const SANE := 513

  datatype Node = Node(kind: byte, subType: byte, data: seq<byte>)

  function Length(n: Node): (r: nat)
    ensures r >= HEADER
  {
    HEADER + |n.data|
  }

  function NodeBytes(n: Node): (r: seq<byte>)
    ensures |r| == Length(n)
  {
    [n.kind, n.subType, Length(n) % 256, Length(n) / 256 % 256] + n.data
  }

  function Encoded(nodes: seq<Node>): seq<byte> {
    if nodes == [] then [] else NodeBytes(nodes[0]) + Encoded(nodes[1..])
  }

  // The type without its unpacked bit.
  function Masked(kind: byte): byte {
    kind % 128
  }

  predicate IsEndType(n: Node) {
    Masked(n.kind) == END
  }

  predicate IsEnd(n: Node) {
    IsEndType(n) && n.subType == ENTIRE
  }

  // A node of this length can be written down; an end is a bare header.
  predicate IsNode(n: Node) {
    Length(n) < 0x1_0000 && (IsEndType(n) ==> n.data == [] && (n.subType == ENTIRE || n.subType == INSTANCE))
  }

  // Nodes up to an end of the entire path, the only one (UEFI specification 2.4, section 9.3).
  predicate IsPath(nodes: seq<Node>) {
    nodes != [] && IsNode(nodes[0]) && if IsEnd(nodes[0]) then |nodes| == 1 else IsPath(nodes[1..])
  }

  lemma {:induction false} EncodedConcat(a: seq<Node>, b: seq<Node>)
    ensures Encoded(a + b) == Encoded(a) + Encoded(b)
  {
    if a == [] {
      assert a + b == b;
    } else {
      assert (a + b)[1..] == a[1..] + b;
      EncodedConcat(a[1..], b);
    }
  }

  // ----- Instances -----

  // The position of the first node of an end type.
  function FirstEnd(nodes: seq<Node>): (e: nat)
    requires IsPath(nodes)
    ensures e < |nodes| && IsEndType(nodes[e])
    ensures forall i :: 0 <= i < e ==> !IsEndType(nodes[i])
  {
    if IsEndType(nodes[0]) then 0 else 1 + FirstEnd(nodes[1..])
  }

  lemma {:induction false} BehindEnd(nodes: seq<Node>)
    requires IsPath(nodes)
    ensures var e := FirstEnd(nodes);
            IsNode(nodes[e]) && if IsEnd(nodes[e]) then |nodes| == e + 1 else e + 1 < |nodes| && IsPath(nodes[e + 1..])
  {
    if !IsEndType(nodes[0]) {
      BehindEnd(nodes[1..]);
      assert nodes[1..][FirstEnd(nodes[1..]) + 1..] == nodes[FirstEnd(nodes) + 1..];
    }
  }

  // The path cut at its ends, which are left out.
  function Instances(nodes: seq<Node>): (r: seq<seq<Node>>)
    requires IsPath(nodes)
    ensures r != []
  {
    if IsEnd(nodes[0]) then [[]]
    else
      var rest := Instances(nodes[1..]);
      if IsEndType(nodes[0]) then [[]] + rest else [[nodes[0]] + rest[0]] + rest[1..]
  }

  lemma {:induction false} FirstInstance(nodes: seq<Node>, e: nat)
    requires IsPath(nodes) && e == FirstEnd(nodes)
    ensures Instances(nodes)[0] == nodes[..e]
    ensures if IsEnd(nodes[e]) then Instances(nodes)[1..] == []
            else e + 1 < |nodes| && IsPath(nodes[e + 1..]) && Instances(nodes)[1..] == Instances(nodes[e + 1..])
  {
    BehindEnd(nodes);
    if !IsEndType(nodes[0]) {
      FirstInstance(nodes[1..], e - 1);
      assert nodes[1..][e - 1 + 1..] == nodes[e + 1..];
      assert [nodes[0]] + nodes[1..][..e - 1] == nodes[..e];
    }
  }

  // The bytes of the instances, and four for the end of each.
  function Total(instances: seq<seq<Node>>): nat {
    if instances == [] then 0 else |Encoded(instances[0])| + HEADER + Total(instances[1..])
  }

  /** The instances and their ends make up the whole path. */
  lemma {:induction false} SizesSum(nodes: seq<Node>)
    requires IsPath(nodes)
    ensures Total(Instances(nodes)) == |Encoded(nodes)|
  {
    if IsEnd(nodes[0]) {
      assert nodes[1..] == [];
    } else {
      var rest := Instances(nodes[1..]);
      SizesSum(nodes[1..]);
      assert ([nodes[0]] + rest[0])[1..] == rest[0];
      assert Instances(nodes)[1..] == if IsEndType(nodes[0]) then rest else rest[1..];
    }
  }

  // ----- Appending an instance -----

  // The end of the entire path turned into the end of an instance, and another path behind it.
  function Appended(nodes: seq<Node>, more: seq<Node>): seq<Node>
    requires IsPath(nodes)
  {
    nodes[..|nodes| - 1] + [nodes[|nodes| - 1].(subType := INSTANCE)] + more
  }

  lemma {:induction false} LastIsEnd(nodes: seq<Node>)
    requires IsPath(nodes)
    ensures IsEnd(nodes[|nodes| - 1]) && IsNode(nodes[|nodes| - 1])
    ensures forall i :: 0 <= i < |nodes| - 1 ==> !IsEnd(nodes[i])
  {
    if !IsEnd(nodes[0]) {
      LastIsEnd(nodes[1..]);
    }
  }

  lemma {:induction false} AppendedIsPath(nodes: seq<Node>, more: seq<Node>)
    requires IsPath(nodes) && IsPath(more)
    ensures IsPath(Appended(nodes, more))
  {
    var r := Appended(nodes, more);
    if IsEnd(nodes[0]) {
      assert r[1..] == more;
    } else {
      AppendedIsPath(nodes[1..], more);
      assert r[1..] == Appended(nodes[1..], more);
    }
  }

  /** The instances of the result are those of both paths. */
  lemma {:induction false} AppendedInstances(nodes: seq<Node>, more: seq<Node>, r: seq<Node>)
    requires IsPath(nodes) && IsPath(more) && r == Appended(nodes, more)
    ensures IsPath(r) && Instances(r) == Instances(nodes) + Instances(more)
  {
    AppendedIsPath(nodes, more);
    if IsEnd(nodes[0]) {
      assert r[1..] == more;
    } else {
      assert r[1..] == Appended(nodes[1..], more);
      AppendedInstances(nodes[1..], more, r[1..]);
      AppendedFront(nodes, more, r, Instances(nodes[1..]));
    }
  }

  lemma AppendedFront(nodes: seq<Node>, more: seq<Node>, r: seq<Node>, rest: seq<seq<Node>>)
    requires IsPath(nodes) && !IsEnd(nodes[0]) && rest == Instances(nodes[1..]) && IsPath(more)
    requires IsPath(r) && r[0] == nodes[0] && Instances(r[1..]) == rest + Instances(more)
    ensures Instances(r) == Instances(nodes) + Instances(more)
  {
    SplitRest(rest, Instances(more));
  }

  lemma SplitRest(a: seq<seq<Node>>, b: seq<seq<Node>>)
    requires a != []
    ensures (a + b)[0] == a[0] && (a + b)[1..] == a[1..] + b
    ensures forall x :: [x] + (a + b) == [x] + a + b
    ensures forall x :: [x] + (a + b)[1..] == [x] + a[1..] + b
  {
  }

  // ----- Putting a path behind each instance -----

  // The first instance with another path behind it.
  function Joined(nodes: seq<Node>, more: seq<Node>): seq<Node>
    requires IsPath(nodes)
  {
    nodes[..FirstEnd(nodes)] + more
  }

  // That path is the first instance put before the first instance of the other.
  lemma {:induction false} JoinedInstances(nodes: seq<Node>, more: seq<Node>, r: seq<Node>)
    requires IsPath(nodes) && IsPath(more) && r == Joined(nodes, more)
    ensures IsPath(r) && Instances(r) == [Instances(nodes)[0] + Instances(more)[0]] + Instances(more)[1..]
  {
    if IsEndType(nodes[0]) {
      assert r == more && Instances(nodes)[0] == [] && [] + Instances(more)[0] == Instances(more)[0];
      assert Instances(more) == [Instances(more)[0]] + Instances(more)[1..];
    } else {
      var rest := nodes[1..];
      assert r[0] == nodes[0] && r[1..] == Joined(rest, more);
      JoinedInstances(rest, more, r[1..]);
      PutBefore(nodes[0], Instances(rest)[0], Instances(more), Instances(r[1..]));
    }
  }

  lemma PutBefore(n: Node, front: seq<Node>, more: seq<seq<Node>>, joined: seq<seq<Node>>)
    requires more != [] && joined == [front + more[0]] + more[1..]
    ensures [[n] + joined[0]] + joined[1..] == [[n] + front + more[0]] + more[1..]
  {
    assert [n] + (front + more[0]) == [n] + front + more[0];
  }

  // Every instance with the other path behind it.
  function EachJoined(instances: seq<seq<Node>>, more: seq<seq<Node>>): seq<seq<Node>>
    requires more != []
  {
    if instances == [] then [] else [instances[0] + more[0]] + more[1..] + EachJoined(instances[1..], more)
  }

  /**
   * The path AppendDevicePath leaves is the second path put behind every instance of the first, as it is meant to
   * be, exactly when the first has one instance.
   */
  lemma JoinsEachExactly(nodes: seq<Node>, more: seq<Node>)
    requires IsPath(nodes) && IsPath(more)
    ensures IsPath(Joined(nodes, more))
    ensures Instances(Joined(nodes, more)) == EachJoined(Instances(nodes), Instances(more)) <==> |Instances(nodes)| == 1
  {
    var first, others := Instances(nodes)[0], Instances(nodes)[1..];
    JoinedInstances(nodes, more, Joined(nodes, more));
    var joined := [first + Instances(more)[0]] + Instances(more)[1..];
    assert EachJoined(Instances(nodes), Instances(more)) == joined + EachJoined(others, Instances(more));
    if others == [] {
      assert joined + [] == joined;
    } else {
      assert |EachJoined(others, Instances(more))| > 0;
    }
  }

  // EndDevicePath and EndInstanceDevicePath.
  function EndNode(subType: byte): (r: seq<byte>)
    ensures |r| == HEADER
  {
    [END, subType, 4, 0]
  }

  /** These are the bytes of a bare end node. */
  lemma EndNodeExact(subType: byte)
    ensures EndNode(subType) == NodeBytes(Node(0x7F, subType, [])) && |EndNode(subType)| == 4
    ensures subType == ENTIRE || subType == INSTANCE ==> IsNode(Node(0x7F, subType, []))
  {
  }

  // What the turns of AppendDevicePath write for these instances.
  function JoinedBytes(instances: seq<seq<Node>>, tail: seq<byte>): seq<byte> {
    if instances == [] then []
    else Encoded(instances[0]) + tail + EndNode(INSTANCE) + JoinedBytes(instances[1..], tail)
  }

  lemma {:induction false} JoinedSize(instances: seq<seq<Node>>, tail: seq<byte>)
    ensures |JoinedBytes(instances, tail)| == Total(instances) + |instances| * |tail|
  {
    if instances != [] {
      JoinedSize(instances[1..], tail);
      OneMore(|instances[1..]|, |instances|, |tail|);
    }
  }

  lemma OneMore(n: nat, next: nat, t: nat)
    requires next == n + 1
    ensures next * t == n * t + t
  {
  }

  /**
   * All of it fits into the buffer AppendDevicePath allocates exactly when there is one instance or the second
   * path is no longer than the first.
   */
  lemma JoinedFitsExactly(nodes: seq<Node>, tail: seq<byte>)
    requires IsPath(nodes)
    ensures |JoinedBytes(Instances(nodes), tail)| <= |Encoded(nodes)| * |Instances(nodes)| + |tail|
            <==> |Instances(nodes)| == 1 || |tail| <= |Encoded(nodes)|
  {
    SizesSum(nodes);
    JoinedSize(Instances(nodes), tail);
    ProductsCompare(|Encoded(nodes)|, |tail|, |Instances(nodes)| - 1);
  }

  lemma ProductsCompare(a: nat, b: nat, k: nat)
    ensures a + (k + 1) * b <= a * (k + 1) + b <==> k == 0 || b <= a
  {
    if b <= a {
      assert k * b <= k * a;
    } else if k > 0 {
      assert k * (b - a) > 0;
    }
  }

  // ----- Unpacking -----

  function Padding(n: nat): (p: nat)
    ensures p < ALIGNMENT && (n + p) % ALIGNMENT == 0
  {
    if n % ALIGNMENT != 0 then ALIGNMENT - n % ALIGNMENT else 0
  }

  function Rounded(n: Node): (r: nat)
    ensures Length(n) <= r < Length(n) + ALIGNMENT && r % ALIGNMENT == 0
  {
    Length(n) + Padding(Length(n))
  }

  function Zeros(n: nat): (r: seq<byte>)
    ensures |r| == n
  {
    seq(n, i => 0)
  }

  function Marked(kind: byte): (r: byte)
    ensures Masked(r) == Masked(kind) && r >= 128
  {
    if kind < 128 then kind + 128 else kind
  }

  // A node as unpacking means it.
  function Unpacked(n: Node): Node {
    Node(Marked(n.kind), n.subType, n.data + Zeros(Padding(Length(n))))
  }

  // A node as unpacking writes it: the rounded length goes into two bytes.
  function UnpackedBytes(n: Node): (r: seq<byte>)
    ensures |r| == Rounded(n)
  {
    [Marked(n.kind), n.subType, Rounded(n) % 256, Rounded(n) / 256 % 256] + n.data + Zeros(Padding(Length(n)))
  }

  function AllUnpacked(nodes: seq<Node>): (r: seq<Node>)
    ensures |r| == |nodes| && forall i :: 0 <= i < |nodes| ==> r[i] == Unpacked(nodes[i])
  {
    if nodes == [] then [] else [Unpacked(nodes[0])] + AllUnpacked(nodes[1..])
  }

  // The running total, rounded after every node.
  function RunningTotal(nodes: seq<Node>, size: nat): nat {
    if nodes == [] then size
    else
      var sum := size + Length(nodes[0]);
      RunningTotal(nodes[1..], sum + Padding(sum))
  }

  /** The running total is what the nodes take, each rounded by itself. */
  lemma {:induction false} TotalExact(nodes: seq<Node>, size: nat)
    requires size % ALIGNMENT == 0
    ensures RunningTotal(nodes, size) == size + |Encoded(AllUnpacked(nodes))|
  {
    if nodes != [] {
      var sum := size + Length(nodes[0]);
      SamePadding(size, Length(nodes[0]));
      TotalExact(nodes[1..], sum + Padding(sum));
      assert AllUnpacked(nodes)[1..] == AllUnpacked(nodes[1..]);
      assert |NodeBytes(Unpacked(nodes[0]))| == Rounded(nodes[0]);
    }
  }

  lemma SamePadding(size: nat, n: nat)
    requires size % ALIGNMENT == 0
    ensures Padding(size + n) == Padding(n) && (size + n + Padding(n)) % ALIGNMENT == 0
  {
  }

  lemma UnpackedNode(n: Node)
    ensures UnpackedBytes(n) == NodeBytes(Unpacked(n))
  {
    assert Length(Unpacked(n)) == Rounded(n);
  }

  /** The length an unpacked node carries is right exactly when the rounded length fits in two bytes. */
  lemma UnpackedLengthExact(n: Node)
    requires IsNode(n)
    ensures var low: int, high: int := UnpackedBytes(n)[2], UnpackedBytes(n)[3];
            low + 256 * high == Rounded(n) <==> Length(n) <= ROOM
    ensures IsNode(Unpacked(n)) <==> Length(n) <= ROOM
  {
    assert Length(Unpacked(n)) == Rounded(n);
    assert Padding(HEADER) == 0;
  }

  /** Unpacking keeps type, subtype and payload of a node, up to zeros behind the payload. */
  lemma UnpackedExact(n: Node, u: Node)
    requires u == Unpacked(n)
    ensures Masked(u.kind) == Masked(n.kind) && u.subType == n.subType && Length(u) % ALIGNMENT == 0
    ensures Length(n) <= Length(u) < Length(n) + ALIGNMENT && u.data[..|n.data|] == n.data
    ensures forall j :: |n.data| <= j < |u.data| ==> u.data[j] == 0
  {
    assert Length(u) == Rounded(n);
  }

  predicate HasRoom(nodes: seq<Node>) {
    forall i :: 0 <= i < |nodes| ==> Length(nodes[i]) <= ROOM
  }

  /** What unpacking a path yields is a path, exactly when every node leaves room for its rounded length. */
  lemma {:induction false} UnpackedIsPathExactly(nodes: seq<Node>)
    requires IsPath(nodes)
    ensures IsPath(AllUnpacked(nodes)) <==> HasRoom(nodes)
  {
    UnpackedLengthExact(nodes[0]);
    var rest := nodes[1..];
    assert AllUnpacked(nodes)[1..] == AllUnpacked(rest);
    assert HasRoom(nodes) <==> Length(nodes[0]) <= ROOM && HasRoom(rest);
    if IsEnd(nodes[0]) {
      assert rest == [];
    } else {
      UnpackedIsPathExactly(rest);
    }
  }

  function EachUnpacked(instances: seq<seq<Node>>): (r: seq<seq<Node>>)
    ensures |r| == |instances| && forall i :: 0 <= i < |r| ==> r[i] == AllUnpacked(instances[i])
  {
    if instances == [] then [] else [AllUnpacked(instances[0])] + EachUnpacked(instances[1..])
  }

  /** And its instances are the instances of the path, unpacked. */
  lemma {:induction false} UnpackedInstances(nodes: seq<Node>)
    requires IsPath(nodes) && HasRoom(nodes)
    ensures IsPath(AllUnpacked(nodes)) && Instances(AllUnpacked(nodes)) == EachUnpacked(Instances(nodes))
  {
    UnpackedIsPathExactly(nodes);
    var all, each := AllUnpacked(nodes), EachUnpacked(Instances(nodes));
    if IsEnd(nodes[0]) {
      assert AllUnpacked([]) == [];
      assert each == [[]];
    } else {
      var rest := nodes[1..];
      UnpackedInstances(rest);
      assert all[1..] == AllUnpacked(rest);
      var more := Instances(rest);
      if IsEndType(nodes[0]) {
        assert each == [[]] + EachUnpacked(more);
      } else {
        assert AllUnpacked([nodes[0]] + more[0]) == [Unpacked(nodes[0])] + AllUnpacked(more[0]);
        assert each == [AllUnpacked([nodes[0]] + more[0])] + EachUnpacked(more[1..]);
        assert EachUnpacked(more)[1..] == EachUnpacked(more[1..]);
      }
    }
  }

  /** Unpacking an unpacked path changes nothing. */
  lemma UnpackedTwice(nodes: seq<Node>)
    ensures AllUnpacked(AllUnpacked(nodes)) == AllUnpacked(nodes)
  {
    forall i | 0 <= i < |nodes|
      ensures Unpacked(Unpacked(nodes[i])) == Unpacked(nodes[i])
    {
      var u := Unpacked(nodes[i]);
      assert Length(u) == Rounded(nodes[i]) && Padding(Length(u)) == 0;
      assert u.data + Zeros(0) == u.data;
    }
  }
}
