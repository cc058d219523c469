/** Scene nodes as CModel_load decodes them from the file's node table, and the two
    read-only searches over them (get_room_node_name, get_node_child). */
module Nodes {
  import opened Bits
  import opened Bounds
  import opened Wrappers

  /** The size of one node record in the file. */
  const NODE_SIZE: nat := 240
  /** The name field's size in a node record. */
  const NAME_SIZE: nat := 64

  /** A world matrix, kept symbolic: the local scale/rotate/translate matrix of a
      node, a pure translation, a product (MTX44Concat), or the value a node holds
      before the traversal first writes it. */
  datatype Mtx =
    | Unset
    | ScaleRotateTranslate(scale: Vec, angle: Vec, pos: Vec)
    | Translation(offset: Vec)
    | Concat(a: Mtx, b: Mtx)

  /** A decoded node. Links are indices, -1 for none. Scale and position are the raw
      signed fx32 values (1/4096 units); each angle is a raw 16-bit fraction of a turn. */
  datatype Node = Node(
    name: seq<Byte>,
    parent: int, child: int, next: int,
    enabled: U32,
    meshCount: U16, meshId: int,
    nodeType: Byte,
    scale: Vec, angle: Vec, pos: Vec,
    transform: Mtx)

  const CHAR_R: Byte := 0x72
  const CHAR_M: Byte := 0x6D

  /** "rmMain", the room node name used when no node name starts with "rm". */
  const ROOM_MAIN: seq<Byte> := [0x72, 0x6D, 0x4D, 0x61, 0x69, 0x6E]

  /** The characters of a fixed-size name field before its first NUL. */
  function CString(field: seq<Byte>): (r: seq<Byte>)
    ensures r <= field && 0 !in r
    ensures |r| < |field| ==> field[|r|] == 0
  {
    if |field| == 0 || field[0] == 0 then [] else [field[0]] + CString(field[1..])
  }

  /** A node record at byte offset `ofs`, as the loader's per-node loop decodes it:
      16-bit links and mesh id through the (s16) cast, the three scale and position
      components through the (fx32) cast, and angle_x stored in all three angles. */
  function DecodeNode(data: seq<Byte>, ofs: nat): (r: Node)
    requires ofs + NODE_SIZE <= |data|
    ensures r.name <= data[ofs..ofs + NAME_SIZE] && 0 !in r.name
    ensures r.parent == -1 <==> Read16(data, ofs + 64) == 0xFFFF
    ensures r.child == -1 <==> Read16(data, ofs + 66) == 0xFFFF
    ensures r.next == -1 <==> Read16(data, ofs + 68) == 0xFFFF
    ensures -0x8000 <= r.parent < 0x8000 && -0x8000 <= r.child < 0x8000 && -0x8000 <= r.next < 0x8000
    ensures r.parent % 0x1_0000 == Read16(data, ofs + 64) && r.child % 0x1_0000 == Read16(data, ofs + 66)
            && r.next % 0x1_0000 == Read16(data, ofs + 68)
    ensures -0x8000 <= r.meshId < 0x8000 && r.meshId % 0x1_0000 == Read16(data, ofs + 78)
    ensures r.meshCount == Read16(data, ofs + 76)
    ensures r.scale.x % 0x1_0000_0000 == Read32(data, ofs + 80) && r.scale.y % 0x1_0000_0000 == Read32(data, ofs + 84)
            && r.scale.z % 0x1_0000_0000 == Read32(data, ofs + 88)
    ensures r.pos.x % 0x1_0000_0000 == Read32(data, ofs + 100) && r.pos.y % 0x1_0000_0000 == Read32(data, ofs + 104)
            && r.pos.z % 0x1_0000_0000 == Read32(data, ofs + 108)
    ensures |r.name| < NAME_SIZE ==> data[ofs + |r.name|] == 0
    ensures r.angle.x == r.angle.y == r.angle.z == Read16(data, ofs + 92)
    ensures r.enabled == Read32(data, ofs + 72) && r.nodeType == data[ofs + 140]
  {
    var angle := Read16(data, ofs + 92);
    Node(
      CString(data[ofs..ofs + NAME_SIZE]),
      SignExtend16(Read16(data, ofs + 64)), SignExtend16(Read16(data, ofs + 66)), SignExtend16(Read16(data, ofs + 68)),
      Read32(data, ofs + 72),
      Read16(data, ofs + 76), SignExtend16(Read16(data, ofs + 78)),
      data[ofs + 140],
      Vec(SignExtend32(Read32(data, ofs + 80)), SignExtend32(Read32(data, ofs + 84)), SignExtend32(Read32(data, ofs + 88))),
      Vec(angle, angle, angle),
      Vec(SignExtend32(Read32(data, ofs + 100)), SignExtend32(Read32(data, ofs + 104)), SignExtend32(Read32(data, ofs + 108))),
      Unset)
  }

  /** The node table: `count` records from byte offset `ofs`. */
  method LoadNodes(data: seq<Byte>, ofs: nat, count: nat) returns (nodes: array<Node>)
    requires ofs + NODE_SIZE * count <= |data|
    ensures fresh(nodes) && nodes.Length == count
    ensures forall i :: 0 <= i < count ==> nodes[i] == DecodeNode(data, ofs + NODE_SIZE * i)
  {
    nodes := new Node[count];
    var i := 0;
    while i < count
      invariant i <= count
      invariant forall k :: 0 <= k < i ==> nodes[k] == DecodeNode(data, ofs + NODE_SIZE * k)
    {
      nodes[i] := DecodeNode(data, ofs + NODE_SIZE * i);
      i := i + 1;
    }
  }

  /** The index of the first element satisfying `p`, if any. */
  function FirstWhere<T>(xs: seq<T>, p: T -> bool): (r: Option<nat>)
    ensures r.Some? ==> r.value < |xs| && p(xs[r.value]) && forall j :: 0 <= j < r.value ==> !p(xs[j])
    ensures r.None? ==> forall j :: 0 <= j < |xs| ==> !p(xs[j])
  {
    if |xs| == 0 then None
    else if p(xs[0]) then Some(0)
    else match FirstWhere(xs[1..], p)
      case None => None
      case Some(i) => Some(i + 1)
  }

  /** A name starting with "rm": the loop's test on the first two characters (a
      shorter name has NUL there). */
  predicate StartsRm(n: Node)
  {
    |n.name| >= 2 && n.name[0] == CHAR_R && n.name[1] == CHAR_M
  }

  /** The room node name: that of the first node starting with "rm", else "rmMain". */
  function RoomNodeName(ns: seq<Node>): seq<Byte>
  {
    match FirstWhere(ns, StartsRm)
    case None => ROOM_MAIN
    case Some(i) => ns[i].name
  }

  /** The child of the first node called `name`, or -1. */
  function NodeChild(ns: seq<Node>, name: seq<Byte>): int
  {
    match FirstWhere(ns, (n: Node) => n.name == name)
    case None => -1
    case Some(i) => ns[i].child
  }

  /** get_room_node_name. */
  method GetRoomNodeName(nodes: array<Node>) returns (name: seq<Byte>)
    ensures name == RoomNodeName(nodes[..])
  {
    name := ROOM_MAIN;
    if nodes.Length > 0 {
      var i := 0;
      while !StartsRm(nodes[i])
        invariant 0 <= i < nodes.Length
        invariant forall j :: 0 <= j < i ==> !StartsRm(nodes[j])
        decreases nodes.Length - i
      {
        i := i + 1;
        if i >= nodes.Length {
          FirstIsFirst(nodes[..], StartsRm, -1);
          return name;
        }
      }
      FirstIsFirst(nodes[..], StartsRm, i);
      name := nodes[i].name;
    }
  }

  /** get_node_child. */
  method GetNodeChild(nodes: array<Node>, name: seq<Byte>) returns (child: int)
    ensures child == NodeChild(nodes[..], name)
  {
    var matches := (n: Node) => n.name == name;
    if nodes.Length <= 0 {
      return -1;
    }
    var i := 0;
    while i < nodes.Length
      invariant i <= nodes.Length
      invariant forall j :: 0 <= j < i ==> !matches(nodes[j])
    {
      if nodes[i].name == name {
        FirstIsFirst(nodes[..], matches, i);
        return nodes[i].child;
      }
      i := i + 1;
    }
    FirstIsFirst(nodes[..], matches, -1);
    return -1;
  }

  /** FirstWhere is determined by where the first match is (-1 for none). */
  lemma FirstIsFirst<T>(xs: seq<T>, p: T -> bool, i: int)
    requires -1 <= i < |xs|
    requires i >= 0 ==> p(xs[i])
    requires forall j :: 0 <= j < (if i == -1 then |xs| else i) ==> !p(xs[j])
    ensures FirstWhere(xs, p) == if i == -1 then None else Some(i)
  {
  }

  /** The room node id is the child of the first node whose name starts with "rm",
      and -1 when there is none: the second search finds that same node again, and
      "rmMain" names no node in that case. */
  lemma RoomNodeId(ns: seq<Node>)
    ensures NodeChild(ns, RoomNodeName(ns)) == match FirstWhere(ns, StartsRm)
                                                case None => -1
                                                case Some(i) => ns[i].child
  {
    var byName := (n: Node) => n.name == RoomNodeName(ns);
    match FirstWhere(ns, StartsRm)
    case None =>
      forall j | 0 <= j < |ns|
        ensures !byName(ns[j])
      {
        assert !StartsRm(ns[j]);
      }
      FirstIsFirst(ns, byName, -1);
    case Some(i) =>
      forall j | 0 <= j < i
        ensures !byName(ns[j])
      {
        assert !StartsRm(ns[j]);
      }
      FirstIsFirst(ns, byName, i);
  }

  /** The (s16) cast makes the all-ones link field the "no node" index. */
  lemma AllOnesLinkIsNone(data: seq<Byte>, ofs: nat)
    requires ofs + NODE_SIZE <= |data|
    requires data[ofs + 66] == 0xFF && data[ofs + 67] == 0xFF
    ensures DecodeNode(data, ofs).child == -1
  {
  }
}
