/** CModel_compute_node_matrices: the first-child/next-sibling walk that writes every
    reached node's world matrix, in place in the node array. */
module NodeTransforms {
  import opened Bounds
  import opened Nodes

  /** A link is -1 or an index into the node array. */
  predicate LinkOk(ns: seq<Node>, link: int)
  {
    link == -1 || 0 <= link < |ns|
  }

  /** The walk terminates and stays in the array: every link is in range, and `rank`
      strictly decreases from a node to its child and to its next sibling (the file's
      node graph has no cycle through child and next links). */
  ghost predicate WellLinked(ns: seq<Node>, rank: seq<nat>)
  {
    |rank| == |ns|
    && forall i :: 0 <= i < |ns| ==>
         LinkOk(ns, ns[i].parent) && LinkOk(ns, ns[i].child) && LinkOk(ns, ns[i].next)
         && (ns[i].child != -1 ==> rank[ns[i].child] < rank[i])
         && (ns[i].next != -1 ==> rank[ns[i].next] < rank[i])
  }

  /** Two node arrays that differ at most in their matrices. */
  predicate SameButMatrices(a: seq<Node>, b: seq<Node>)
  {
    |a| == |b| && forall i :: 0 <= i < |a| ==> a[i].(transform := Unset) == b[i].(transform := Unset)
  }

  function Negated(v: Vec): Vec
  {
    Vec(-v.x, -v.y, -v.z)
  }

  function Measure(rank: seq<nat>, idx: int): nat
    requires idx == -1 || 0 <= idx < |rank|
  {
    if idx == -1 then 0 else rank[idx] + 1
  }

  /** The matrix a node's visit first writes: its local matrix, composed with the
      parent's matrix as it stands at that moment unless the node is a root. As a
      term, it is a bare local matrix exactly for a root. */
  function Base(ns: seq<Node>, idx: nat): (r: Mtx)
    requires idx < |ns| && LinkOk(ns, ns[idx].parent)
    ensures ns[idx].parent == -1 <==> r.ScaleRotateTranslate?
    ensures ns[idx].parent == -1 ==> r == Local(ns[idx])
  {
    var n := ns[idx];
    if n.parent == -1 then Local(n) else Concat(Local(n), ns[n.parent].transform)
  }

  /** A node's own matrix, from scale_rotate_translate. */
  function Local(n: Node): Mtx
  {
    ScaleRotateTranslate(n.scale, n.angle, n.pos)
  }

  /** The recentring: the translation by minus the node's initial position, applied
      in front of its matrix, when the scene has node positions. */
  function Recentre(m: Mtx, hasNodePos: bool, initialPos: seq<Vec>, idx: nat): (r: Mtx)
    requires hasNodePos ==> idx < |initialPos|
    ensures hasNodePos ==> r == Concat(Translation(Negated(initialPos[idx])), m)
    ensures !hasNodePos ==> r == m
  {
    if hasNodePos then Concat(Translation(Negated(initialPos[idx])), m) else m
  }

  /** Matrices never affect links: a node array that differs from a well-linked
      one only in its matrices is well-linked. */
  lemma MatricesKeepLinks(a: seq<Node>, b: seq<Node>, rank: seq<nat>)
    requires WellLinked(a, rank) && SameButMatrices(a, b)
    ensures WellLinked(b, rank)
  {
    forall i | 0 <= i < |b|
      ensures b[i].parent == a[i].parent && b[i].child == a[i].child && b[i].next == a[i].next
    {
      assert a[i].(transform := Unset) == b[i].(transform := Unset);
    }
  }

  /** The node array after the walk from `idx`: for each node along the next chain,
      visit it, then move on to its next sibling. */
  function Walk(ns: seq<Node>, hasNodePos: bool, initialPos: seq<Vec>, idx: int, ghost rank: seq<nat>): (r: seq<Node>)
    requires WellLinked(ns, rank) && LinkOk(ns, idx)
    requires hasNodePos ==> |initialPos| == |ns|
    ensures SameButMatrices(ns, r)
    decreases Measure(rank, idx), 1
  {
    if idx == -1 then ns
    else
      var ns1 := Visit(ns, hasNodePos, initialPos, idx, rank);
      MatricesKeepLinks(ns, ns1, rank);
      var r := Walk(ns1, hasNodePos, initialPos, ns[idx].next, rank);
      assert SameButMatrices(ns, r) by { assert forall i :: 0 <= i < |ns| ==> ns[i].(transform := Unset) == ns1[i].(transform := Unset); }
      r
  }

  /** One node's visit: write its base matrix, walk its child subtree, then recentre it. */
  function Visit(ns: seq<Node>, hasNodePos: bool, initialPos: seq<Vec>, idx: nat, ghost rank: seq<nat>): (r: seq<Node>)
    requires WellLinked(ns, rank) && idx < |ns|
    requires hasNodePos ==> |initialPos| == |ns|
    ensures SameButMatrices(ns, r)
    decreases Measure(rank, idx), 0
  {
    var ns1 := ns[idx := ns[idx].(transform := Base(ns, idx))];
    assert SameButMatrices(ns, ns1);
    MatricesKeepLinks(ns, ns1, rank);
    var ns2 := Walk(ns1, hasNodePos, initialPos, ns[idx].child, rank);
    var r := ns2[idx := ns2[idx].(transform := Recentre(ns2[idx].transform, hasNodePos, initialPos, idx))];
    assert SameButMatrices(ns, r) by {
      assert forall i :: 0 <= i < |ns| ==> ns[i].(transform := Unset) == ns1[i].(transform := Unset);
      assert forall i :: 0 <= i < |ns| ==> ns1[i].(transform := Unset) == ns2[i].(transform := Unset);
    }
    r
  }

  /** CModel_compute_node_matrices. */
  method ComputeNodeMatrices(nodes: array<Node>, hasNodePos: bool, initialPos: seq<Vec>, start: int, ghost rank: seq<nat>)
    requires WellLinked(nodes[..], rank) && LinkOk(nodes[..], start)
    requires hasNodePos ==> |initialPos| == nodes.Length
    modifies nodes
    ensures nodes[..] == Walk(old(nodes[..]), hasNodePos, initialPos, start, rank)
    decreases Measure(rank, start), 1
  {
    if start == -1 {
      return;
    }
    var idx := start;
    while idx != -1
      invariant LinkOk(nodes[..], idx) && WellLinked(nodes[..], rank)
      invariant idx != -1 ==> rank[idx] <= rank[start]
      invariant Walk(nodes[..], hasNodePos, initialPos, idx, rank) == Walk(old(nodes[..]), hasNodePos, initialPos, start, rank)
      decreases Measure(rank, idx)
    {
      ghost var ns := nodes[..];
      VisitNode(nodes, hasNodePos, initialPos, idx, rank);
      MatricesKeepLinks(ns, nodes[..], rank);
      assert nodes[idx].next == ns[idx].next by {
        assert ns[idx].(transform := Unset) == nodes[..][idx].(transform := Unset);
      }
      idx := nodes[idx].next;
    }
  }

  /** The body of the traversal loop for node `idx`. */
  method VisitNode(nodes: array<Node>, hasNodePos: bool, initialPos: seq<Vec>, idx: nat, ghost rank: seq<nat>)
    requires WellLinked(nodes[..], rank) && idx < nodes.Length
    requires hasNodePos ==> |initialPos| == nodes.Length
    modifies nodes
    ensures nodes[..] == Visit(old(nodes[..]), hasNodePos, initialPos, idx, rank)
    decreases Measure(rank, idx), 0
  {
    ghost var ns := nodes[..];
    var node := nodes[idx];
    var local := Local(node);
    if node.parent == -1 {
      nodes[idx] := node.(transform := local);
    } else {
      nodes[idx] := node.(transform := Concat(local, nodes[node.parent].transform));
    }
    ghost var ns1 := nodes[..];
    assert ns1 == ns[idx := ns[idx].(transform := Base(ns, idx))];
    assert SameButMatrices(ns, ns1);
    MatricesKeepLinks(ns, ns1, rank);
    if node.child != -1 {
      ComputeNodeMatrices(nodes, hasNodePos, initialPos, node.child, rank);
    }
    ghost var ns2 := nodes[..];
    if hasNodePos {
      var v := initialPos[idx];
      nodes[idx] := nodes[idx].(transform := Concat(Translation(Vec(-v.x, -v.y, -v.z)), nodes[idx].transform));
    }
    assert nodes[..] == ns2[idx := ns2[idx].(transform := Recentre(ns2[idx].transform, hasNodePos, initialPos, idx))];
  }

  /** The nodes a walk from `idx` reaches: those along the next chain and, below
      each, its child subtree. */
  ghost function Reach(ns: seq<Node>, idx: int, rank: seq<nat>): set<int>
    requires WellLinked(ns, rank) && LinkOk(ns, idx)
    decreases Measure(rank, idx)
  {
    if idx == -1 then {} else {idx} + Reach(ns, ns[idx].child, rank) + Reach(ns, ns[idx].next, rank)
  }

  lemma {:induction false} ReachIgnoresMatrices(a: seq<Node>, b: seq<Node>, idx: int, rank: seq<nat>)
    requires WellLinked(a, rank) && SameButMatrices(a, b) && LinkOk(a, idx)
    ensures WellLinked(b, rank) && Reach(a, idx, rank) == Reach(b, idx, rank)
    decreases Measure(rank, idx)
  {
    MatricesKeepLinks(a, b, rank);
    if idx != -1 {
      assert a[idx].(transform := Unset) == b[idx].(transform := Unset);
      ReachIgnoresMatrices(a, b, a[idx].child, rank);
      ReachIgnoresMatrices(a, b, a[idx].next, rank);
    }
  }

  /** The walk from `idx` leaves every node it does not reach as it was. */
  lemma {:induction false} WalkFrame(ns: seq<Node>, hasNodePos: bool, initialPos: seq<Vec>, idx: int, rank: seq<nat>)
    requires WellLinked(ns, rank) && LinkOk(ns, idx)
    requires hasNodePos ==> |initialPos| == |ns|
    ensures forall i :: 0 <= i < |ns| && i !in Reach(ns, idx, rank) ==>
              Walk(ns, hasNodePos, initialPos, idx, rank)[i] == ns[i]
    decreases Measure(rank, idx), 1
  {
    if idx != -1 {
      var ns1 := Visit(ns, hasNodePos, initialPos, idx, rank);
      VisitFrame(ns, hasNodePos, initialPos, idx, rank);
      ReachIgnoresMatrices(ns, ns1, ns[idx].next, rank);
      WalkFrame(ns1, hasNodePos, initialPos, ns[idx].next, rank);
    }
  }

  /** A node's visit changes only the node and its child subtree. */
  lemma {:induction false} VisitFrame(ns: seq<Node>, hasNodePos: bool, initialPos: seq<Vec>, idx: nat, rank: seq<nat>)
    requires WellLinked(ns, rank) && idx < |ns|
    requires hasNodePos ==> |initialPos| == |ns|
    ensures forall i :: 0 <= i < |ns| && i != idx && i !in Reach(ns, ns[idx].child, rank) ==>
              Visit(ns, hasNodePos, initialPos, idx, rank)[i] == ns[i]
    decreases Measure(rank, idx), 0
  {
    var ns1 := ns[idx := ns[idx].(transform := Base(ns, idx))];
    assert SameButMatrices(ns, ns1);
    ReachIgnoresMatrices(ns, ns1, ns[idx].child, rank);
    WalkFrame(ns1, hasNodePos, initialPos, ns[idx].child, rank);
  }

  /** Every node a walk from `y` reaches ranks no higher than `y`. */
  lemma {:induction false} ReachBelow(ns: seq<Node>, y: int, rank: seq<nat>)
    requires WellLinked(ns, rank) && LinkOk(ns, y)
    ensures forall j :: j in Reach(ns, y, rank) ==> 0 <= j < |ns| && rank[j] <= rank[y]
    decreases Measure(rank, y)
  {
    if y != -1 {
      ReachBelow(ns, ns[y].child, rank);
      ReachBelow(ns, ns[y].next, rank);
    }
  }

  /** A node's visit ends with the node holding its base matrix recentred: the
      recentring comes after the child subtree, which never writes the node itself. */
  lemma VisitRecentres(ns: seq<Node>, hasNodePos: bool, initialPos: seq<Vec>, idx: nat, rank: seq<nat>)
    requires WellLinked(ns, rank) && idx < |ns|
    requires hasNodePos ==> |initialPos| == |ns|
    ensures Visit(ns, hasNodePos, initialPos, idx, rank)[idx].transform == Recentre(Base(ns, idx), hasNodePos, initialPos, idx)
  {
    var ns1 := ns[idx := ns[idx].(transform := Base(ns, idx))];
    assert SameButMatrices(ns, ns1);
    ReachIgnoresMatrices(ns, ns1, ns[idx].child, rank);
    ReachBelow(ns1, ns[idx].child, rank);
    WalkFrame(ns1, hasNodePos, initialPos, ns[idx].child, rank);
  }

  /** The nodes along the next chain from `x` all name `q` as their parent. */
  ghost predicate ChainParent(ns: seq<Node>, x: int, q: int, rank: seq<nat>)
    requires WellLinked(ns, rank) && LinkOk(ns, x)
    decreases Measure(rank, x)
  {
    x == -1 || (ns[x].parent == q && ChainParent(ns, ns[x].next, q, rank))
  }

  /** Parent links are in range and lead strictly upward in `depth`. */
  ghost predicate Rooted(ns: seq<Node>, depth: seq<nat>)
  {
    |depth| == |ns|
    && forall i :: 0 <= i < |ns| ==>
         LinkOk(ns, ns[i].parent) && (ns[i].parent != -1 ==> depth[ns[i].parent] < depth[i])
  }

  /** A consistent node tree: well linked, rooted, and every node's child chain holds
      only nodes that name it as their parent. */
  ghost predicate Tree(ns: seq<Node>, rank: seq<nat>, depth: seq<nat>)
  {
    WellLinked(ns, rank) && Rooted(ns, depth)
    && forall i :: 0 <= i < |ns| ==> ChainParent(ns, ns[i].child, i, rank)
  }

  /** The world matrix of node `i` as the tree defines it: its local matrix, composed
      with its parent's world matrix unless it is a root. */
  ghost function World(ns: seq<Node>, i: nat, depth: seq<nat>): Mtx
    requires Rooted(ns, depth) && i < |ns|
    decreases depth[i]
  {
    if ns[i].parent == -1 then Local(ns[i]) else Concat(Local(ns[i]), World(ns, ns[i].parent, depth))
  }

  /** `a` is a proper ancestor of `j` along parent links. */
  ghost predicate Anc(ns: seq<Node>, a: int, j: nat, depth: seq<nat>)
    requires Rooted(ns, depth) && j < |ns|
    decreases depth[j]
  {
    var p := ns[j].parent;
    p != -1 && (p == a || Anc(ns, a, p, depth))
  }

  lemma {:induction false} AncDepth(ns: seq<Node>, a: int, j: nat, depth: seq<nat>)
    requires Rooted(ns, depth) && j < |ns| && Anc(ns, a, j, depth)
    ensures 0 <= a < |ns| && depth[a] < depth[j]
    decreases depth[j]
  {
    var p := ns[j].parent;
    if p != a {
      AncDepth(ns, a, p, depth);
    }
  }

  /** An ancestor of `y` is an ancestor of everything below `y`. */
  lemma {:induction false} AncStep(ns: seq<Node>, a: int, y: nat, j: nat, depth: seq<nat>)
    requires Rooted(ns, depth) && y < |ns| && j < |ns|
    requires Anc(ns, y, j, depth) && ns[y].parent == a && a != -1
    ensures Anc(ns, a, j, depth)
    decreases depth[j]
  {
    var p := ns[j].parent;
    if p != y {
      AncStep(ns, a, y, p, depth);
    }
  }

  /** The ancestors of one node lie on one line. */
  lemma {:induction false} AncLinear(ns: seq<Node>, a: int, b: int, j: nat, depth: seq<nat>)
    requires Rooted(ns, depth) && j < |ns|
    requires Anc(ns, a, j, depth) && Anc(ns, b, j, depth)
    ensures a == b || (0 <= b < |ns| && Anc(ns, a, b, depth)) || (0 <= a < |ns| && Anc(ns, b, a, depth))
    decreases depth[j]
  {
    var p := ns[j].parent;
    if p != a && p != b {
      AncLinear(ns, a, b, p, depth);
    }
  }

  /** Whatever a walk from a chain with parent `q` reaches lies below `q`. */
  lemma {:induction false} ReachDescends(ns: seq<Node>, x: int, q: nat, rank: seq<nat>, depth: seq<nat>)
    requires Tree(ns, rank, depth) && LinkOk(ns, x) && ChainParent(ns, x, q, rank)
    ensures forall j :: j in Reach(ns, x, rank) ==> 0 <= j < |ns| && Anc(ns, q, j, depth)
    decreases Measure(rank, x)
  {
    if x != -1 {
      ReachDescends(ns, ns[x].next, q, rank, depth);
      ReachDescends(ns, ns[x].child, x, rank, depth);
      forall j | j in Reach(ns, ns[x].child, rank)
        ensures Anc(ns, q, j, depth)
      {
        AncStep(ns, q, x, j, depth);
      }
    }
  }

  /** A walk along the chain from `y` never reaches below a sibling `x` that comes
      before `y` on that chain (and so ranks higher). */
  lemma {:induction false} ReachNotBelow(ns: seq<Node>, x: nat, y: int, q: int, rank: seq<nat>, depth: seq<nat>)
    requires Tree(ns, rank, depth) && x < |ns| && LinkOk(ns, y) && ChainParent(ns, y, q, rank)
    requires ns[x].parent == q && (y != -1 ==> rank[y] < rank[x])
    ensures forall j :: j in Reach(ns, y, rank) ==> 0 <= j < |ns| && !Anc(ns, x, j, depth)
    decreases Measure(rank, y)
  {
    if y != -1 {
      ReachNotBelow(ns, x, ns[y].next, q, rank, depth);
      ReachDescends(ns, ns[y].child, y, rank, depth);
      NotAncOfSibling(ns, x, y, depth);
      NotAncOfSibling(ns, y, x, depth);
      forall j | j in Reach(ns, ns[y].child, rank)
        ensures !Anc(ns, x, j, depth)
      {
        if Anc(ns, x, j, depth) {
          AncLinear(ns, x, y, j, depth);
        }
      }
    }
  }

  /** Of two nodes with the same parent, neither is an ancestor of the other. */
  lemma NotAncOfSibling(ns: seq<Node>, x: nat, y: nat, depth: seq<nat>)
    requires Rooted(ns, depth) && x < |ns| && y < |ns| && ns[x].parent == ns[y].parent
    ensures !Anc(ns, x, y, depth)
  {
    var q := ns[y].parent;
    if q != -1 && q != x && Anc(ns, x, q, depth) {
      AncDepth(ns, x, q, depth);
    }
  }

  lemma {:induction false} ChainParentIgnoresMatrices(a: seq<Node>, b: seq<Node>, x: int, q: int, rank: seq<nat>)
    requires WellLinked(a, rank) && SameButMatrices(a, b) && LinkOk(a, x)
    ensures WellLinked(b, rank) && ChainParent(a, x, q, rank) == ChainParent(b, x, q, rank)
    decreases Measure(rank, x)
  {
    MatricesKeepLinks(a, b, rank);
    if x != -1 {
      assert a[x].(transform := Unset) == b[x].(transform := Unset);
      ChainParentIgnoresMatrices(a, b, a[x].next, q, rank);
    }
  }

  lemma TreeIgnoresMatrices(a: seq<Node>, b: seq<Node>, rank: seq<nat>, depth: seq<nat>)
    requires Tree(a, rank, depth) && SameButMatrices(a, b)
    ensures Tree(b, rank, depth)
  {
    MatricesKeepLinks(a, b, rank);
    forall i | 0 <= i < |b|
      ensures b[i].parent == a[i].parent && b[i].child == a[i].child
      ensures ChainParent(b, b[i].child, i, rank)
    {
      assert a[i].(transform := Unset) == b[i].(transform := Unset);
      ChainParentIgnoresMatrices(a, b, a[i].child, i, rank);
    }
  }

  lemma {:induction false} WorldIgnoresMatrices(a: seq<Node>, b: seq<Node>, i: nat, rank: seq<nat>, depth: seq<nat>)
    requires Tree(a, rank, depth) && SameButMatrices(a, b) && i < |a|
    ensures Tree(b, rank, depth) && World(a, i, depth) == World(b, i, depth)
    decreases depth[i]
  {
    TreeIgnoresMatrices(a, b, rank, depth);
    assert a[i].(transform := Unset) == b[i].(transform := Unset);
    if a[i].parent != -1 {
      WorldIgnoresMatrices(a, b, a[i].parent, rank, depth);
    }
  }

  /** The parent `q` of a chain already holds its world matrix (or there is none). */
  ghost predicate ParentReady(ns: seq<Node>, q: int, depth: seq<nat>)
    requires Rooted(ns, depth) && LinkOk(ns, q)
  {
    q == -1 || ns[q].transform == World(ns, q, depth)
  }

  /** In a consistent tree, the visit of `x` (whose parent holds its world matrix)
      leaves `x` and its whole subtree with their world matrices, recentred. */
  lemma VisitWorld(ns: seq<Node>, hasNodePos: bool, initialPos: seq<Vec>, x: nat, rank: seq<nat>, depth: seq<nat>)
    requires Tree(ns, rank, depth) && x < |ns| && ParentReady(ns, ns[x].parent, depth)
    requires hasNodePos ==> |initialPos| == |ns|
    ensures var r := Visit(ns, hasNodePos, initialPos, x, rank);
            forall i :: i in Reach(ns, ns[x].child, rank) + {x} ==>
              0 <= i < |ns| && r[i].transform == Recentre(World(ns, i, depth), hasNodePos, initialPos, i)
    decreases Measure(rank, x), 1
  {
    assert Base(ns, x) == World(ns, x, depth);
    VisitRecentres(ns, hasNodePos, initialPos, x, rank);
    VisitSubtreeWorld(ns, hasNodePos, initialPos, x, rank, depth);
  }

  /** The child subtree part of `VisitWorld`. */
  lemma VisitSubtreeWorld(ns: seq<Node>, hasNodePos: bool, initialPos: seq<Vec>, x: nat, rank: seq<nat>, depth: seq<nat>)
    requires Tree(ns, rank, depth) && x < |ns| && ParentReady(ns, ns[x].parent, depth)
    requires hasNodePos ==> |initialPos| == |ns|
    ensures var r := Visit(ns, hasNodePos, initialPos, x, rank);
            forall i :: i in Reach(ns, ns[x].child, rank) ==>
              0 <= i < |ns| && r[i].transform == Recentre(World(ns, i, depth), hasNodePos, initialPos, i)
    decreases Measure(rank, x), 0
  {
    var ns1 := ns[x := ns[x].(transform := Base(ns, x))];
    ChildWalkWorld(ns, hasNodePos, initialPos, x, rank, depth);
    ReachBelow(ns, ns[x].child, rank);
    forall i | i in Reach(ns, ns[x].child, rank)
      ensures 0 <= i < |ns| && Visit(ns, hasNodePos, initialPos, x, rank)[i] == Walk(ns1, hasNodePos, initialPos, ns[x].child, rank)[i]
    {
      VisitAway(ns, hasNodePos, initialPos, x, i, rank);
    }
  }

  /** Away from the visited node, a visit is the walk of its child chain. */
  lemma VisitAway(ns: seq<Node>, hasNodePos: bool, initialPos: seq<Vec>, x: nat, i: nat, rank: seq<nat>)
    requires WellLinked(ns, rank) && x < |ns| && i < |ns| && i != x
    requires hasNodePos ==> |initialPos| == |ns|
    ensures var ns1 := ns[x := ns[x].(transform := Base(ns, x))];
            WellLinked(ns1, rank)
            && Visit(ns, hasNodePos, initialPos, x, rank)[i] == Walk(ns1, hasNodePos, initialPos, ns[x].child, rank)[i]
  {
    var ns1 := ns[x := ns[x].(transform := Base(ns, x))];
    assert SameButMatrices(ns, ns1);
    MatricesKeepLinks(ns, ns1, rank);
  }

  /** The walk of `x`'s child chain, once `x` holds its world matrix, leaves the
      child subtree with its world matrices, recentred. */
  lemma {:induction false} ChildWalkWorld(ns: seq<Node>, hasNodePos: bool, initialPos: seq<Vec>, x: nat, rank: seq<nat>, depth: seq<nat>)
    requires Tree(ns, rank, depth) && x < |ns| && ParentReady(ns, ns[x].parent, depth)
    requires hasNodePos ==> |initialPos| == |ns|
    ensures var ns1 := ns[x := ns[x].(transform := Base(ns, x))];
            WellLinked(ns1, rank)
            && forall i :: i in Reach(ns, ns[x].child, rank) ==>
                 0 <= i < |ns| && Walk(ns1, hasNodePos, initialPos, ns[x].child, rank)[i].transform
                                  == Recentre(World(ns, i, depth), hasNodePos, initialPos, i)
    decreases Measure(rank, x), 0, 0
  {
    var ns1 := ns[x := ns[x].(transform := Base(ns, x))];
    assert SameButMatrices(ns, ns1);
    assert Base(ns, x) == World(ns, x, depth);
    WorldIgnoresMatrices(ns, ns1, x, rank, depth);
    ChainParentIgnoresMatrices(ns, ns1, ns[x].child, x, rank);
    WalkWorld(ns1, hasNodePos, initialPos, ns[x].child, x, rank, depth);
    ReachIgnoresMatrices(ns, ns1, ns[x].child, rank);
    ReachBelow(ns, ns[x].child, rank);
    forall i | i in Reach(ns, ns[x].child, rank)
      ensures World(ns1, i, depth) == World(ns, i, depth)
    {
      WorldIgnoresMatrices(ns, ns1, i, rank, depth);
    }
  }

  /** In a consistent tree, the walk along a chain whose nodes name `q` as parent
      (`q` holding its world matrix, or -1 for a chain of roots) leaves every node it
      reaches with its world matrix, recentred. */
  lemma {:induction false} WalkWorld(ns: seq<Node>, hasNodePos: bool, initialPos: seq<Vec>, x: int, q: int, rank: seq<nat>, depth: seq<nat>)
    requires Tree(ns, rank, depth) && LinkOk(ns, x) && LinkOk(ns, q)
    requires ChainParent(ns, x, q, rank) && ParentReady(ns, q, depth)
    requires hasNodePos ==> |initialPos| == |ns|
    ensures var r := Walk(ns, hasNodePos, initialPos, x, rank);
            forall i :: i in Reach(ns, x, rank) ==>
              0 <= i < |ns| && r[i].transform == Recentre(World(ns, i, depth), hasNodePos, initialPos, i)
    decreases Measure(rank, x), 2
  {
    if x != -1 {
      VisitWorld(ns, hasNodePos, initialPos, x, rank, depth);
      var v := Visit(ns, hasNodePos, initialPos, x, rank);
      var nx := ns[x].next;
      VisitKeepsChain(ns, hasNodePos, initialPos, x, q, rank, depth);
      WalkWorld(v, hasNodePos, initialPos, nx, q, rank, depth);
      var r := Walk(v, hasNodePos, initialPos, nx, rank);
      ReachIgnoresMatrices(ns, v, nx, rank);
      WalkFrame(v, hasNodePos, initialPos, nx, rank);
      ReachBelow(ns, nx, rank);
      ReachDescends(ns, ns[x].child, x, rank, depth);
      ReachNotBelow(ns, x, nx, q, rank, depth);
      forall i | i in Reach(ns, x, rank)
        ensures 0 <= i < |ns| && r[i].transform == Recentre(World(ns, i, depth), hasNodePos, initialPos, i)
      {
        if i in Reach(ns, nx, rank) {
          WorldIgnoresMatrices(ns, v, i, rank, depth);
        } else {
          assert i in Reach(ns, ns[x].child, rank) + {x};
          assert r[i] == v[i];
        }
      }
    }
  }

  /** The visit of `x` leaves the rest of its chain and the chain's parent `q` as
      they were, so the walk can go on from `x`'s next sibling. */
  lemma VisitKeepsChain(ns: seq<Node>, hasNodePos: bool, initialPos: seq<Vec>, x: nat, q: int, rank: seq<nat>, depth: seq<nat>)
    requires Tree(ns, rank, depth) && x < |ns| && LinkOk(ns, q)
    requires ChainParent(ns, x, q, rank) && ParentReady(ns, q, depth)
    requires hasNodePos ==> |initialPos| == |ns|
    ensures var v := Visit(ns, hasNodePos, initialPos, x, rank);
            Tree(v, rank, depth) && ChainParent(v, ns[x].next, q, rank) && ParentReady(v, q, depth)
  {
    var v := Visit(ns, hasNodePos, initialPos, x, rank);
    TreeIgnoresMatrices(ns, v, rank, depth);
    ChainParentIgnoresMatrices(ns, v, ns[x].next, q, rank);
    if q != -1 {
      VisitFrame(ns, hasNodePos, initialPos, x, rank);
      ReachDescends(ns, ns[x].child, x, rank, depth);
      forall j | j in Reach(ns, ns[x].child, rank)
        ensures j != q
      {
        AncStep(ns, q, x, j, depth);
        AncDepth(ns, q, j, depth);
      }
      assert v[q] == ns[q];
      WorldIgnoresMatrices(ns, v, q, rank, depth);
    }
  }

  /** The traversal from a chain of roots leaves every reached node with its world
      matrix recentred; in particular a child's matrix is composed with its parent's
      matrix from before the parent's recentring, which the parent receives only
      after its whole subtree. */
  lemma ChildSeesParentBeforeRecentring(ns: seq<Node>, hasNodePos: bool, initialPos: seq<Vec>, start: int, p: nat, c: nat, rank: seq<nat>, depth: seq<nat>)
    requires Tree(ns, rank, depth) && LinkOk(ns, start) && ChainParent(ns, start, -1, rank)
    requires hasNodePos ==> |initialPos| == |ns|
    requires p in Reach(ns, start, rank) && c in Reach(ns, start, rank) && c < |ns| && ns[c].parent == p
    ensures var r := Walk(ns, hasNodePos, initialPos, start, rank);
            && r[p].transform == Recentre(World(ns, p, depth), hasNodePos, initialPos, p)
            && r[c].transform == Recentre(Concat(Local(ns[c]), World(ns, p, depth)), hasNodePos, initialPos, c)
  {
    WalkWorld(ns, hasNodePos, initialPos, start, -1, rank, depth);
  }
}
