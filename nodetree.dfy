/** The coordinate-deduplicating quad tree of nodes (src/buffer.c:192-232;
    buffer.c:119-154 holds the same two functions).

    Nodes live in the node buffer, an append-only arena that is never popped;
    the root is the first node allocated (slot 0). A node refers to its four
    children by how many slots further on they lie; 0 means "no child". The
    child for a point is chosen by `east | north << 1`, where `east` is
    `x > node.x` and `north` is `y > node.y`, so ties go west and south. */
module NodeTree {
  import opened CTypes
  import opened GrowableBuffers

  /** sizeof(Node): seven ints. */
  const NODE_SIZE: nat := 7 * INT_SIZE

  /** The coordinates main gives the root node (dr2osm.c:277-279). */
  const ROOT_X: int := 1018199
  const ROOT_Y: int := 7248352

  type Children = c: seq<int> | |c| == 4 witness [0, 0, 0, 0]

  /** The Node record: coordinates, OSM id (0 until one is generated) and the
      relative offsets of the four children. */
  datatype Node = Node(x: int, y: int, id: int, children: Children)

  /** A freshly committed, zero-filled node. */
  const BLANK: Node := Node(0, 0, 0, [0, 0, 0, 0])

  /** The child slot a point belongs to below `n`. */
  function Quadrant(x: int, y: int, n: Node): (q: nat)
    ensures q < 4
    ensures q % 2 == 1 <==> x > n.x
    ensures q >= 2 <==> y > n.y
  {
    var east := if x > n.x then 1 else 0;
    var north := if y > n.y then 1 else 0;
    east + 2 * north
  }

  /** Every child offset is non-negative and, when non-zero, leads to a later
      slot of the arena. */
  ghost predicate Linked(a: seq<Node>) {
    forall i, q :: 0 <= i < |a| && 0 <= q < 4 ==>
      0 <= a[i].children[q] && (a[i].children[q] != 0 ==> i + a[i].children[q] < |a|)
  }

  /** Where the search for (x, y) ends: at the node holding the point, or at
      the node whose child slot for it is empty. */
  datatype Probe = Found(index: nat) | Vacant(parent: nat, quadrant: nat)

  /** The walk of node_upsert from slot `i`. */
  ghost function Descend(a: seq<Node>, i: nat, x: int, y: int): (p: Probe)
    requires Linked(a) && i < |a|
    ensures p.Found? ==> i <= p.index < |a| && a[p.index].x == x && a[p.index].y == y
    ensures p.Vacant? ==>
      && i <= p.parent < |a| && p.quadrant < 4
      && (a[p.parent].x != x || a[p.parent].y != y)
      && p.quadrant == Quadrant(x, y, a[p.parent])
      && a[p.parent].children[p.quadrant] == 0
    decreases |a| - i
  {
    if a[i].x == x && a[i].y == y then Found(i)
    else
      var q := Quadrant(x, y, a[i]);
      if a[i].children[q] == 0 then Vacant(i, q) else Descend(a, i + a[i].children[q], x, y)
  }

  /** The arena is a search tree from the root: searching for the coordinates
      of any node finds that very node. */
  ghost predicate Findable(a: seq<Node>)
    requires Linked(a)
  {
    forall j :: 0 <= j < |a| ==> Descend(a, 0, a[j].x, a[j].y) == Found(j)
  }

  /** The node arena as main and handle_row keep it. */
  ghost predicate Tree(a: seq<Node>) {
    |a| >= 1 && Linked(a) && Findable(a)
  }

  /** The arena after a miss: the new node is appended and linked into the
      empty child slot `q` of node `p`. */
  function Attach(a: seq<Node>, p: nat, q: nat, x: int, y: int): (b: seq<Node>)
    requires p < |a| && q < 4
    ensures |b| == |a| + 1 && b[|a|] == Node(x, y, 0, [0, 0, 0, 0])
    ensures b[p].children[q] == |a| - p > 0
  {
    a[p := a[p].(children := a[p].children[q := |a| - p])] + [Node(x, y, 0, [0, 0, 0, 0])]
  }

  /** node_upsert on the arena `a`: the arena afterwards and the slot of the
      node returned. */
  ghost function UpsertSpec(a: seq<Node>, x: int, y: int): (r: (seq<Node>, nat))
    requires |a| >= 1 && Linked(a)
    ensures r.1 < |r.0| && r.0[r.1].x == x && r.0[r.1].y == y
    ensures r.0 == a || (|r.0| == |a| + 1 && r.1 == |a| && r.0[r.1].id == 0)
  {
    match Descend(a, 0, x, y)
    case Found(j) => (a, j)
    case Vacant(p, q) => (Attach(a, p, q, x, y), |a|)
  }

  // ---------------------------------------------------------------------
  // Properties of the specification

  lemma AttachLinked(a: seq<Node>, p: nat, q: nat, x: int, y: int)
    requires Linked(a) && p < |a| && q < 4 && a[p].children[q] == 0
    ensures Linked(Attach(a, p, q, x, y))
  {
    var b := Attach(a, p, q, x, y);
    forall i, r | 0 <= i < |b| && 0 <= r < 4
      ensures 0 <= b[i].children[r] && (b[i].children[r] != 0 ==> i + b[i].children[r] < |b|)
    {
      if i < |a| && !(i == p && r == q) {
        assert b[i].children[r] == a[i].children[r];
      }
    }
  }

  /** A search that succeeded before a node was attached still succeeds. */
  lemma {:induction false} AttachKeepsFound(a: seq<Node>, p: nat, q: nat, x: int, y: int,
                                            i: nat, x0: int, y0: int)
    requires Linked(a) && p < |a| && q < 4 && a[p].children[q] == 0 && i < |a|
    requires Descend(a, i, x0, y0).Found?
    ensures Linked(Attach(a, p, q, x, y))
    ensures Descend(Attach(a, p, q, x, y), i, x0, y0) == Descend(a, i, x0, y0)
    decreases |a| - i
  {
    AttachLinked(a, p, q, x, y);
    var b := Attach(a, p, q, x, y);
    assert b[i].x == a[i].x && b[i].y == a[i].y;
    if !(a[i].x == x0 && a[i].y == y0) {
      var r := Quadrant(x0, y0, a[i]);
      assert r == Quadrant(x0, y0, b[i]);
      assert b[i].children[r] == a[i].children[r];
      AttachKeepsFound(a, p, q, x, y, i + a[i].children[r], x0, y0);
    }
  }

  /** A search that ended at the empty slot now filled finds the new node. */
  lemma {:induction false} AttachFindsNew(a: seq<Node>, p: nat, q: nat, x: int, y: int, i: nat)
    requires Linked(a) && i < |a|
    requires Descend(a, i, x, y) == Vacant(p, q)
    ensures Linked(Attach(a, p, q, x, y))
    ensures Descend(Attach(a, p, q, x, y), i, x, y) == Found(|a|)
    decreases |a| - i
  {
    AttachLinked(a, p, q, x, y);
    var b := Attach(a, p, q, x, y);
    assert b[i].x == a[i].x && b[i].y == a[i].y;
    var r := Quadrant(x, y, a[i]);
    assert r == Quadrant(x, y, b[i]);
    if i == p {
      assert b[i].children[r] == |a| - p;
      assert Descend(b, |a|, x, y) == Found(|a|);
    } else {
      assert b[i].children[r] == a[i].children[r];
      AttachFindsNew(a, p, q, x, y, i + a[i].children[r]);
    }
  }

  /** Attaching a node at the end of a failed search keeps the arena a tree. */
  lemma AttachTree(a: seq<Node>, x: int, y: int)
    requires Tree(a) && Descend(a, 0, x, y).Vacant?
    ensures var p := Descend(a, 0, x, y); Tree(Attach(a, p.parent, p.quadrant, x, y))
  {
    var v := Descend(a, 0, x, y);
    var p, q := v.parent, v.quadrant;
    AttachLinked(a, p, q, x, y);
    var b := Attach(a, p, q, x, y);
    forall j | 0 <= j < |b|
      ensures Descend(b, 0, b[j].x, b[j].y) == Found(j)
    {
      if j < |a| {
        assert b[j].x == a[j].x && b[j].y == a[j].y;
        AttachKeepsFound(a, p, q, x, y, 0, a[j].x, a[j].y);
      } else {
        AttachFindsNew(a, p, q, x, y, 0);
      }
    }
  }

  /** In a tree no two nodes share coordinates. */
  lemma TreeUnique(a: seq<Node>, j: nat, k: nat)
    requires Tree(a) && j < |a| && k < |a|
    requires a[j].x == a[k].x && a[j].y == a[k].y
    ensures j == k
  {
    assert Descend(a, 0, a[j].x, a[j].y) == Found(j);
    assert Descend(a, 0, a[k].x, a[k].y) == Found(k);
  }

  /** In a tree the search for a point finds a node exactly when some node
      holds the point. */
  lemma FoundIffPresent(a: seq<Node>, x: int, y: int)
    requires Tree(a)
    ensures Descend(a, 0, x, y).Found? <==> exists j :: 0 <= j < |a| && a[j].x == x && a[j].y == y
  {
    if j :| 0 <= j < |a| && a[j].x == x && a[j].y == y {
      assert Descend(a, 0, a[j].x, a[j].y) == Found(j);
    }
  }

  /** node_upsert returns a node holding the point; on a hit the arena is
      unchanged; on a miss exactly one node with id 0 is appended, linked by a
      positive offset from the previously empty child slot of the last node
      visited, and no other node changes. The arena stays a tree. */
  lemma UpsertSpecProperties(a: seq<Node>, x: int, y: int)
    requires Tree(a)
    ensures var (b, j) := UpsertSpec(a, x, y);
      && Tree(b) && j < |b| && b[j].x == x && b[j].y == y
      && ((exists k :: 0 <= k < |a| && a[k].x == x && a[k].y == y) <==> b == a)
      && (b != a ==>
        && j == |a| && |b| == |a| + 1 && b[j] == Node(x, y, 0, [0, 0, 0, 0])
        && (exists p, q :: 0 <= p < |a| && 0 <= q < 4
              && a[p].children[q] == 0 && b[p].children[q] == |a| - p > 0
              && q == Quadrant(x, y, a[p])
              && b[p] == a[p].(children := a[p].children[q := |a| - p])
              && forall i :: 0 <= i < |a| && i != p ==> b[i] == a[i]))
  {
    FoundIffPresent(a, x, y);
    var v := Descend(a, 0, x, y);
    if v.Vacant? {
      AttachTree(a, x, y);
      var b := Attach(a, v.parent, v.quadrant, x, y);
      assert |b| == |a| + 1;
      assert b != a;
    }
  }

  /** Two arenas that differ at most in the ids of their nodes. */
  ghost predicate SameShape(a: seq<Node>, b: seq<Node>) {
    |a| == |b| &&
    forall k :: 0 <= k < |a| ==> a[k].x == b[k].x && a[k].y == b[k].y && a[k].children == b[k].children
  }

  lemma SameShapeLinked(a: seq<Node>, b: seq<Node>)
    requires Linked(a) && SameShape(a, b)
    ensures Linked(b)
  {
    forall i, q | 0 <= i < |b| && 0 <= q < 4
      ensures 0 <= b[i].children[q] && (b[i].children[q] != 0 ==> i + b[i].children[q] < |b|)
    {
      assert b[i].children == a[i].children;
    }
  }

  /** Changing the ids of nodes does not change any search. */
  lemma {:induction false} DescendIgnoresIds(a: seq<Node>, b: seq<Node>, i: nat, x: int, y: int)
    requires Linked(a) && i < |a| && SameShape(a, b)
    ensures Linked(b) && Descend(b, i, x, y) == Descend(a, i, x, y)
    decreases |a| - i
  {
    SameShapeLinked(a, b);
    assert a[i].x == b[i].x && a[i].y == b[i].y && a[i].children == b[i].children;
    if !(a[i].x == x && a[i].y == y) {
      var q := Quadrant(x, y, a[i]);
      assert q == Quadrant(x, y, b[i]);
      if a[i].children[q] != 0 {
        DescendIgnoresIds(a, b, i + a[i].children[q], x, y);
      }
    }
  }

  /** Setting a node's id keeps the arena a tree. */
  lemma SetIdTree(a: seq<Node>, j: nat, id: int)
    requires Tree(a) && j < |a|
    ensures Tree(a[j := a[j].(id := id)])
  {
    var b := a[j := a[j].(id := id)];
    assert SameShape(a, b);
    SameShapeLinked(a, b);
    forall k | 0 <= k < |b|
      ensures Descend(b, 0, b[k].x, b[k].y) == Found(k)
    {
      DescendIgnoresIds(a, b, 0, b[k].x, b[k].y);
    }
  }

  // ---------------------------------------------------------------------
  // The operations on the node buffer

  /** The node buffer as handle_row uses it: never popped, holding a tree. */
  ghost predicate NodeBuffer(b: GrowableBuffer<Node>)
    reads b, b.data
  {
    b.Valid() && b.unit == NODE_SIZE && b.zero == BLANK && b.firstSlot == 0 && Tree(b.Contents())
  }

  /** alloc_node: pushes one zero-filled node and returns its slot. */
  method AllocNode(b: GrowableBuffer<Node>) returns (r: Outcome<nat>)
    requires b.Valid() && b.unit == NODE_SIZE && b.zero == BLANK
    modifies b
    ensures b.Valid() && b.firstSlot == old(b.firstSlot)
    ensures r == Halt(CapacityExceeded) <==> b.size - old(b.nextIn) < NODE_SIZE
    ensures r == Halt(CapacityExceeded) ==> b.Contents() == old(b.Contents())
    ensures r != Halt(AssertionFailed)
    ensures r == Halt(CommitFailure) <==>
      NODE_SIZE <= b.size - old(b.nextIn) && old(b.commitThreshold) < old(b.nextIn) + NODE_SIZE
      && !b.commitGranted(old(b.commitThreshold))
    ensures r.Ok? ==>
      && r.value == old(b.nextSlot) == b.nextSlot - 1
      && b.Contents() == old(b.Contents()) + [BLANK]
      && (old(b.nextIn) <= old(b.commitThreshold) ==> b.nextIn <= b.commitThreshold)
  {
    var pushed := b.Push(NODE_SIZE);
    if pushed.Halt? {
      return Halt(pushed.reason);
    }
    MulDivCancel(old(b.nextSlot), NODE_SIZE);
    assert b.data[old(b.nextSlot) .. b.nextSlot] == [BLANK];
    r := Ok(pushed.value / NODE_SIZE);
  }

  /** How the miss branch of node_upsert ends, from the write offset and the
      commit threshold of the node buffer before it and the offset from the
      last node visited to the new one: out of capacity when no node fits;
      a commit failure when the node passes the threshold and the block is
      refused; an assertion failure when the offset does not fit in an int;
      success otherwise. */
  ghost predicate AllocHalts(b: GrowableBuffer<Node>, nextIn: int, threshold: int, offset: int, r: Outcome<nat>) {
    var full := b.size - nextIn < NODE_SIZE;
    var refused := !full && threshold < nextIn + NODE_SIZE && !b.commitGranted(threshold);
    && (r == Halt(CapacityExceeded) <==> full)
    && (r == Halt(CommitFailure) <==> refused)
    && (r == Halt(AssertionFailed) <==> !full && !refused && offset >= INT_MAX)
  }

  /** node_upsert: walks from the root to the node holding (x, y) and returns
      it; when the walk reaches an empty child slot it allocates a node there,
      links it by its offset from the last node visited, and stores the
      coordinates in it. */
  method Upsert(b: GrowableBuffer<Node>, x: int, y: int) returns (r: Outcome<nat>)
    requires NodeBuffer(b)
    modifies b, b.data
    ensures b.Valid() && b.firstSlot == 0
    ensures r.Ok? ==> NodeBuffer(b) && (b.Contents(), r.value) == UpsertSpec(old(b.Contents()), x, y)
    // a hit allocates nothing and cannot halt
    ensures Descend(old(b.Contents()), 0, x, y).Found? ==> r.Ok?
    // a miss halts exactly as alloc_node does, or when the source's assert
    // that the offset to the new node fits in an int fails
    ensures var p := Descend(old(b.Contents()), 0, x, y);
      p.Vacant? ==> AllocHalts(b, old(b.nextIn), old(b.commitThreshold), |old(b.Contents())| - p.parent, r)
    // the offset assert fails only once the buffer holds more than INT_MAX nodes
    ensures r == Halt(AssertionFailed) ==> b.nextSlot > INT_MAX
    ensures r.Ok? && old(b.nextIn) <= old(b.commitThreshold) ==> b.nextIn <= b.commitThreshold
    ensures r == Halt(CapacityExceeded) ==> b.Contents() == old(b.Contents())
  {
    var probe := Search(b, x, y);
    if probe.Found? {
      return Ok(probe.index);
    }
    r := AttachNew(b, probe.parent, probe.quadrant, x, y);
  }

  /** The walk of node_upsert from the root: it stops at the node with the
      coordinates, or at the first node whose child slot for them is empty. */
  method Search(b: GrowableBuffer<Node>, x: int, y: int) returns (p: Probe)
    requires NodeBuffer(b)
    ensures p == Descend(b.Contents(), 0, x, y)
  {
    ghost var a := b.Contents();
    var cur := 0;
    while true
      invariant cur < |a| && Descend(a, cur, x, y) == Descend(a, 0, x, y)
      decreases |a| - cur
    {
      var node := b.data[cur];
      assert node == a[cur];
      if x == node.x && y == node.y {
        return Found(cur);
      }
      var child := Quadrant(x, y, node);
      if node.children[child] == 0 {
        return Vacant(cur, child);
      }
      cur := cur + node.children[child];
    }
  }

  /** The miss branch of node_upsert: alloc_node, then the child link of the
      last node visited and the new node's coordinates are written. */
  method AttachNew(b: GrowableBuffer<Node>, cur: nat, child: nat, x: int, y: int) returns (r: Outcome<nat>)
    requires NodeBuffer(b)
    requires Descend(b.Contents(), 0, x, y) == Vacant(cur, child)
    modifies b, b.data
    ensures b.Valid() && b.firstSlot == 0
    ensures r.Ok? ==> NodeBuffer(b) && b.Contents() == Attach(old(b.Contents()), cur, child, x, y)
    ensures r.Ok? ==> r.value == |old(b.Contents())|
    ensures AllocHalts(b, old(b.nextIn), old(b.commitThreshold), |old(b.Contents())| - cur, r)
    ensures r == Halt(AssertionFailed) ==> b.nextSlot > INT_MAX
    ensures r.Ok? && old(b.nextIn) <= old(b.commitThreshold) ==> b.nextIn <= b.commitThreshold
    ensures r == Halt(CapacityExceeded) ==> b.Contents() == old(b.Contents())
  {
    ghost var a := b.Contents();
    var alloc := AllocNode(b);
    if alloc.Halt? {
      assert alloc.reason != AssertionFailed;
      return Halt(alloc.reason);
    }
    var added := alloc.value;
    var offset := added - cur;
    if offset >= INT_MAX {
      return Halt(AssertionFailed);
    }
    var node := b.data[cur];
    b.data[cur] := node.(children := node.children[child := offset]);
    b.data[added] := b.data[added].(x := x, y := y);
    assert b.Contents() == Attach(a, cur, child, x, y);
    AttachTree(a, x, y);
    r := Ok(added);
  }
}
