/** The OSM ids handle_row hands out (dr2osm.c:73-81, 125-141). One counter,
    last_id, numbers the nodes and the ways alike: a node gets the next id
    the first time a way passes through its point, and every way gets the
    next id after its nodes. */
module Identifiers {
  import opened NodeTree
  import opened Rows
  import opened Ways

  /** Who received an id: the node at a point, or the way with that index. */
  datatype Holder = NodeHolder(p: Point) | WayHolder(k: nat)

  /** The id the node at `p` carries; 0 when no node holds `p` or its node has
      no id yet. */
  ghost function IdOf(a: seq<Node>, p: Point): int
    requires Tree(a)
  {
    match Descend(a, 0, p.x, p.y)
    case Found(j) => a[j].id
    case Vacant(_, _) => 0
  }

  /** Every point with an id got it from the log: id n went to the node at
      that point. */
  ghost predicate PointIdsIssued(a: seq<Node>, issued: seq<Holder>)
    requires Tree(a)
  {
    forall p :: IdOf(a, p) != 0 ==> 1 <= IdOf(a, p) <= |issued| && issued[IdOf(a, p) - 1] == NodeHolder(p)
  }

  /** Who received id `n`. */
  function HolderOf(issued: seq<Holder>, n: int): Holder
    requires 1 <= n <= |issued|
  {
    issued[n - 1]
  }

  /** Every id the log gave to a node is the id of the node at its point.
      (The trigger keeps this from feeding PointIdsIssued and back.) */
  ghost predicate IssuedIdsHeld(a: seq<Node>, issued: seq<Holder>)
    requires Tree(a)
  {
    forall n {:trigger HolderOf(issued, n)} :: 1 <= n <= |issued| && HolderOf(issued, n).NodeHolder? ==>
      IdOf(a, HolderOf(issued, n).p) == n
  }

  /** The ways' ids and the log agree, and a way refers to nodes only by ids
      the log gave to nodes. */
  ghost predicate WayIdsIssued(issued: seq<Holder>, ways: seq<Way>) {
    && (forall k :: 0 <= k < |ways| ==> 1 <= ways[k].id <= |issued| && issued[ways[k].id - 1] == WayHolder(k))
    && (forall k, i :: 0 <= k < |ways| && 0 <= i < |ways[k].nodes| ==>
          1 <= ways[k].nodes[i] <= |issued| && issued[ways[k].nodes[i] - 1].NodeHolder?)
  }

  /** Every id of `nodes` was given to a node. */
  predicate NodeRefs(issued: seq<Holder>, nodes: seq<int>) {
    forall i :: 0 <= i < |nodes| ==> 1 <= nodes[i] <= |issued| && issued[nodes[i] - 1].NodeHolder?
  }

  /** The ids of the arena and the ways, against the log of ids issued so far
      (id i + 1 went to `issued[i]`). */
  ghost predicate Consistent(a: seq<Node>, issued: seq<Holder>, ways: seq<Way>) {
    Tree(a) && PointIdsIssued(a, issued) && IssuedIdsHeld(a, issued) && WayIdsIssued(issued, ways)
  }

  /** The state of the id bookkeeping: the node arena and the id log. */
  datatype Model = Model(arena: seq<Node>, issued: seq<Holder>)

  // ---------------------------------------------------------------------
  // How the two arena updates of handle_row change IdOf

  /** node_upsert changes no point's id. */
  lemma UpsertKeepsIds(a: seq<Node>, p: Point)
    requires Tree(a)
    ensures var (b, j) := UpsertSpec(a, p.x, p.y);
      && Tree(b) && j < |b| && b[j].x == p.x && b[j].y == p.y
      && b[j].id == IdOf(b, p) == IdOf(a, p)
      && (forall q :: IdOf(b, q) == IdOf(a, q))
  {
    UpsertSpecProperties(a, p.x, p.y);
    var (b, j) := UpsertSpec(a, p.x, p.y);
    assert Descend(b, 0, b[j].x, b[j].y) == Found(j);
    if b != a {
      forall q
        ensures IdOf(b, q) == IdOf(a, q)
      {
        var pa := Descend(a, 0, q.x, q.y);
        var pb := Descend(b, 0, q.x, q.y);
        if pa.Found? {
          var k := pa.index;
          assert b[k].x == a[k].x && b[k].y == a[k].y && b[k].id == a[k].id;
          assert Descend(b, 0, b[k].x, b[k].y) == Found(k);
        } else if pb.Found? {
          var m := pb.index;
          if m < |a| {
            assert false;
          }
        }
      }
    }
  }

  /** Giving the node in slot `j` the id `n` gives its point the id `n` and
      changes no other point's id. */
  lemma SetIdIds(a: seq<Node>, j: nat, n: int)
    requires Tree(a) && j < |a|
    ensures var b := a[j := a[j].(id := n)];
      && Tree(b)
      && forall q :: IdOf(b, q) == if q == Point(a[j].x, a[j].y) then n else IdOf(a, q)
  {
    var b := a[j := a[j].(id := n)];
    SetIdTree(a, j, n);
    assert SameShape(a, b);
    forall q
      ensures IdOf(b, q) == if q == Point(a[j].x, a[j].y) then n else IdOf(a, q)
    {
      DescendIgnoresIds(a, b, 0, q.x, q.y);
      assert Descend(a, 0, a[j].x, a[j].y) == Found(j);
    }
  }

  // ---------------------------------------------------------------------
  // One point of a way

  /** The body of handle_row's point loop on the model: node_upsert, and a
      new id when the node has none. Yields the id pushed for the point. */
  ghost function Visit(m: Model, p: Point): (r: (Model, int))
    requires Tree(m.arena)
    ensures Tree(r.0.arena)
  {
    UpsertKeepsIds(m.arena, p);
    var (a, j) := UpsertSpec(m.arena, p.x, p.y);
    if a[j].id != 0 then (Model(a, m.issued), a[j].id)
    else
      var id := |m.issued| + 1;
      SetIdTree(a, j, id);
      (Model(a[j := a[j].(id := id)], m.issued + [NodeHolder(p)]), id)
  }

  /** A visit keeps the ids consistent; the id it yields is the point's id
      afterwards, and is new exactly when the point had none; ids already
      given are kept and the log only grows. */
  lemma VisitProperties(m: Model, ways: seq<Way>, p: Point)
    requires Consistent(m.arena, m.issued, ways)
    ensures var (m1, id) := Visit(m, p);
      && Consistent(m1.arena, m1.issued, ways)
      && id == IdOf(m1.arena, p) && id != 0
      && (IdOf(m.arena, p) != 0 ==> m1.issued == m.issued && id == IdOf(m.arena, p))
      && (IdOf(m.arena, p) == 0 ==> m1.issued == m.issued + [NodeHolder(p)] && id == |m1.issued|)
      && (forall q :: IdOf(m.arena, q) != 0 ==> IdOf(m1.arena, q) == IdOf(m.arena, q))
  {
    UpsertKeepsIds(m.arena, p);
    var (a, j) := UpsertSpec(m.arena, p.x, p.y);
    SameIdsConsistent(m.arena, a, m.issued, ways);
    if a[j].id == 0 {
      var id := |m.issued| + 1;
      SetIdIds(a, j, id);
      NewIdConsistent(a, a[j := a[j].(id := id)], m.issued, ways, p);
    }
  }

  /** Arenas that give every point the same id are consistent alike. */
  lemma SameIdsConsistent(a: seq<Node>, b: seq<Node>, issued: seq<Holder>, ways: seq<Way>)
    requires Consistent(a, issued, ways) && Tree(b)
    requires forall q :: IdOf(b, q) == IdOf(a, q)
    ensures Consistent(b, issued, ways)
  {
  }

  /** Giving a point without an id the next id, and logging it, keeps the ids
      consistent. */
  lemma NewIdConsistent(a: seq<Node>, b: seq<Node>, issued: seq<Holder>, ways: seq<Way>, p: Point)
    requires Consistent(a, issued, ways) && Tree(b) && IdOf(a, p) == 0
    requires forall q :: IdOf(b, q) == if q == p then |issued| + 1 else IdOf(a, q)
    ensures Consistent(b, issued + [NodeHolder(p)], ways)
  {
    NewIdHeld(a, b, issued, p);
    NewIdPoints(a, b, issued, p);
    NewIdWays(issued, ways, p);
  }

  lemma NewIdHeld(a: seq<Node>, b: seq<Node>, issued: seq<Holder>, p: Point)
    requires Tree(a) && Tree(b) && IssuedIdsHeld(a, issued) && IdOf(a, p) == 0
    requires forall q :: IdOf(b, q) == if q == p then |issued| + 1 else IdOf(a, q)
    ensures IssuedIdsHeld(b, issued + [NodeHolder(p)])
  {
    var log := issued + [NodeHolder(p)];
    forall n | 1 <= n <= |log| && HolderOf(log, n).NodeHolder?
      ensures IdOf(b, HolderOf(log, n).p) == n
    {
      if n <= |issued| {
        assert HolderOf(log, n) == HolderOf(issued, n);
      }
    }
  }

  lemma NewIdPoints(a: seq<Node>, b: seq<Node>, issued: seq<Holder>, p: Point)
    requires Tree(a) && Tree(b) && PointIdsIssued(a, issued)
    requires forall q :: IdOf(b, q) == if q == p then |issued| + 1 else IdOf(a, q)
    ensures PointIdsIssued(b, issued + [NodeHolder(p)])
  {
    var log := issued + [NodeHolder(p)];
    forall q | IdOf(b, q) != 0
      ensures 1 <= IdOf(b, q) <= |log| && log[IdOf(b, q) - 1] == NodeHolder(q)
    {
      if q != p {
        assert log[IdOf(a, q) - 1] == issued[IdOf(a, q) - 1];
      }
    }
  }

  lemma NewIdWays(issued: seq<Holder>, ways: seq<Way>, p: Point)
    requires WayIdsIssued(issued, ways)
    ensures WayIdsIssued(issued + [NodeHolder(p)], ways)
  {
    var log := issued + [NodeHolder(p)];
    forall k, i | 0 <= k < |ways| && 0 <= i < |ways[k].nodes|
      ensures 1 <= ways[k].nodes[i] <= |log| && log[ways[k].nodes[i] - 1].NodeHolder?
    {
      assert log[ways[k].nodes[i] - 1] == issued[ways[k].nodes[i] - 1];
    }
  }

  /** The point loop of handle_row on the model, over the points it keeps. */
  ghost function VisitAll(m: Model, ps: seq<Point>): (r: (Model, seq<int>))
    requires Tree(m.arena)
    ensures Tree(r.0.arena) && |r.1| == |ps|
    decreases |ps|
  {
    if ps == [] then (m, [])
    else
      var (m1, ids) := VisitAll(m, ps[..|ps| - 1]);
      var (m2, id) := Visit(m1, ps[|ps| - 1]);
      (m2, ids + [id])
  }

  /** After the loop every point kept has a non-zero id, and the ids pushed
      are those of the points, in order. */
  lemma {:induction false} VisitAllProperties(m: Model, ways: seq<Way>, ps: seq<Point>)
    requires Consistent(m.arena, m.issued, ways)
    ensures var (m1, ids) := VisitAll(m, ps);
      && Consistent(m1.arena, m1.issued, ways)
      && m.issued <= m1.issued
      && (forall i :: 0 <= i < |ps| ==> ids[i] == IdOf(m1.arena, ps[i]) && ids[i] != 0)
      && (forall q :: IdOf(m.arena, q) != 0 ==> IdOf(m1.arena, q) == IdOf(m.arena, q))
    decreases |ps|
  {
    if ps != [] {
      var init := ps[..|ps| - 1];
      var p := ps[|ps| - 1];
      VisitAllProperties(m, ways, init);
      var (m1, ids) := VisitAll(m, init);
      VisitProperties(m1, ways, p);
      var (m2, id) := Visit(m1, p);
      assert VisitAll(m, ps) == (m2, ids + [id]);
      VisitAllStep(m, m1, m2, ways, ps, ids, id);
    }
  }

  /** The facts about the loop so far and about one more visit make up the
      facts about the longer loop. */
  lemma VisitAllStep(m: Model, m1: Model, m2: Model, ways: seq<Way>, ps: seq<Point>, ids: seq<int>, id: int)
    requires Tree(m.arena) && Tree(m1.arena) && Consistent(m2.arena, m2.issued, ways)
    requires ps != [] && |ids| == |ps| - 1
    requires m.issued <= m1.issued && m1.issued <= m2.issued
    requires var init := ps[..|ps| - 1];
      forall i :: 0 <= i < |init| ==> ids[i] == IdOf(m1.arena, init[i]) && ids[i] != 0
    requires forall q :: IdOf(m.arena, q) != 0 ==> IdOf(m1.arena, q) == IdOf(m.arena, q)
    requires forall q :: IdOf(m1.arena, q) != 0 ==> IdOf(m2.arena, q) == IdOf(m1.arena, q)
    requires id == IdOf(m2.arena, ps[|ps| - 1]) && id != 0
    ensures var ids2 := ids + [id];
      && m.issued <= m2.issued
      && (forall i :: 0 <= i < |ps| ==> ids2[i] == IdOf(m2.arena, ps[i]) && ids2[i] != 0)
      && (forall q :: IdOf(m.arena, q) != 0 ==> IdOf(m2.arena, q) == IdOf(m.arena, q))
  {
    var init := ps[..|ps| - 1];
    assert forall i :: 0 <= i < |init| ==> init[i] == ps[i];
    IdsExtend(m1.arena, m2.arena, ps, ids, id);
  }

  /** The ids of the earlier points stay right when one more point is visited. */
  lemma IdsExtend(a1: seq<Node>, a2: seq<Node>, ps: seq<Point>, ids: seq<int>, id: int)
    requires Tree(a1) && Tree(a2) && ps != [] && |ids| == |ps| - 1
    requires forall i :: 0 <= i < |ids| ==> ids[i] == IdOf(a1, ps[i]) && ids[i] != 0
    requires forall q :: IdOf(a1, q) != 0 ==> IdOf(a2, q) == IdOf(a1, q)
    requires id == IdOf(a2, ps[|ps| - 1]) && id != 0
    ensures var ids2 := ids + [id];
      forall i :: 0 <= i < |ps| ==> ids2[i] == IdOf(a2, ps[i]) && ids2[i] != 0
  {
    var ids2 := ids + [id];
    forall i | 0 <= i < |ps|
      ensures ids2[i] == IdOf(a2, ps[i]) && ids2[i] != 0
    {
      if i < |ids| {
        assert ids2[i] == ids[i];
      }
    }
  }

  // ---------------------------------------------------------------------
  // The way itself

  /** Buffering the way with the next id after its nodes keeps the ids
      consistent. */
  lemma AddWayConsistent(m: Model, ways: seq<Way>, w: Way)
    requires Consistent(m.arena, m.issued, ways)
    requires w.id == |m.issued| + 1
    requires NodeRefs(m.issued, w.nodes)
    ensures Consistent(m.arena, m.issued + [WayHolder(|ways|)], ways + [w])
  {
    var log := m.issued + [WayHolder(|ways|)];
    forall n | 1 <= n <= |log| && HolderOf(log, n).NodeHolder?
      ensures IdOf(m.arena, HolderOf(log, n).p) == n
    {
      assert HolderOf(log, n) == HolderOf(m.issued, n);
    }
    assert IssuedIdsHeld(m.arena, log);
    assert PointIdsIssued(m.arena, log);
    WayIdsExtend(m.issued, ways, w);
  }

  lemma WayIdsExtend(issued: seq<Holder>, ways: seq<Way>, w: Way)
    requires WayIdsIssued(issued, ways)
    requires w.id == |issued| + 1
    requires NodeRefs(issued, w.nodes)
    ensures WayIdsIssued(issued + [WayHolder(|ways|)], ways + [w])
  {
    var log := issued + [WayHolder(|ways|)];
    var ws := ways + [w];
    forall k | 0 <= k < |ws|
      ensures 1 <= ws[k].id <= |log| && log[ws[k].id - 1] == WayHolder(k)
    {
      if k < |ways| {
        assert ws[k] == ways[k];
      }
    }
    forall k, i | 0 <= k < |ws| && 0 <= i < |ws[k].nodes|
      ensures 1 <= ws[k].nodes[i] <= |log| && log[ws[k].nodes[i] - 1].NodeHolder?
    {
      if k < |ways| {
        assert ws[k] == ways[k];
      }
    }
  }

  /** Ids name their holders: no two nodes, no two ways, and no node and way
      share an id, and every node id in a way names a node of the arena. */
  lemma IdsUnique(a: seq<Node>, issued: seq<Holder>, ways: seq<Way>)
    requires Consistent(a, issued, ways)
    ensures forall j, k :: 0 <= j < |a| && 0 <= k < |a| && j != k && a[j].id != 0 ==> a[j].id != a[k].id
    ensures forall k, l :: 0 <= k < |ways| && 0 <= l < |ways| && k != l ==> ways[k].id != ways[l].id
    ensures forall j, k :: 0 <= j < |a| && 0 <= k < |ways| ==> a[j].id != ways[k].id
    ensures forall k, i :: 0 <= k < |ways| && 0 <= i < |ways[k].nodes| ==>
      exists j :: 0 <= j < |a| && a[j].id == ways[k].nodes[i]
  {
    forall j | 0 <= j < |a|
      ensures a[j].id == IdOf(a, Point(a[j].x, a[j].y))
    {
      assert Descend(a, 0, a[j].x, a[j].y) == Found(j);
    }
    forall j, k | 0 <= j < |a| && 0 <= k < |a| && j != k && a[j].id != 0
      ensures a[j].id != a[k].id
    {
      if a[j].id == a[k].id {
        assert IdOf(a, Point(a[j].x, a[j].y)) == IdOf(a, Point(a[k].x, a[k].y));
        TreeUnique(a, j, k);
      }
    }
    forall j, k | 0 <= j < |a| && 0 <= k < |ways|
      ensures a[j].id != ways[k].id
    {
      assert IdOf(a, Point(a[j].x, a[j].y)) == a[j].id;
    }
    forall k, i | 0 <= k < |ways| && 0 <= i < |ways[k].nodes|
      ensures exists j :: 0 <= j < |a| && a[j].id == ways[k].nodes[i]
    {
      var n := ways[k].nodes[i];
      var p := HolderOf(issued, n).p;
      assert IdOf(a, p) == n;
      var j := Descend(a, 0, p.x, p.y).index;
      assert a[j].id == n;
    }
  }
}
