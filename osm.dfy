/** What dr2osm makes of its input: a row of the road-link query becomes one
    way and the nodes it passes through (dr2osm.c:83-204), and the OSM file
    lists every node when it is first met, then every way
    (dr2osm.c:127-135, 339-360). */
module Osm {
  import opened CTypes
  import opened Tags
  import opened WayCodec
  import opened Rows
  import opened Ways
  import opened NodeTree
  import opened Identifiers

  /** One result row of the query: the geometry blob's flags byte and WKB
      header, the line's points, and the speed limit, road class, link type,
      direction and name columns. */
  datatype Row = Row(flags: bv8, byteOrder: Int32, geomType: Int32, points: seq<Point>,
                     speedLimit: Int32, roadClass: Int32, linkType: Int32, direction: Int32,
                     name: seq<Byte>)

  /** An element of the OSM file: a `<node>` line, or a `<way>` line with its
      `<nd>` references and its five tags. */
  datatype Element =
    | NodeElement(id: int, x: int, y: int)
    | WayElement(id: int, refs: seq<int>, highway: string, route: string, oneway: string,
                 maxspeed: int, name: seq<Byte>)

  /** The points of a row that handle_row visits, in visiting order. */
  function Kept(row: Row): (ps: seq<Point>)
    ensures |ps| <= |row.points|
    ensures forall p :: p in ps ==> p in row.points
    ensures forall i :: 0 <= i < |ps| - 1 ==> ps[i] != ps[i + 1]
  {
    var t := Traverse(row.points, row.direction);
    DedupNoRepeats(t);
    DedupKeepsPoints(t);
    TraverseProperties(row.points, row.direction);
    assert forall p :: p in t ==> p in multiset(row.points);
    Dedup(t)
  }

  /** handle_row on the model: the ids after the row, and the way buffered. */
  ghost function RowSpec(m: Model, ways: seq<Way>, row: Row): (r: (Model, Way))
    requires Tree(m.arena)
    ensures Tree(r.0.arena)
  {
    var (m1, ids) := VisitAll(m, Kept(row));
    var id := |m1.issued| + 1;
    (Model(m1.arena, m1.issued + [WayHolder(|ways|)]),
     Way(id, ids, Highway(row.roadClass, row.linkType), Route(row.roadClass, row.linkType),
         Oneway(row.direction), row.speedLimit, row.name))
  }

  /** A row keeps the ids consistent and buffers a well-formed way whose id is
      newer than every id before it, whose nodes are the ids of the kept
      points in order, and which never refers to one node twice in a row.
      Ids given before the row are kept. */
  lemma RowSpecProperties(m: Model, ways: seq<Way>, row: Row)
    requires Consistent(m.arena, m.issued, ways) && NulFree(row.name)
    ensures var (m1, w) := RowSpec(m, ways, row);
      && Consistent(m1.arena, m1.issued, ways + [w])
      && WellFormed(w)
      && m.issued < m1.issued && w.id == |m1.issued|
      && |w.nodes| == |Kept(row)|
      && (forall i :: 0 <= i < |w.nodes| ==> w.nodes[i] == IdOf(m1.arena, Kept(row)[i]))
      && (forall i :: 0 <= i < |w.nodes| - 1 ==> w.nodes[i] != w.nodes[i + 1])
      && (forall q :: IdOf(m.arena, q) != 0 ==> IdOf(m1.arena, q) == IdOf(m.arena, q))
  {
    RowSpecConsistent(m, ways, row);
    RowSpecNodes(m, ways, row);
  }

  /** The ids stay consistent with the way added, and the way is well formed. */
  lemma RowSpecConsistent(m: Model, ways: seq<Way>, row: Row)
    requires Consistent(m.arena, m.issued, ways) && NulFree(row.name)
    ensures var (m1, w) := RowSpec(m, ways, row);
      && Consistent(m1.arena, m1.issued, ways + [w])
      && WellFormed(w)
      && m.issued < m1.issued && w.id == |m1.issued|
      && (forall q :: IdOf(m.arena, q) != 0 ==> IdOf(m1.arena, q) == IdOf(m.arena, q))
  {
    var ps := Kept(row);
    var (m1, ids) := VisitAll(m, ps);
    var w := Way(|m1.issued| + 1, ids, Highway(row.roadClass, row.linkType), Route(row.roadClass, row.linkType),
                 Oneway(row.direction), row.speedLimit, row.name);
    assert RowSpec(m, ways, row) == (Model(m1.arena, m1.issued + [WayHolder(|ways|)]), w);
    assert && Consistent(m1.arena, m1.issued, ways) && m.issued <= m1.issued
                    && (forall i :: 0 <= i < |ps| ==> ids[i] == IdOf(m1.arena, ps[i]) && ids[i] != 0)
                    && (forall q :: IdOf(m.arena, q) != 0 ==> IdOf(m1.arena, q) == IdOf(m.arena, q)) by {
      VisitAllProperties(m, ways, ps);
    }
    assert Consistent(m1.arena, m1.issued + [WayHolder(|ways|)], ways + [w]) by {
      PointIdsOfNodes(m1, ps, ids);
      AddWayConsistent(m1, ways, w);
    }
    assert WellFormed(w) by {
      TagsAreStrings(row.roadClass, row.linkType, row.direction);
    }
  }

  /** The way's nodes are the ids of the kept points, never one twice in a row. */
  lemma RowSpecNodes(m: Model, ways: seq<Way>, row: Row)
    requires Consistent(m.arena, m.issued, ways)
    ensures var (m1, w) := RowSpec(m, ways, row);
      && |w.nodes| == |Kept(row)|
      && (forall i :: 0 <= i < |w.nodes| ==> w.nodes[i] == IdOf(m1.arena, Kept(row)[i]))
      && (forall i :: 0 <= i < |w.nodes| - 1 ==> w.nodes[i] != w.nodes[i + 1])
  {
    var ps := Kept(row);
    VisitAllProperties(m, ways, ps);
    var (m1, ids) := VisitAll(m, ps);
    DedupNoRepeats(Traverse(row.points, row.direction));
    NoRepeatedRefs(m1, ps, ids);
  }

  /** The ids of visited points were issued to nodes. */
  lemma PointIdsOfNodes(m: Model, ps: seq<Point>, ids: seq<int>)
    requires Tree(m.arena) && PointIdsIssued(m.arena, m.issued) && |ids| == |ps|
    requires forall i :: 0 <= i < |ps| ==> ids[i] == IdOf(m.arena, ps[i]) && ids[i] != 0
    ensures NodeRefs(m.issued, ids)
  {
    forall i | 0 <= i < |ids|
      ensures 1 <= ids[i] <= |m.issued| && m.issued[ids[i] - 1].NodeHolder?
    {
      assert IdOf(m.arena, ps[i]) == ids[i];
    }
  }

  /** Distinct points have distinct ids, so a walk without repeated points
      refers to no node twice in a row. */
  lemma NoRepeatedRefs(m: Model, ps: seq<Point>, ids: seq<int>)
    requires Tree(m.arena) && PointIdsIssued(m.arena, m.issued) && |ids| == |ps|
    requires forall i :: 0 <= i < |ps| ==> ids[i] == IdOf(m.arena, ps[i]) && ids[i] != 0
    requires forall i :: 0 <= i < |ps| - 1 ==> ps[i] != ps[i + 1]
    ensures forall i :: 0 <= i < |ids| - 1 ==> ids[i] != ids[i + 1]
  {
    forall i | 0 <= i < |ids| - 1
      ensures ids[i] != ids[i + 1]
    {
      assert IdOf(m.arena, ps[i]) == ids[i] && IdOf(m.arena, ps[i + 1]) == ids[i + 1];
    }
  }

  // ---------------------------------------------------------------------
  // The OSM file

  /** The `<node>` lines written while the rows are read: one for each id
      issued to a node, when it is issued. */
  function NodeElements(issued: seq<Holder>): (es: seq<Element>)
    ensures |es| <= |issued|
    ensures forall i :: 0 <= i < |es| ==> es[i].NodeElement?
  {
    if issued == [] then []
    else
      var n := |issued|;
      NodeElements(issued[..n - 1]) +
        match issued[n - 1]
        case NodeHolder(p) => [NodeElement(n, p.x, p.y)]
        case WayHolder(_) => []
  }

  /** The `<node>` lines are the nodes of the log, each once, in id order. */
  lemma {:induction false} NodeElementsProperties(issued: seq<Holder>, es: seq<Element>)
    requires es == NodeElements(issued)
    ensures
      && (forall i :: 0 <= i < |es| ==> es[i].NodeElement? && 1 <= es[i].id <= |issued|)
      && (forall i :: 0 <= i < |es| ==> HolderOf(issued, es[i].id) == NodeHolder(Point(es[i].x, es[i].y)))
      && (forall i, j :: 0 <= i < j < |es| ==> es[i].id < es[j].id)
      && (forall n :: 1 <= n <= |issued| && HolderOf(issued, n).NodeHolder? ==>
            NodeElement(n, HolderOf(issued, n).p.x, HolderOf(issued, n).p.y) in es)
  {
    if issued != [] {
      var n := |issued|;
      var init := issued[..n - 1];
      var es0 := NodeElements(init);
      NodeElementsProperties(init, es0);
      var tail := match issued[n - 1]
        case NodeHolder(p) => [NodeElement(n, p.x, p.y)]
        case WayHolder(_) => [];
      assert es == es0 + tail;
      forall k | 1 <= k < n
        ensures HolderOf(issued, k) == HolderOf(init, k)
      {
      }
      forall i | 0 <= i < |es|
        ensures es[i].NodeElement? && 1 <= es[i].id <= n && HolderOf(issued, es[i].id) == NodeHolder(Point(es[i].x, es[i].y))
      {
        if i < |es0| {
          assert es[i] == es0[i];
          assert HolderOf(init, es0[i].id) == NodeHolder(Point(es0[i].x, es0[i].y));
        } else {
          var p := issued[n - 1].p;
          assert es[i] == NodeElement(n, p.x, p.y);
          assert p == Point(p.x, p.y);
        }
      }
      forall i, j | 0 <= i < j < |es|
        ensures es[i].id < es[j].id
      {
        if j < |es0| {
          assert es[i] == es0[i] && es[j] == es0[j];
        } else {
          assert es[i] == es0[i] && es0[i].id <= n - 1;
        }
      }
      forall k | 1 <= k <= n && HolderOf(issued, k).NodeHolder?
        ensures NodeElement(k, HolderOf(issued, k).p.x, HolderOf(issued, k).p.y) in es
      {
        if k < n {
          assert NodeElement(k, HolderOf(init, k).p.x, HolderOf(init, k).p.y) in es0;
        } else {
          assert es[|es0|] == NodeElement(k, HolderOf(issued, k).p.x, HolderOf(issued, k).p.y);
        }
      }
    }
  }

  /** The `<way>` line the flush writes for a buffered way. */
  function WayElementOf(w: Way): (e: Element)
    requires WellFormed(w)
    ensures e.WayElement? && e.id == w.id && e.refs == w.nodes && e.maxspeed == w.maxspeed && e.name == w.name
  {
    WayElement(w.id, w.nodes, OSM_STRINGS[w.highway], OSM_STRINGS[w.route], OSM_STRINGS[w.oneway],
               w.maxspeed, w.name)
  }

  /** The tag values of a `<way>` line each come from their own group of
      osm_strings: the route is empty or "ferry", the oneway empty, "no" or
      "yes", and the highway none of those values. */
  lemma WayElementTags(w: Way)
    requires WellFormed(w)
    ensures var e := WayElementOf(w);
      && (e.route == "" || e.route == "ferry")
      && (e.oneway == "" || e.oneway == "no" || e.oneway == "yes")
      && e.highway != "ferry" && e.highway != "no" && e.highway != "yes"
  {
  }

  /** The `<way>` lines the flush writes, in buffer order. */
  function WayElements(ws: seq<Way>): (es: seq<Element>)
    requires forall k :: 0 <= k < |ws| ==> WellFormed(ws[k])
    ensures |es| == |ws|
    ensures forall i :: 0 <= i < |es| ==> es[i].WayElement?
  {
    if ws == [] then [] else WayElements(ws[..|ws| - 1]) + [WayElementOf(ws[|ws| - 1])]
  }

  /** Logging a new node id writes one more `<node>` line; logging a way id
      writes none. */
  lemma NodeElementsSnoc(issued: seq<Holder>, h: Holder)
    ensures NodeElements(issued + [h]) ==
      NodeElements(issued) + if h.NodeHolder? then [NodeElement(|issued| + 1, h.p.x, h.p.y)] else []
  {
    assert (issued + [h])[..|issued|] == issued;
  }

  /** The flush writes one `<way>` line per buffered way, in buffer order. */
  lemma {:induction false} WayElementsProperties(ws: seq<Way>)
    requires forall k :: 0 <= k < |ws| ==> WellFormed(ws[k])
    ensures |WayElements(ws)| == |ws|
    ensures forall k :: 0 <= k < |ws| ==> WayElements(ws)[k] == WayElementOf(ws[k])
  {
    if ws != [] {
      WayElementsProperties(ws[..|ws| - 1]);
    }
  }

  /** Some `<node>` line of `es` has the id `n`. */
  predicate NodeWritten(es: seq<Element>, n: int) {
    exists e :: e in es && e.NodeElement? && e.id == n
  }

  /** The whole OSM file body for consistent ids: every `<nd>` reference of a
      way names a `<node>` written before all ways; no two `<node>` lines share
      an id or a point; and no way shares its id with a node. */
  lemma OutputIntegrity(a: seq<Node>, issued: seq<Holder>, ways: seq<Way>, es: seq<Element>)
    requires Consistent(a, issued, ways) && es == NodeElements(issued)
    ensures forall k, i :: 0 <= k < |ways| && 0 <= i < |ways[k].nodes| ==> NodeWritten(es, ways[k].nodes[i])
    ensures forall i :: 0 <= i < |es| ==> es[i].NodeElement?
    ensures forall i, j :: 0 <= i < j < |es| ==> es[i].id != es[j].id && (es[i].x, es[i].y) != (es[j].x, es[j].y)
    ensures forall i, k :: 0 <= i < |es| && 0 <= k < |ways| ==> es[i].id != ways[k].id
  {
    NodeElementsProperties(issued, es);
    forall k, i | 0 <= k < |ways| && 0 <= i < |ways[k].nodes|
      ensures NodeWritten(es, ways[k].nodes[i])
    {
      var n := ways[k].nodes[i];
      var p := HolderOf(issued, n).p;
      assert NodeElement(n, p.x, p.y) in es;
    }
    forall i, j | 0 <= i < j < |es|
      ensures (es[i].x, es[i].y) != (es[j].x, es[j].y)
    {
      assert es[i].NodeElement? && 1 <= es[i].id <= |issued|;
      assert es[j].NodeElement? && 1 <= es[j].id <= |issued|;
      var pi, pj := Point(es[i].x, es[i].y), Point(es[j].x, es[j].y);
      assert IdOf(a, pi) == es[i].id by {
        assert HolderOf(issued, es[i].id) == NodeHolder(pi);
      }
      assert IdOf(a, pj) == es[j].id by {
        assert HolderOf(issued, es[j].id) == NodeHolder(pj);
      }
    }
    forall i, k | 0 <= i < |es| && 0 <= k < |ways|
      ensures es[i].id != ways[k].id
    {
      assert HolderOf(issued, ways[k].id) == WayHolder(k);
    }
  }

  /** The OSM file body once every row is handled and the ways are flushed:
      the `<node>` lines, then one `<way>` line per buffered way in row
      order. Every `<nd>` reference names a `<node>` line before the first
      way, and no two elements share an id. */
  lemma FileIntegrity(a: seq<Node>, issued: seq<Holder>, ways: seq<Way>)
    requires Consistent(a, issued, ways) && forall k :: 0 <= k < |ways| ==> WellFormed(ways[k])
    ensures var nodes := NodeElements(issued); var out := nodes + WayElements(ways);
      && |out| == |nodes| + |ways|
      && (forall i :: 0 <= i < |nodes| ==> out[i].NodeElement?)
      && (forall k :: 0 <= k < |ways| ==> out[|nodes| + k] == WayElementOf(ways[k]))
      && (forall k, i :: 0 <= k < |ways| && 0 <= i < |ways[k].nodes| ==> NodeWritten(nodes, ways[k].nodes[i]))
      && (forall i, j :: 0 <= i < j < |out| ==> out[i].id != out[j].id)
  {
    var nodes := NodeElements(issued);
    OutputIntegrity(a, issued, ways, nodes);
    WayElementsProperties(ways);
    ElementIdsDistinct(nodes, issued, ways);
  }

  /** Node lines with distinct ids, none shared with a way, followed by the
      lines of ways whose ids the log gave to them: no two lines share an id. */
  lemma ElementIdsDistinct(nodes: seq<Element>, issued: seq<Holder>, ways: seq<Way>)
    requires forall k :: 0 <= k < |ways| ==> WellFormed(ways[k])
    requires forall i, j :: 0 <= i < j < |nodes| ==> nodes[i].id != nodes[j].id
    requires forall i, k :: 0 <= i < |nodes| && 0 <= k < |ways| ==> nodes[i].id != ways[k].id
    requires forall k :: 0 <= k < |ways| ==> 1 <= ways[k].id <= |issued| && issued[ways[k].id - 1] == WayHolder(k)
    ensures var out := nodes + WayElements(ways);
      forall i, j :: 0 <= i < j < |out| ==> out[i].id != out[j].id
  {
    var out := nodes + WayElements(ways);
    var n := |nodes|;
    WayElementsProperties(ways);
    assert forall i :: 0 <= i < n ==> out[i] == nodes[i];
    assert forall i :: n <= i < |out| ==> out[i].id == ways[i - n].id;
    forall k, l | 0 <= k < l < |ways|
      ensures ways[k].id != ways[l].id
    {
      assert issued[ways[k].id - 1] == WayHolder(k);
    }
  }

  /** main's row loop on the model: the rows one after another. Each row
      buffers one way after those already buffered. */
  ghost function RunSpec(m: Model, ways: seq<Way>, rows: seq<Row>): (r: (Model, seq<Way>))
    requires Tree(m.arena)
    ensures Tree(r.0.arena)
    ensures |r.1| == |ways| + |rows| && ways <= r.1
    decreases |rows|
  {
    if rows == [] then (m, ways)
    else
      var (m1, ws1) := RunSpec(m, ways, rows[..|rows| - 1]);
      var (m2, w) := RowSpec(m1, ws1, rows[|rows| - 1]);
      (m2, ws1 + [w])
  }

  /** The rows keep the ids consistent, and ids given before them are kept. */
  lemma {:induction false} RunSpecConsistent(m: Model, ways: seq<Way>, rows: seq<Row>)
    requires Consistent(m.arena, m.issued, ways)
    requires forall k :: 0 <= k < |rows| ==> NulFree(rows[k].name)
    ensures var (m1, ws1) := RunSpec(m, ways, rows);
      Consistent(m1.arena, m1.issued, ws1) && m.issued <= m1.issued
    decreases |rows|
  {
    if rows != [] {
      var init := rows[..|rows| - 1];
      RunSpecConsistent(m, ways, init);
      var (m1, ws1) := RunSpec(m, ways, init);
      RowSpecConsistent(m1, ws1, rows[|rows| - 1]);
    }
  }

  /** Way k of the rows is what handle_row makes of row k. */
  lemma {:induction false} RunSpecWays(m: Model, ways: seq<Way>, rows: seq<Row>)
    requires Tree(m.arena)
    ensures forall k :: 0 <= k < |rows| ==>
      RunSpec(m, ways, rows).1[|ways| + k] ==
        RowSpec(RunSpec(m, ways, rows[..k]).0, RunSpec(m, ways, rows[..k]).1, rows[k]).1
    decreases |rows|
  {
    if rows != [] {
      var init := rows[..|rows| - 1];
      RunSpecWays(m, ways, init);
      forall k | 0 <= k < |rows|
        ensures RunSpec(m, ways, rows).1[|ways| + k] ==
          RowSpec(RunSpec(m, ways, rows[..k]).0, RunSpec(m, ways, rows[..k]).1, rows[k]).1
      {
        if k < |init| {
          assert rows[..k] == init[..k];
        } else {
          assert rows[..k] == init;
        }
      }
    }
  }
}
