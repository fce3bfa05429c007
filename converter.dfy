/** The converter itself: the globals of dr2osm.c (the two buffers, last_id)
    and main's num_ways, with generate_id, handle_row, the row loop and the
    flush of the buffered ways (dr2osm.c:73-204, 265-360).

    The OSM file body is kept as the sequence of elements written so far:
    `<node>` lines while the rows are read, then the `<way>` lines. */
module Dr2Osm {
  import opened CTypes
  import opened GrowableBuffers
  import opened WayCodec
  import opened Tags
  import opened Rows
  import opened Ways
  import opened NodeTree
  import opened Identifiers
  import opened Osm

  /** The way buffer reserves 40 GiB. */
  const WAY_BUFFER_SIZE: int := 40 * 1024 * 1024 * 1024
  /** The node buffer reserves room for 2^31 nodes. */
  const NODE_BUFFER_SIZE: int := NODE_SIZE * 0x8000_0000

  /** The node main allocates first and every search starts from. */
  const ROOT: Node := Node(ROOT_X, ROOT_Y, 0, [0, 0, 0, 0])

  /** How main's set-up ends: a buffer's address range could not be
      reserved; the fatal jump was taken while the root was allocated; or the
      converter is ready for the first row. */
  datatype Start = Unreserved | Stopped(reason: Fatal) | Started(c: Converter)

  class Converter {
    const wayBuffer: GrowableBuffer<int>
    const nodeBuffer: GrowableBuffer<Node>
    /** last_id: the last id generate_id handed out. */
    var lastId: int
    /** num_ways: the rows handled. */
    var numWays: int
    /** The elements written to the OSM file so far. */
    var output: seq<Element>
    /** Who received each id so far (id i + 1 went to `issued[i]`). */
    ghost var issued: seq<Holder>
    /** The ways buffered, in row order. */
    ghost var ways: seq<Way>

    /** The two buffers are distinct objects over distinct memory. */
    ghost predicate Separate() {
      && wayBuffer as object != nodeBuffer as object
      && wayBuffer.data as object != nodeBuffer.data as object
      && wayBuffer as object != nodeBuffer.data as object
      && wayBuffer.data as object != nodeBuffer as object
    }

    /** The way buffer holds the records of the buffered ways and then
        `pending`, the start of a record being built; nothing has been popped
        and every int written lies in committed memory. */
    ghost predicate WaysStaged(pending: seq<int>)
      reads this`ways, wayBuffer, wayBuffer.data
    {
      && wayBuffer.Valid() && wayBuffer.unit == INT_SIZE && wayBuffer.firstSlot == 0
      && wayBuffer.nextIn <= wayBuffer.commitThreshold
      && (forall k :: 0 <= k < |ways| ==> WellFormed(ways[k]))
      && wayBuffer.Contents() == EncodeWays(ways) + pending
    }

    /** The node buffer holds the tree; the ids of its nodes and of the ways
        were handed out in the order of the log, the last one being
        `lastId`; and a `<node>` line was written for each node id. */
    ghost predicate NodesHeld()
      reads this`lastId, this`issued, this`ways, this`output, nodeBuffer, nodeBuffer.data
    {
      && NodeBuffer(nodeBuffer) && nodeBuffer.nextIn <= nodeBuffer.commitThreshold
      && lastId == |issued| <= INT_MAX
      && Consistent(nodeBuffer.Contents(), issued, ways)
      && output == NodeElements(issued)
    }

    /** Between rows. */
    ghost predicate Valid()
      reads this, wayBuffer, wayBuffer.data, nodeBuffer, nodeBuffer.data
    {
      Separate() && WaysStaged([]) && NodesHeld() && numWays == |ways|
    }

    /** The id bookkeeping as the model of the ids sees it. */
    ghost function State(): Model
      reads this`issued, nodeBuffer, nodeBuffer.data
      requires nodeBuffer.Valid()
    {
      Model(nodeBuffer.Contents(), issued)
    }

    /** What an assert of generate_id or node_upsert needs to fail: last_id
        wrapped past INT_MAX, or the node buffer holds more nodes than an
        int offset can span. */
    ghost predicate Overflowed()
      reads this`lastId, nodeBuffer
    {
      lastId == INT_MIN || nodeBuffer.nextSlot > INT_MAX
    }

    /** The converter main has once both buffers are reserved and the root
        allocated, before the first row. */
    constructor Init(wb: GrowableBuffer<int>, nb: GrowableBuffer<Node>)
      requires wb.Valid() && wb.unit == INT_SIZE && wb.firstSlot == 0 && wb.Contents() == []
      requires wb.nextIn <= wb.commitThreshold
      requires NodeBuffer(nb) && nb.nextIn <= nb.commitThreshold && nb.Contents() == [ROOT]
      requires wb as object != nb as object && wb.data as object != nb.data as object
      requires wb as object != nb.data as object && wb.data as object != nb as object
      ensures Valid() && wayBuffer == wb && nodeBuffer == nb
      ensures lastId == 0 && numWays == 0 && output == [] && issued == [] && ways == []
    {
      wayBuffer, nodeBuffer := wb, nb;
      lastId, numWays, output := 0, 0, [];
      issued, ways := [], [];
    }

    /** generate_id: the next id. When last_id is already INT_MAX the
        increment overflows and the source's check that the id is positive
        fails. */
    method GenerateId() returns (r: Outcome<int>)
      requires 0 <= lastId <= INT_MAX
      modifies this`lastId
      ensures r.Ok? <==> old(lastId) < INT_MAX
      ensures r.Ok? ==> r.value == lastId == old(lastId) + 1 && r.value > 0
      ensures r.Halt? ==> r == Halt(AssertionFailed) && lastId == INT_MIN
    {
      var result := if lastId == INT_MAX then INT_MIN else lastId + 1;
      lastId := result;
      if result <= 0 {
        return Halt(AssertionFailed);
      }
      r := Ok(result);
    }

    /** The point loop of handle_row: walks the line's points, from the last
        when `direction` is 3, skips a point equal to the one before it, and
        visits the others. */
    method VisitPoints(points: seq<Point>, direction: int, ghost pending: seq<int>) returns (r: Outcome<()>)
      requires Separate() && WaysStaged(pending) && NodesHeld()
      modifies this`lastId, this`output, this`issued, wayBuffer, wayBuffer.data, nodeBuffer, nodeBuffer.data
      ensures r.Ok? ==> Walking(old(State()), pending, Dedup(Traverse(points, direction)))
      ensures r == Halt(AssertionFailed) ==> Overflowed()
    {
      ghost var m0 := State();
      ghost var kept: seq<Point> := [];
      var prevX, prevY := INT_MIN, INT_MIN;
      var i := 0;
      while i < |points|
        invariant 0 <= i <= |points|
        invariant kept == Dedup(Traverse(points, direction)[..i])
        invariant Point(prevX, prevY) == Last(Traverse(points, direction)[..i])
        invariant Walking(m0, pending, kept)
      {
        var advanced;
        advanced, prevX, prevY, kept := AdvancePoint(points, direction, i, prevX, prevY, m0, pending, kept);
        if advanced.Halt? {
          return advanced;
        }
        i := i + 1;
      }
      assert Traverse(points, direction)[..|points|] == Traverse(points, direction);
      assert kept == Dedup(Traverse(points, direction));
      r := Ok(());
    }

    /** One pass of the point loop: the point `i` of the walk, skipped when
        it equals the previous one, visited otherwise. */
    method AdvancePoint(points: seq<Point>, direction: int, i: nat, prevX: int, prevY: int,
                        ghost m0: Model, ghost pending: seq<int>, ghost kept: seq<Point>)
      returns (r: Outcome<()>, x: int, y: int, ghost kept1: seq<Point>)
      requires i < |points|
      requires kept == Dedup(Traverse(points, direction)[..i])
      requires Point(prevX, prevY) == Last(Traverse(points, direction)[..i])
      requires Walking(m0, pending, kept)
      modifies this`lastId, this`output, this`issued, wayBuffer, wayBuffer.data, nodeBuffer, nodeBuffer.data
      ensures r.Ok? ==>
        && kept1 == Dedup(Traverse(points, direction)[..i + 1])
        && Point(x, y) == Last(Traverse(points, direction)[..i + 1])
        && Walking(m0, pending, kept1)
      ensures r == Halt(AssertionFailed) ==> Overflowed()
    {
      var p := PointAt(points, direction, i);
      DedupStep(Traverse(points, direction), i);
      x, y, kept1 := prevX, prevY, kept;
      if p.x != prevX || p.y != prevY {
        x, y := p.x, p.y;
        var v := VisitKept(p, m0, pending, kept);
        if v.Halt? {
          return Halt(v.reason), x, y, kept1;
        }
        kept1 := kept + [p];
      }
      r := Ok(());
    }

    /** Within the point loop: starting from the ids `m0`, the points `kept`
        have been visited, and their ids pushed after `pending`. */
    ghost predicate Walking(m0: Model, pending: seq<int>, kept: seq<Point>)
      reads this`lastId, this`issued, this`ways, this`output, wayBuffer, wayBuffer.data, nodeBuffer, nodeBuffer.data
    {
      && Separate() && NodesHeld() && Tree(m0.arena)
      && WaysStaged(pending + VisitAll(m0, kept).1) && State() == VisitAll(m0, kept).0
    }

    /** A point kept by the point loop, as one more step of VisitAll. */
    method VisitKept(p: Point, ghost m0: Model, ghost pending: seq<int>, ghost kept: seq<Point>)
      returns (r: Outcome<int>)
      requires Walking(m0, pending, kept)
      modifies this`lastId, this`output, this`issued, wayBuffer, wayBuffer.data, nodeBuffer, nodeBuffer.data
      ensures r.Ok? ==> Walking(m0, pending, kept + [p])
      ensures r == Halt(AssertionFailed) ==> Overflowed()
    {
      ghost var ids := VisitAll(m0, kept).1;
      VisitAllSnoc(m0, kept, p);
      r := VisitPoint(p, pending + ids);
      if r.Ok? {
        AppendAssoc(pending, ids, [r.value]);
      }
    }

    /** One pass of handle_row's point loop for a point it keeps: the node
        for the point, then the push of its id. */
    method VisitPoint(p: Point, ghost pending: seq<int>) returns (r: Outcome<int>)
      requires Separate() && WaysStaged(pending) && NodesHeld()
      modifies this`lastId, this`output, this`issued, wayBuffer, wayBuffer.data, nodeBuffer, nodeBuffer.data
      ensures r.Ok? ==>
        && Separate() && WaysStaged(pending + [r.value]) && NodesHeld()
        && (State(), r.value) == Visit(old(State()), p)
      ensures r == Halt(AssertionFailed) ==> Overflowed()
    {
      r := NodeFor(p);
      if r.Ok? {
        var pushed := PushStaged(r.value, pending);
        if pushed.Halt? {
          return Halt(pushed.reason);
        }
      }
    }

    /** node_upsert for the point and, when the node has no id yet, a new id
        and the `<node>` line for it. Yields the node's id. */
    method NodeFor(p: Point) returns (r: Outcome<int>)
      requires NodesHeld()
      modifies this`lastId, this`output, this`issued, nodeBuffer, nodeBuffer.data
      ensures r.Ok? ==> NodesHeld() && (State(), r.value) == Visit(old(State()), p)
      ensures r == Halt(AssertionFailed) ==> Overflowed()
    {
      ghost var m := State();
      var u := Upsert(nodeBuffer, p.x, p.y);
      if u.Halt? {
        return Halt(u.reason);
      }
      r := IdFor(u.value, p, m);
    }

    /** The id of the node node_upsert found or added in slot `j` for the
        point: the id it holds, or a new one when it holds none. */
    method IdFor(j: nat, p: Point, ghost m: Model) returns (r: Outcome<int>)
      requires NodeBuffer(nodeBuffer) && nodeBuffer.nextIn <= nodeBuffer.commitThreshold
      requires Consistent(m.arena, m.issued, ways) && issued == m.issued
      requires lastId == |issued| <= INT_MAX && output == NodeElements(issued)
      requires (nodeBuffer.Contents(), j) == UpsertSpec(m.arena, p.x, p.y)
      modifies this`lastId, this`output, this`issued, nodeBuffer.data
      ensures r.Ok? ==> NodesHeld() && (State(), r.value) == Visit(m, p)
      ensures r.Halt? ==> r == Halt(AssertionFailed) && lastId == INT_MIN
    {
      var id := nodeBuffer.data[j].id;
      if id == 0 {
        r := FreshId(j, p, m);
      } else {
        VisitStep(m, ways, p);
        assert Visit(m, p) == (Model(nodeBuffer.Contents(), issued), id);
        r := Ok(id);
      }
    }

    /** The node in slot `j`, which holds the point, has no id yet: it gets
        the next one, as Visit says. */
    method FreshId(j: nat, p: Point, ghost m: Model) returns (r: Outcome<int>)
      requires NodeBuffer(nodeBuffer) && nodeBuffer.nextIn <= nodeBuffer.commitThreshold
      requires Consistent(m.arena, m.issued, ways) && issued == m.issued
      requires lastId == |issued| <= INT_MAX && output == NodeElements(issued)
      requires (nodeBuffer.Contents(), j) == UpsertSpec(m.arena, p.x, p.y)
      requires nodeBuffer.Contents()[j].id == 0
      modifies this`lastId, this`output, this`issued, nodeBuffer.data
      ensures r.Ok? ==> NodesHeld() && (State(), r.value) == Visit(m, p)
      ensures r.Halt? ==> r == Halt(AssertionFailed) && lastId == INT_MIN
    {
      VisitStep(m, ways, p);
      ghost var a := nodeBuffer.Contents();
      ghost var v := (Model(a[j := a[j].(id := |issued| + 1)], issued + [NodeHolder(p)]), |issued| + 1);
      assert Visit(m, p) == v;
      NodeElementsSnoc(issued, NodeHolder(p));
      r := NewNodeId(j, p);
      if r.Ok? {
        assert nodeBuffer.Contents() == v.0.arena && issued == v.0.issued;
      }
    }

    /** A new id for the node in slot `j`, which has none: generate_id, the
        store into the node, and the `<node>` line. */
    method NewNodeId(j: nat, p: Point) returns (r: Outcome<int>)
      requires nodeBuffer.Valid() && nodeBuffer.firstSlot == 0 && j < |nodeBuffer.Contents()|
      requires 0 <= lastId <= INT_MAX
      modifies this`lastId, this`output, this`issued, nodeBuffer.data
      ensures nodeBuffer.Valid()
      ensures r.Ok? ==>
        && r.value == lastId == old(lastId) + 1 <= INT_MAX
        && nodeBuffer.Contents() == old(nodeBuffer.Contents())[j := old(nodeBuffer.Contents())[j].(id := lastId)]
        && issued == old(issued) + [NodeHolder(p)]
        && output == old(output) + [NodeElement(lastId, p.x, p.y)]
      ensures r.Halt? ==> r == Halt(AssertionFailed) && lastId == INT_MIN
    {
      var g := GenerateId();
      if g.Halt? {
        return Halt(g.reason);
      }
      var node := nodeBuffer.data[j];
      nodeBuffer.data[j] := node.(id := g.value);
      issued := issued + [NodeHolder(p)];
      output := output + [NodeElement(g.value, p.x, p.y)];
      r := Ok(g.value);
    }

    /** main's row loop and the flush that follows it: each row is counted
        and handled, then the buffered ways are written. The OSM file body
        is the `<node>` lines written while the rows were read, then one
        `<way>` line per row. */
    method Run(rows: seq<Row>) returns (r: Outcome<()>)
      requires Valid() && forall k :: 0 <= k < |rows| ==> NulFree(rows[k].name)
      modifies this`lastId, this`numWays, this`output, this`issued, this`ways
      modifies wayBuffer, wayBuffer.data, nodeBuffer, nodeBuffer.data
      ensures r.Ok? ==>
        && NodeBuffer(nodeBuffer)
        && (State(), ways) == RunSpec(old(State()), old(ways), rows)
        && Consistent(nodeBuffer.Contents(), issued, ways)
        && (forall k :: 0 <= k < |ways| ==> WellFormed(ways[k]))
        && output == NodeElements(issued) + WayElements(ways)
        && wayBuffer.Valid() && wayBuffer.Contents() == []
    {
      r := RunRows(rows);
      if r.Ok? {
        Flush();
      }
    }

    /** main's row loop: every row counted and handled, in order. */
    method RunRows(rows: seq<Row>) returns (r: Outcome<()>)
      requires Valid() && forall k :: 0 <= k < |rows| ==> NulFree(rows[k].name)
      modifies this`lastId, this`numWays, this`output, this`issued, this`ways
      modifies wayBuffer, wayBuffer.data, nodeBuffer, nodeBuffer.data
      ensures r.Ok? ==> Valid() && (State(), ways) == RunSpec(old(State()), old(ways), rows)
    {
      ghost var m0, ws0 := State(), ways;
      for i := 0 to |rows|
        invariant Valid() && (State(), ways) == RunSpec(m0, ws0, rows[..i])
      {
        assert rows[..i + 1][..i] == rows[..i];
        var handled := ProcessRow(rows[i]);
        if handled.Halt? {
          return handled;
        }
      }
      assert rows[..|rows|] == rows;
      r := Ok(());
    }

    /** One SQLITE_ROW step of main's loop: num_ways is incremented and
        checked to be positive, then the row is handled. */
    method ProcessRow(row: Row) returns (r: Outcome<()>)
      requires Valid() && NulFree(row.name)
      modifies this`lastId, this`numWays, this`output, this`issued, this`ways
      modifies wayBuffer, wayBuffer.data, nodeBuffer, nodeBuffer.data
      ensures old(numWays) == INT_MAX ==> r == Halt(AssertionFailed)
      ensures r.Ok? ==>
        && Valid() && numWays == old(numWays) + 1
        && var (m1, w) := RowSpec(old(State()), old(ways), row);
        && State() == m1 && ways == old(ways) + [w]
    {
      numWays := if numWays == INT_MAX then INT_MIN else numWays + 1;
      if numWays <= 0 {
        return Halt(AssertionFailed);
      }
      r := HandleRow(row);
    }

    /** The flush loop of main: for each of the num_ways rows, pops a way
        record and writes its `<way>` line. */
    method Flush()
      requires WaysStaged([]) && numWays == |ways|
      modifies this`output, wayBuffer`firstIn, wayBuffer`firstSlot
      ensures output == old(output) + WayElements(ways)
      ensures wayBuffer.Valid() && wayBuffer.Contents() == []
    {
      ghost var ws := ways;
      var i := 0;
      while i < numWays
        invariant 0 <= i <= numWays == |ws| && forall k :: 0 <= k < |ws| ==> WellFormed(ws[k])
        invariant wayBuffer.Valid() && wayBuffer.unit == INT_SIZE
        invariant wayBuffer.Contents() == EncodeWays(ws[i..])
        invariant output == old(output) + WayElements(ws[..i])
      {
        assert ws[i..][1..] == ws[i + 1..];
        FlushStep(ws[i..]);
        WayElementsPrefix(old(output), ws, i);
        i := i + 1;
      }
      assert ws[..i] == ws;
    }

    /** One pass of the flush loop: pops the record of the first of the ways
        `ws` still buffered and writes its `<way>` line. */
    method FlushStep(ghost ws: seq<Way>)
      requires ws != [] && WellFormed(ws[0])
      requires wayBuffer.Valid() && wayBuffer.unit == INT_SIZE && wayBuffer.Contents() == EncodeWays(ws)
      modifies this`output, wayBuffer`firstIn, wayBuffer`firstSlot
      ensures wayBuffer.Valid() && wayBuffer.Contents() == EncodeWays(ws[1..])
      ensures output == old(output) + [WayElementOf(ws[0])]
    {
      DecodeFirst(ws);
      var w := PopWay(wayBuffer);
      output := output + [WayElementOf(w)];
    }

    /** handle_row: a placeholder for the way id, the check on the envelope
        indicator, the point loop, the 0 after the node ids, the way id stored
        into the placeholder, then the tags and the name. A row that passes
        leaves the ids and the buffered ways as RowSpec says. */
    method HandleRow(row: Row) returns (r: Outcome<()>)
      requires Separate() && WaysStaged([]) && NodesHeld() && NulFree(row.name)
      modifies this`lastId, this`output, this`issued, this`ways, wayBuffer, wayBuffer.data, nodeBuffer, nodeBuffer.data
      ensures r.Ok? ==> EnvelopeIndicator(row.flags) <= 4
      // the header asserts never stop a row: an assert fails only on the
      // envelope indicator, a wrapped last_id or an overfull node buffer
      ensures r == Halt(AssertionFailed) ==> EnvelopeIndicator(row.flags) > 4 || Overflowed()
      ensures r.Ok? ==>
        && Separate() && WaysStaged([]) && NodesHeld()
        && var (m1, w) := RowSpec(old(State()), old(ways), row);
        && State() == m1 && ways == old(ways) + [w]
    {
      var placeholder := PushStaged(0, []);
      if placeholder.Halt? {
        return Halt(placeholder.reason);
      }
      if EnvelopeIndicator(row.flags) > 4 {
        return Halt(AssertionFailed);
      }
      // The byte-order and geometry-type asserts hold assignments and pass
      // whatever the blob holds.
      assert WkbHeaderAcceptedAsWritten(row.byteOrder, row.geomType);
      r := HandleLine(row, placeholder.value);
    }

    /** handle_row once the placeholder is pushed and the envelope checked:
        the point loop, then the end of the record. */
    method HandleLine(row: Row, offset: int) returns (r: Outcome<()>)
      requires Separate() && WaysStaged([0]) && NodesHeld() && NulFree(row.name)
      requires offset == INT_SIZE * |EncodeWays(ways)|
      modifies this`lastId, this`output, this`issued, this`ways, wayBuffer, wayBuffer.data, nodeBuffer, nodeBuffer.data
      ensures r.Ok? ==>
        && Separate() && WaysStaged([]) && NodesHeld()
        && var (m1, w) := RowSpec(old(State()), old(ways), row);
        && State() == m1 && ways == old(ways) + [w]
      ensures r == Halt(AssertionFailed) ==> Overflowed()
    {
      ghost var m := State();
      var visited := VisitPoints(row.points, row.direction, [0]);
      if visited.Halt? {
        return Halt(visited.reason);
      }
      WayOfRow(m, ways, row, nodeBuffer.Contents(), issued);
      r := FinishWay(row, offset, VisitAll(m, Kept(row)).1, RowSpec(m, ways, row).1);
    }

    /** The end of handle_row, once the node ids are pushed: the 0, the way
        id, the tags and the name. `w` is the way this buffers, and the ids
        stay consistent when it gets the next id. */
    method FinishWay(row: Row, offset: int, ghost ids: seq<int>, ghost w: Way) returns (r: Outcome<()>)
      requires Separate() && NodesHeld() && WaysStaged([0] + ids) && NulFree(row.name)
      requires offset == INT_SIZE * |EncodeWays(ways)|
      requires w == Way(lastId + 1, ids, Highway(row.roadClass, row.linkType), Route(row.roadClass, row.linkType),
                        Oneway(row.direction), row.speedLimit, row.name)
      requires WellFormed(w) && Consistent(nodeBuffer.Contents(), issued + [WayHolder(|ways|)], ways + [w])
      modifies this`lastId, this`output, this`issued, this`ways, wayBuffer, wayBuffer.data
      ensures r.Ok? ==>
        && Separate() && WaysStaged([]) && NodesHeld()
        && State() == Model(old(nodeBuffer.Contents()), old(issued) + [WayHolder(|old(ways)|)])
        && ways == old(ways) + [w]
      ensures r == Halt(AssertionFailed) ==> lastId == INT_MIN
    {
      ghost var log, ws := issued, ways;
      NodeElementsSnoc(log, WayHolder(|ws|));
      var highway, route, oneway := Highway(row.roadClass, row.linkType), Route(row.roadClass, row.linkType),
        Oneway(row.direction);
      var id := EndRecord(highway, route, oneway, row.speedLimit, row.name, offset, ids);
      if id.Halt? {
        return Halt(id.reason);
      }
      RecordComplete(w);
      RecordWay(w);
      r := Ok(());
    }

    /** The ghost bookkeeping for a way whose record is complete: its id
        goes to the log and the way joins the buffered ones. */
    ghost method RecordWay(w: Way)
      requires Separate() && WaysStaged(EncodeWay(w)) && WellFormed(w)
      requires NodeBuffer(nodeBuffer) && nodeBuffer.nextIn <= nodeBuffer.commitThreshold
      requires lastId == |issued| + 1 <= INT_MAX
      requires Consistent(nodeBuffer.Contents(), issued + [WayHolder(|ways|)], ways + [w])
      requires output == NodeElements(issued + [WayHolder(|ways|)])
      modifies this`issued, this`ways
      ensures Separate() && WaysStaged([]) && NodesHeld()
      ensures issued == old(issued) + [WayHolder(|old(ways)|)] && ways == old(ways) + [w]
    {
      EncodeWaysSnoc(ways, w);
      issued, ways := issued + [WayHolder(|ways|)], ways + [w];
    }

    /** What handle_row pushes after the node ids: the 0, then (after the
        way id is stored through way_id) the tags and the name. Yields the way
        id. */
    method EndRecord(highway: int, route: int, oneway: int, maxspeed: int, name: seq<Byte>, offset: int,
                     ghost ids: seq<int>) returns (r: Outcome<int>)
      requires WaysStaged([0] + ids) && offset == INT_SIZE * |EncodeWays(ways)|
      requires 0 <= lastId <= INT_MAX && NulFree(name)
      modifies this`lastId, wayBuffer, wayBuffer.data
      ensures r.Ok? ==>
        && r.value == lastId == old(lastId) + 1 <= INT_MAX
        && WaysStaged([r.value] + ids + [0] + [highway, route, oneway, maxspeed] + EncodeString(name))
      ensures r == Halt(AssertionFailed) ==> lastId == INT_MIN
    {
      var ended := PushStaged(0, [0] + ids);
      if ended.Halt? {
        return Halt(ended.reason);
      }
      r := GenerateId();
      if r.Halt? {
        return;
      }
      AppendAssoc([0], ids, [0]);
      StoreStaged(offset, r.value, ids + [0]);
      AppendAssoc([r.value], ids, [0]);
      var tail := PushTail(highway, route, oneway, maxspeed, name, [r.value] + ids + [0]);
      if tail.Halt? {
        return Halt(tail.reason);
      }
    }

    /** way_buffer_push_int while a record is being built. Yields the offset
        of the int pushed. */
    method PushStaged(v: int, ghost pending: seq<int>) returns (r: Outcome<int>)
      requires WaysStaged(pending)
      modifies wayBuffer, wayBuffer.data
      ensures r.Ok? ==> WaysStaged(pending + [v]) && r.value == INT_SIZE * (|EncodeWays(ways)| + |pending|)
      ensures r != Halt(AssertionFailed)
    {
      r := PushInt(wayBuffer, v);
      if r.Ok? {
        AppendAssoc(EncodeWays(ways), pending, [v]);
      }
    }

    /** The store through way_id: the placeholder 0 that starts the record
        being built becomes `v`. */
    method StoreStaged(offset: int, v: int, ghost rest: seq<int>)
      requires WaysStaged([0] + rest) && offset == INT_SIZE * |EncodeWays(ways)|
      modifies wayBuffer.data
      ensures WaysStaged([v] + rest)
    {
      MulDivCancel(|EncodeWays(ways)|, INT_SIZE);
      StoreInt(wayBuffer, offset, v);
      UpdateHead(EncodeWays(ways), rest, v);
    }

    /** The four tag ints of a way: highway, route, oneway, maxspeed. */
    method PushTags(highway: int, route: int, oneway: int, maxspeed: int, ghost pending: seq<int>)
      returns (r: Outcome<()>)
      requires WaysStaged(pending)
      modifies wayBuffer, wayBuffer.data
      ensures r.Ok? ==> WaysStaged(pending + [highway, route, oneway, maxspeed])
      ensures r != Halt(AssertionFailed)
    {
      var pushed := PushStaged(highway, pending);
      if pushed.Halt? {
        return Halt(pushed.reason);
      }
      pushed := PushStaged(route, pending + [highway]);
      if pushed.Halt? {
        return Halt(pushed.reason);
      }
      pushed := PushStaged(oneway, pending + [highway, route]);
      if pushed.Halt? {
        return Halt(pushed.reason);
      }
      pushed := PushStaged(maxspeed, pending + [highway, route, oneway]);
      if pushed.Halt? {
        return Halt(pushed.reason);
      }
      assert pending + [highway, route, oneway] + [maxspeed] == pending + [highway, route, oneway, maxspeed];
      r := Ok(());
    }

    /** The tags and the name, ending the record. */
    method PushTail(highway: int, route: int, oneway: int, maxspeed: int, name: seq<Byte>, ghost pending: seq<int>)
      returns (r: Outcome<()>)
      requires WaysStaged(pending) && NulFree(name)
      modifies wayBuffer, wayBuffer.data
      ensures r.Ok? ==> WaysStaged(pending + [highway, route, oneway, maxspeed] + EncodeString(name))
      ensures r != Halt(AssertionFailed)
    {
      r := PushTags(highway, route, oneway, maxspeed, pending);
      if r.Ok? {
        ghost var tagged := pending + [highway, route, oneway, maxspeed];
        r := PushString(wayBuffer, name);
        if r.Ok? {
          AppendAssoc(EncodeWays(ways), tagged, EncodeString(name));
        }
      }
    }
  }

  /** Storing into the slot of a record's placeholder. */
  lemma UpdateHead(e: seq<int>, rest: seq<int>, v: int)
    ensures (e + ([0] + rest))[|e| := v] == e + ([v] + rest)
  {
  }

  /** A way's record, part by part as handle_row pushes it. */
  lemma RecordComplete(w: Way)
    ensures [w.id] + w.nodes + [0] + [w.highway, w.route, w.oneway, w.maxspeed] + EncodeString(w.name) == EncodeWay(w)
  {
  }

  /** The start of main: both buffers reserved (the way buffer 40 GiB of
      ints, the node buffer room for 2^31 nodes), then the root node
      allocated and given its coordinates. `wayReserved` and `nodeReserved`
      are the operating system's answers to the two reservations;
      `wayCommit` and `nodeCommit` its answers to the commits. */
  method Setup(wayCommit: int -> bool, nodeCommit: int -> bool, wayReserved: bool, nodeReserved: bool)
    returns (s: Start)
    ensures s == Unreserved <==> !wayReserved || !nodeReserved
    ensures s.Stopped? <==> wayReserved && nodeReserved && !nodeCommit(0)
    ensures s.Stopped? ==> s.reason == CommitFailure
    ensures s.Started? ==>
      && fresh(s.c) && s.c.Valid()
      && s.c.State() == Model([ROOT], [])
      && s.c.lastId == 0 && s.c.numWays == 0 && s.c.output == [] && s.c.ways == []
  {
    var wb := InitBuffer(WAY_BUFFER_SIZE, INT_SIZE, 0, wayCommit, wayReserved);
    if wb == null {
      return Unreserved;
    }
    var nb := InitBuffer(NODE_BUFFER_SIZE, NODE_SIZE, BLANK, nodeCommit, nodeReserved);
    if nb == null {
      return Unreserved;
    }
    var root := AllocNode(nb);
    if root.Halt? {
      assert root.reason == CommitFailure;
      return Stopped(root.reason);
    }
    var node := nb.data[root.value];
    nb.data[root.value] := node.(x := ROOT_X);
    node := nb.data[root.value];
    nb.data[root.value] := node.(y := ROOT_Y);
    assert nb.Contents() == [ROOT];
    RootConsistent();
    var c := new Converter.Init(wb, nb);
    s := Started(c);
  }

  /** The arena of the root alone is a tree, and no id has been issued. */
  lemma RootConsistent()
    ensures Consistent([ROOT], [], [])
  {
    assert Descend([ROOT], 0, ROOT_X, ROOT_Y) == Found(0);
  }

  /** The way handle_row buffers for `row` once its points are visited,
      leaving the arena `arena` and the log `log`: it takes the next id, and
      the ids stay consistent with it. */
  lemma WayOfRow(m: Model, ways: seq<Way>, row: Row, arena: seq<Node>, log: seq<Holder>)
    requires Consistent(m.arena, m.issued, ways) && NulFree(row.name)
    requires VisitAll(m, Kept(row)).0 == Model(arena, log)
    ensures var (m1, w) := RowSpec(m, ways, row);
      && w == Way(|log| + 1, VisitAll(m, Kept(row)).1, Highway(row.roadClass, row.linkType),
                  Route(row.roadClass, row.linkType), Oneway(row.direction), row.speedLimit, row.name)
      && WellFormed(w) && Consistent(arena, log + [WayHolder(|ways|)], ways + [w])
      && m1 == Model(arena, log + [WayHolder(|ways|)])
  {
    RowSpecConsistent(m, ways, row);
  }

  /** What one visit does, case by case, in the terms NodeFor works in. */
  lemma VisitStep(m: Model, ways: seq<Way>, p: Point)
    requires Consistent(m.arena, m.issued, ways)
    ensures var (a, k) := UpsertSpec(m.arena, p.x, p.y);
      && k < |a| && a[k].x == p.x && a[k].y == p.y
      && (a[k].id != 0 ==> Visit(m, p) == (Model(a, m.issued), a[k].id))
      && (a[k].id == 0 ==>
            Visit(m, p) == (Model(a[k := a[k].(id := |m.issued| + 1)], m.issued + [NodeHolder(p)]), |m.issued| + 1))
      && Consistent(Visit(m, p).0.arena, Visit(m, p).0.issued, ways)
  {
    VisitProperties(m, ways, p);
    UpsertKeepsIds(m.arena, p);
  }

  /** One more way flushed: one more `<way>` line. */
  lemma WayElementsPrefix(start: seq<Element>, ws: seq<Way>, i: nat)
    requires i < |ws| && forall k :: 0 <= k < |ws| ==> WellFormed(ws[k])
    ensures start + WayElements(ws[..i + 1]) == start + WayElements(ws[..i]) + [WayElementOf(ws[i])]
  {
    assert ws[..i + 1][..i] == ws[..i];
  }

  /** One more point walked: it is kept unless it equals the last one kept. */
  lemma DedupStep(t: seq<Point>, i: nat)
    requires i < |t|
    ensures Dedup(t[..i + 1]) == Dedup(t[..i]) + if t[i] == Last(t[..i]) then [] else [t[i]]
    ensures Last(t[..i + 1]) == t[i]
  {
    assert t[..i + 1][..i] == t[..i];
  }

  /** One more point kept: one more visit. */
  lemma VisitAllSnoc(m: Model, kept: seq<Point>, p: Point)
    requires Tree(m.arena)
    ensures var (m1, ids) := VisitAll(m, kept);
      VisitAll(m, kept + [p]) == (Visit(m1, p).0, ids + [Visit(m1, p).1])
  {
    assert (kept + [p])[..|kept|] == kept;
  }

  /** The point handle_row takes in pass `i` of its loop: counted from the
      end when the direction is 3. It is the `i`th point of the walk. */
  function PointAt(points: seq<Point>, direction: int, i: nat): (p: Point)
    requires i < |points|
    ensures p == Traverse(points, direction)[i]
  {
    if direction == AGAINST then points[|points| - 1 - i] else points[i]
  }
}
