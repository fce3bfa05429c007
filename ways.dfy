/** A buffered way record: how handle_row lays one way out in the way buffer
    (dr2osm.c:89, 137-203) and how main's flush loop reads it back
    (dr2osm.c:339-353).

    The record is the way id, the node ids, a 0 terminator, the highway,
    route and oneway identifiers, the speed limit, and the name as string
    chunks. Node ids are never 0, so the terminator is unambiguous. */
module Ways {
  import opened CTypes
  import opened GrowableBuffers
  import opened WayCodec
  import opened Tags

  datatype Way = Way(id: int, nodes: seq<int>, highway: int, route: int, oneway: int,
                     maxspeed: int, name: seq<Byte>)

  /** What the converter keeps true of every way it buffers: node ids are
      non-zero, each tag lies in its own group of osm_strings, and the name
      is a C string. */
  predicate WellFormed(w: Way) {
    && (forall i :: 0 <= i < |w.nodes| ==> w.nodes[i] != 0)
    && HW_NONE <= w.highway < RT_NONE && RT_NONE <= w.route < OW_NONE
    && OW_NONE <= w.oneway < STRING_COUNT
    && NulFree(w.name)
  }

  /** The ints handle_row pushes for one way, in push order. */
  function EncodeWay(w: Way): (q: seq<int>)
    ensures |q| == |w.nodes| + 6 + |w.name| / 4 + 1
  {
    [w.id] + w.nodes + [0, w.highway, w.route, w.oneway, w.maxspeed] + EncodeString(w.name)
  }

  /** The way buffer holding `ws`, oldest first. */
  function EncodeWays(ws: seq<Way>): (q: seq<int>)
    ensures q == [] <==> ws == []
  {
    if ws == [] then [] else EncodeWay(ws[0]) + EncodeWays(ws[1..])
  }

  /** Buffering one more way appends its record. */
  lemma {:induction false} EncodeWaysSnoc(ws: seq<Way>, w: Way)
    ensures EncodeWays(ws + [w]) == EncodeWays(ws) + EncodeWay(w)
  {
    if ws == [] {
      assert ws + [w] == [w];
      assert EncodeWays([w]) == EncodeWay(w) + EncodeWays([]);
    } else {
      assert (ws + [w])[1..] == ws[1..] + [w];
      EncodeWaysSnoc(ws[1..], w);
    }
  }

  /** How many ints at the head of `q` are non-zero. */
  function NodeRun(q: seq<int>): (n: nat)
    ensures n <= |q| && (n < |q| ==> q[n] == 0)
    ensures forall i :: 0 <= i < n ==> q[i] != 0
  {
    if q == [] || q[0] == 0 then 0 else 1 + NodeRun(q[1..])
  }

  /** `q` starts with something the flush loop can read as one way: an id,
      ints up to a 0, four more ints and a terminated string. */
  predicate Decodable(q: seq<int>) {
    && 1 <= |q|
    && var n := NodeRun(q[1..]);
    && n + 6 <= |q|
    && Terminated(q[n + 6..])
  }

  /** What the flush loop reads from `q`: the way, and the ints left after it. */
  function DecodeWay(q: seq<int>): (r: (Way, seq<int>))
    requires Decodable(q)
    ensures |r.1| < |q| && r.1 == q[|q| - |r.1|..]
    ensures r.0.id == q[0] && forall i :: 0 <= i < |r.0.nodes| ==> r.0.nodes[i] != 0
  {
    var n := NodeRun(q[1..]);
    var s := q[n + 6..];
    (Way(q[0], q[1..n + 1], q[n + 2], q[n + 3], q[n + 4], q[n + 5], DecodeString(s)), s[Extent(s)..])
  }

  /** Round trip: reading a buffered way back yields the way, and stops right
      after its record. */
  lemma DecodeEncode(w: Way, rest: seq<int>)
    requires WellFormed(w)
    ensures Decodable(EncodeWay(w) + rest)
    ensures DecodeWay(EncodeWay(w) + rest) == (w, rest)
  {
    var e := EncodeString(w.name);
    RecordLayout(w, rest);
    StringRoundTrip(w.name, rest);
    assert (e + rest)[|e|..] == rest;
  }

  /** Where the parts of a way lie in its record. */
  lemma RecordLayout(w: Way, rest: seq<int>)
    requires forall i :: 0 <= i < |w.nodes| ==> w.nodes[i] != 0
    ensures var q := EncodeWay(w) + rest; var k := |w.nodes|;
      && NodeRun(q[1..]) == k && k + 6 <= |q|
      && q[0] == w.id && q[1..k + 1] == w.nodes
      && q[k + 2] == w.highway && q[k + 3] == w.route && q[k + 4] == w.oneway && q[k + 5] == w.maxspeed
      && q[k + 6..] == EncodeString(w.name) + rest
  {
    var k := |w.nodes|;
    var e := EncodeString(w.name);
    var tail := [0, w.highway, w.route, w.oneway, w.maxspeed] + (e + rest);
    var q := [w.id] + (w.nodes + tail);
    assert EncodeWay(w) + rest == q;
    assert q[1..] == w.nodes + tail;
    NodeRunOf(w.nodes + tail, k);
    assert q[k + 6..] == e + rest;
    assert q[1..k + 1] == w.nodes;
  }

  /** The run of non-zero ints ends at the first 0. */
  lemma NodeRunOf(q: seq<int>, k: nat)
    requires k < |q| && q[k] == 0
    requires forall i :: 0 <= i < k ==> q[i] != 0
    ensures NodeRun(q) == k
  {
    if k > 0 {
      NodeRunOf(q[1..], k - 1);
    }
  }

  /** Reading the buffer of several ways back, one way at a time, yields the
      first way and leaves the buffer of the others. */
  lemma DecodeFirst(ws: seq<Way>)
    requires ws != [] && WellFormed(ws[0])
    ensures Decodable(EncodeWays(ws))
    ensures DecodeWay(EncodeWays(ws)) == (ws[0], EncodeWays(ws[1..]))
  {
    DecodeEncode(ws[0], EncodeWays(ws[1..]));
  }

  /** One iteration of main's flush loop: pops the way id, the node ids up to
      the 0, the four tag ints and the name. The source asserts every pop;
      here the buffer must hold a decodable record. */
  method PopWay(b: GrowableBuffer<int>) returns (w: Way)
    requires b.Valid() && b.unit == INT_SIZE && Decodable(b.Contents())
    modifies b`firstIn, b`firstSlot
    ensures b.Valid() && b.nextIn == old(b.nextIn)
    ensures (w, b.Contents()) == DecodeWay(old(b.Contents()))
  {
    ghost var q := b.Contents();
    ghost var n := NodeRun(q[1..]);
    var id := PopInt(b);
    var nodes := PopNodeIds(b);
    assert nodes == q[1..n + 1];
    var highway := PopInt(b);
    var route := PopInt(b);
    var oneway := PopInt(b);
    var maxspeed := PopInt(b);
    assert b.Contents() == q[n + 6..];
    var name := PopString(b);
    w := Way(id, nodes, highway, route, oneway, maxspeed, name);
  }

  /** The node loop of the flush: pops ints until it pops a 0. */
  method PopNodeIds(b: GrowableBuffer<int>) returns (nodes: seq<int>)
    requires b.Valid() && b.unit == INT_SIZE
    requires NodeRun(b.Contents()) < |b.Contents()|
    modifies b`firstIn, b`firstSlot
    ensures b.Valid() && b.nextIn == old(b.nextIn)
    ensures var n := NodeRun(old(b.Contents()));
      nodes == old(b.Contents())[..n] && b.Contents() == old(b.Contents())[n + 1..]
  {
    ghost var q := b.Contents();
    ghost var n := NodeRun(q);
    nodes := [];
    while true
      invariant b.Valid() && b.unit == INT_SIZE && b.nextIn == old(b.nextIn)
      invariant |nodes| <= n && nodes == q[..|nodes|] && b.Contents() == q[|nodes|..]
      decreases n - |nodes|
    {
      var id := PopInt(b);
      if id == 0 {
        assert |nodes| == n;
        break;
      }
      assert q[..|nodes| + 1] == nodes + [id];
      nodes := nodes + [id];
    }
  }
}
