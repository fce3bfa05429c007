/** The geometry side of handle_row (dr2osm.c:91-123): the checks on the
    GeoPackage blob, the order in which the line's points are walked, and the
    skipping of a point equal to the one before it. */
module Rows {
  import opened CTypes

  /** A line point rounded to the national grid (the source adds 0.5 to the
      double coordinates and truncates to int). */
  datatype Point = Point(x: int, y: int)

  /** prev_x and prev_y start at INT_MIN. */
  const SENTINEL: Point := Point(INT_MIN, INT_MIN)

  /** direction 3 means traffic runs against the digitising order; the points
      are then walked from the last to the first. */
  const AGAINST: int := 3

  /** The reverse of a point sequence. */
  function Reverse(ps: seq<Point>): (r: seq<Point>)
    ensures |r| == |ps|
    ensures forall i :: 0 <= i < |ps| ==> r[i] == ps[|ps| - 1 - i]
  {
    if ps == [] then [] else Reverse(ps[1..]) + [ps[0]]
  }

  /** The order in which handle_row visits the points. */
  function Traverse(ps: seq<Point>, direction: int): (t: seq<Point>)
    ensures |t| == |ps|
    ensures direction == AGAINST ==> forall i :: 0 <= i < |ps| ==> t[i] == ps[|ps| - 1 - i]
    ensures direction != AGAINST ==> t == ps
  {
    if direction == AGAINST then Reverse(ps) else ps
  }

  /** Walking a line against its direction twice gives the line back, and
      either walk visits every point as often as the line holds it. */
  lemma TraverseProperties(ps: seq<Point>, direction: int)
    ensures direction == AGAINST ==> Traverse(Traverse(ps, direction), direction) == ps
    ensures multiset(Traverse(ps, direction)) == multiset(ps)
  {
    ReverseMultiset(ps);
    if direction == AGAINST {
      var r := Reverse(Reverse(ps));
      assert forall i :: 0 <= i < |ps| ==> r[i] == ps[i];
    }
  }

  lemma {:induction false} ReverseMultiset(ps: seq<Point>)
    ensures multiset(Reverse(ps)) == multiset(ps)
  {
    if ps != [] {
      ReverseMultiset(ps[1..]);
      assert ps == [ps[0]] + ps[1..];
    }
  }

  /** The last point of a walk prefix, or the sentinel when there is none. */
  function Last(ps: seq<Point>): Point {
    if ps == [] then SENTINEL else ps[|ps| - 1]
  }

  /** The points handle_row keeps: each point unless it equals the previous
      one kept (and the first unless it equals the sentinel). */
  function Dedup(ps: seq<Point>): (d: seq<Point>)
    ensures |d| <= |ps|
    ensures Last(d) == Last(ps)
  {
    if ps == [] then []
    else
      var init := ps[..|ps| - 1];
      var p := ps[|ps| - 1];
      Dedup(init) + (if p == Last(init) then [] else [p])
  }

  /** The kept points never repeat one point twice in a row, and none is the
      sentinel at the start. */
  lemma {:induction false} DedupNoRepeats(ps: seq<Point>)
    ensures var d := Dedup(ps);
      (d != [] ==> d[0] != SENTINEL) && forall i :: 0 <= i < |d| - 1 ==> d[i] != d[i + 1]
  {
    if ps != [] {
      DedupNoRepeats(ps[..|ps| - 1]);
    }
  }

  /** Every point of the line is kept unless it is the sentinel; and only
      points of the line are kept. */
  lemma {:induction false} DedupKeepsPoints(ps: seq<Point>)
    ensures forall p :: p in ps && p != SENTINEL ==> p in Dedup(ps)
    ensures forall p :: p in Dedup(ps) ==> p in ps
  {
    if ps != [] {
      var init := ps[..|ps| - 1];
      DedupKeepsPoints(init);
      assert ps == init + [ps[|ps| - 1]];
      if init != [] {
        assert Last(init) in init;
      }
    }
  }

  /** A walk without repeats that does not start at the sentinel is kept
      whole; so keeping the kept points again changes nothing. */
  lemma {:induction false} DedupUnchanged(ps: seq<Point>)
    requires ps != [] ==> ps[0] != SENTINEL
    requires forall i :: 0 <= i < |ps| - 1 ==> ps[i] != ps[i + 1]
    ensures Dedup(ps) == ps
  {
    if ps != [] {
      var init := ps[..|ps| - 1];
      DedupUnchanged(init);
      assert ps == init + [ps[|ps| - 1]];
    }
  }

  lemma DedupIdempotent(ps: seq<Point>)
    ensures Dedup(Dedup(ps)) == Dedup(ps)
  {
    DedupNoRepeats(ps);
    DedupUnchanged(Dedup(ps));
  }

  // ---------------------------------------------------------------------
  // The checks on the geometry blob

  /** wkbLineStringZM, the only geometry type handle_row reads. */
  const WKB_LINE_STRING_ZM: int := 3002
  /** Byte order 1 is little endian (NDR). */
  const WKB_NDR: int := 1

  /** The two WKB header checks as written: each assert holds an assignment
      (`=`), whose value is the non-zero constant assigned, so the check
      passes whatever the blob holds. */
  function WkbHeaderAcceptedAsWritten(byteOrder: int, geomType: int): (ok: bool)
    ensures ok
  {
    WKB_NDR != 0 && WKB_LINE_STRING_ZM != 0
  }

  /** A big-endian LineString Z blob passes the as-written checks, although
      the point loop reads it as little-endian ZM points. */
  lemma AsWrittenAcceptsBigEndian()
    ensures WkbHeaderAcceptedAsWritten(0, 1002)
  {
  }

  /** The intended checks: comparisons. */
  function WkbHeaderAccepted(byteOrder: int, geomType: int): (ok: bool)
    ensures ok ==> byteOrder == WKB_NDR && geomType == WKB_LINE_STRING_ZM
    ensures byteOrder != WKB_NDR || geomType != WKB_LINE_STRING_ZM ==> !ok
  {
    byteOrder == WKB_NDR && geomType == WKB_LINE_STRING_ZM
  }

  /** The intended checks accept exactly the layout the point loop reads, and
      reject where the as-written ones let the blob through. */
  lemma HeaderChecksDiffer(byteOrder: int, geomType: int)
    ensures WkbHeaderAccepted(byteOrder, geomType) <==> byteOrder == 1 && geomType == 3002
    ensures WkbHeaderAcceptedAsWritten(byteOrder, geomType)
  {
  }
}
