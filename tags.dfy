/** The pure lookups of handle_row: the OSM tag values a row is given
    (dr2osm.c:27-61, 143-201) and the size of the envelope in front of the
    geometry (dr2osm.c:91-98). */
module Tags {

  // The enum of dr2osm.c:46-53: the highway, route and oneway identifiers in
  // one sequence, each an index into osm_strings.
  const HW_NONE: int := 0
  const HW_FOOTWAY: int := 1
  const HW_MOTORWAY: int := 2
  const HW_TRUNK: int := 3
  const HW_PRIMARY: int := 4
  const HW_SECONDARY: int := 5
  const HW_TERTIARY: int := 6
  const HW_RESIDENTIAL: int := 7
  const RT_NONE: int := 8
  const RT_FERRY: int := 9
  const OW_NONE: int := 10
  const OW_NO: int := 11
  const OW_YES: int := 12
  const STRING_COUNT: int := 13

  /** osm_strings: the tag value written for each identifier. */
  const OSM_STRINGS: seq<string> :=
    ["", "footway", "motorway", "trunk", "primary", "secondary", "tertiary", "residential",
     "", "ferry",
     "", "no", "yes"]

  /** Road classes (toiminnallinen luokka) 1 to 5 and the highway value each
      maps to, as a table. */
  const CLASS_HIGHWAY: map<int, string> :=
    map[1 := "motorway", 2 := "trunk", 3 := "primary", 4 := "secondary", 5 := "tertiary"]

  /** A link type or class that marks a footway or cycleway. */
  predicate IsFootway(roadClass: int, linkType: int) {
    linkType == 8 || linkType == 9 || roadClass == 8
  }

  /** Link type 21 is a ferry connection. */
  predicate IsFerry(linkType: int) {
    linkType == 21
  }

  /** The highway identifier handle_row pushes. */
  function Highway(roadClass: int, linkType: int): (h: int)
    ensures HW_NONE <= h <= HW_RESIDENTIAL
  {
    if IsFootway(roadClass, linkType) then HW_FOOTWAY
    else if IsFerry(linkType) then HW_NONE
    else if roadClass == 1 then HW_MOTORWAY
    else if roadClass == 2 then HW_TRUNK
    else if roadClass == 3 then HW_PRIMARY
    else if roadClass == 4 then HW_SECONDARY
    else if roadClass == 5 then HW_TERTIARY
    else HW_RESIDENTIAL
  }

  /** The route identifier handle_row pushes. */
  function Route(roadClass: int, linkType: int): (r: int)
    ensures r == RT_FERRY <==> IsFerry(linkType) && roadClass != 8
    ensures r == RT_NONE || r == RT_FERRY
  {
    if linkType == 21 && roadClass != 8 then RT_FERRY else RT_NONE
  }

  /** The oneway identifier handle_row pushes: direction 2 is "both ways",
      3 and 4 are the two one-way directions. */
  function Oneway(direction: int): (o: int)
    ensures o == OW_NO <==> direction == 2
    ensures o == OW_YES <==> direction == 3 || direction == 4
    ensures o == OW_NONE <==> direction !in {2, 3, 4}
  {
    match direction
    case 2 => OW_NO
    case 3 => OW_YES
    case 4 => OW_YES
    case _ => OW_NONE
  }

  /** The highway value written for a row, stated through the class table:
      footways first, then nothing for ferries, then the table, and
      "residential" for every other class. */
  lemma HighwayValue(roadClass: int, linkType: int)
    ensures OSM_STRINGS[Highway(roadClass, linkType)] ==
      if IsFootway(roadClass, linkType) then "footway"
      else if IsFerry(linkType) then ""
      else if roadClass in CLASS_HIGHWAY then CLASS_HIGHWAY[roadClass]
      else "residential"
  {
  }

  /** A ferry link that is also marked as a footway is a footway and no ferry
      route; any other ferry link is a ferry route with no highway value. */
  lemma FerryTags(roadClass: int, linkType: int)
    requires IsFerry(linkType)
    ensures roadClass == 8 ==> Highway(roadClass, linkType) == HW_FOOTWAY && Route(roadClass, linkType) == RT_NONE
    ensures roadClass != 8 ==> Highway(roadClass, linkType) == HW_NONE && Route(roadClass, linkType) == RT_FERRY
  {
  }

  /** Every identifier pushed is a valid index into osm_strings, and each
      lies in its own group of the enum. */
  lemma TagsAreStrings(roadClass: int, linkType: int, direction: int)
    ensures |OSM_STRINGS| == STRING_COUNT
    ensures 0 <= Highway(roadClass, linkType) < RT_NONE
    ensures RT_NONE <= Route(roadClass, linkType) < OW_NONE
    ensures OW_NONE <= Oneway(direction) < STRING_COUNT
  {
  }

  // ---------------------------------------------------------------------
  // The GeoPackage binary header

  /** magic (2 bytes), version, flags and srs_id (4 bytes). */
  const HEADER_SIZE: int := 8

  /** envelope_sizes: bytes of envelope for each envelope indicator. */
  const ENVELOPE_SIZES: seq<int> := [0, 32, 48, 48, 64]

  /** The envelope indicator: bits 1 to 3 of the flags byte. */
  function EnvelopeIndicator(flags: bv8): (e: nat)
    ensures e < 8
  {
    ((flags >> 1) & 7) as nat
  }

  datatype Axis = X | Y | Z | M

  /** The axes whose minimum and maximum the envelope holds, for each
      indicator the GeoPackage Encoding Standard (clause 2.1.3.1.1) defines. */
  function EnvelopeAxes(e: nat): seq<Axis>
    requires e <= 4
  {
    match e
    case 0 => []
    case 1 => [X, Y]
    case 2 => [X, Y, Z]
    case 3 => [X, Y, M]
    case 4 => [X, Y, Z, M]
  }

  /** Where the WKB geometry starts in the blob: after the header and the
      envelope. The source asserts that the indicator is at most 4. */
  function PayloadOffset(flags: bv8): (offset: int)
    requires EnvelopeIndicator(flags) <= 4
    ensures HEADER_SIZE <= offset <= HEADER_SIZE + 64 && offset % 8 == 0
    ensures offset == HEADER_SIZE <==> EnvelopeIndicator(flags) == 0
  {
    HEADER_SIZE + ENVELOPE_SIZES[EnvelopeIndicator(flags)]
  }

  /** The envelope size table holds two doubles (minimum and maximum) per axis
      of the envelope. */
  lemma PayloadOffsetAxes(flags: bv8)
    requires EnvelopeIndicator(flags) <= 4
    ensures PayloadOffset(flags) == HEADER_SIZE + 2 * 8 * |EnvelopeAxes(EnvelopeIndicator(flags))|
    ensures PayloadOffset(flags) in {8, 40, 56, 72}
  {
  }

  /** The indicator is read from bits 1 to 3 only: bit 0 (byte order) and
      bits 4 to 7 do not change it. */
  lemma EnvelopeIndicatorBits(flags: bv8)
    ensures EnvelopeIndicator(flags) == EnvelopeIndicator(flags & 0x0e)
    ensures EnvelopeIndicator(flags) as bv8 << 1 == flags & 0x0e
  {
  }
}
