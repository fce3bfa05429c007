# dr2osm in Dafny

dr2osm converts the Finnish road network (Digiroad road links in a
GeoPackage) into an OpenStreetMap XML file. This project models the core of
the converter and proves properties of the model:

- **The growable staging buffer** (`GrowableBuffers`, buffer.dfy). It is a
  FIFO region of fixed reserved capacity with a read offset, a write offset
  and a commit threshold. Memory is committed one 16 KiB block at a time. A
  push past the capacity, or a refused commit, is the fatal jump to
  `out_of_memory`.
- **The int and string codec on the way buffer** (`WayCodec`, waycodec.dfy).
  A string is stored as NUL-padded 4-byte chunks, ended by the first chunk
  whose fourth byte is 0.
- **The quad tree of nodes** (`NodeTree`, nodetree.dfy). Nodes live in the
  append-only node buffer and are linked by positive relative offsets. Each
  coordinate pair is held by exactly one node.
- **The way record** (`Ways`, ways.dfy). This is the layout `handle_row`
  pushes and the order in which the flush in `main` pops it back.
- **The per-row rules** (`Tags`, `Rows`). These are the tag tables, the
  envelope size, the walk direction and the skipping of repeated points.
- **The ids** (`Identifiers`, ids.dfy). One counter numbers nodes and ways,
  in order. The model keeps a log of who received each id.
- **The OSM file body** (`Osm`, osm.dfy). This is what a row becomes and
  what the whole run writes.
- **The converter** (`Dr2Osm`, converter.dfy). It is a class holding the
  globals of dr2osm.c, with `generate_id`, `handle_row`, the row loop, the
  flush and the set-up in `main`.

The fatal `longjmp` is an `Outcome` whose `Halt` value carries the reason.
An `assert` of dr2osm.c traps in a build without `RELEASE_BUILD`. Where such
an assert can fail on data the converter reads, the model halts with
`AssertionFailed`. The operating system's answers are parameters: whether a
reservation succeeds, and whether a commit is granted (a function of the
block offset).

The imperative parts keep their imperative form:

- the buffer is a class whose methods update its offsets in place over an
  array;
- `node_upsert` walks the arena in a loop;
- the chunk loops and the flush are loops;
- the converter's methods update its fields.

Each method is proved against a specification function. These are
`UpsertSpec`, `EncodeString`, `DecodeWay`, `Visit`/`VisitAll`, `RowSpec`,
`RunSpec`, `NodeElements` and `WayElements`. The properties are proved as
lemmas about those functions.

Three behaviours of the code shape the model:

- **One id counter for nodes and ways.** `generate_id` (dr2osm.c:73-81)
  numbers the nodes (line 128) and also the ways (line 141), so node and way
  ids come from one sequence.
- **handle_row has no skip path.** Every row it is given either completes a
  way record or stops the program:
  - the placeholder for the way id is pushed before any check (line 89);
  - an envelope indicator above 4 fails the `assert` at line 93;
  - the byte-order and geometry-type asserts (lines 100-101) assign instead
    of compare, so they pass whatever the blob holds (see Findings).

  `HandleRow` halts with `AssertionFailed` where the debug build traps, and
  follows the header asserts as written.
- **An envelope indicator of 5 traps.** Indicators 5 to 7 fail the assert at
  line 93; no row is skipped for them.

## Model

| member | source | states |
|---|---|---|
| GrowableBuffers.InitBuffer | src/buffer.c:81-101 | no buffer when the reservation is refused; otherwise a fresh buffer of the requested capacity whose read, write and commit offsets are 0 and which holds nothing |
| GrowableBuffers.GrowableBuffer.Init | src/buffer.c:94-98 | records the capacity and sets the read, write and commit offsets to 0; the buffer is empty and valid |
| GrowableBuffers.GrowableBuffer.Push | src/buffer.c:103-125 | halts with CapacityExceeded, before any offset changes, exactly when the capacity left is below the request; otherwise returns the old write offset (or halts with CommitFailure) and advances the write offset by exactly the request, with the read offset and the contents before it unchanged; the threshold grows by exactly one 16 KiB block exactly when the new write offset passes it and the commit is granted, stays a multiple of the block, and covers the write offset after a push of at most one block |
| GrowableBuffers.GrowableBuffer.CommitMemory | src/buffer.c:57-68 | the result is the system's answer for the block at the threshold, and the threshold advances by one block exactly when it is granted |
| GrowableBuffers.GrowableBuffer.Pop | src/buffer.c:127-139 | for a range within written, unread data, returns the old read offset, advances it by the size, and removes exactly that many elements from the front of the contents |
| WayCodec.Pack | src/buffer.c:163 | the int read from a 4-byte chunk is a 32-bit int |
| WayCodec.UnpackPack | src/buffer.c:163 | reading a chunk as an int and taking its bytes back gives the chunk |
| WayCodec.Byte3OfPack | src/buffer.c:164 | the byte the loop condition tests is the chunk's fourth byte |
| WayCodec.EncodeString | src/buffer.c:150-165 | a string of length L is stored as L/4 + 1 ints |
| WayCodec.TakeUntilNul | src/buffer.c:177-190 | the C string read from bytes is their NUL-free prefix, ended by a NUL or by the end |
| WayCodec.Extent | src/buffer.c:185-187 | the string pop consumes at least one and at most all of the unread ints |
| WayCodec.DecodeString | src/buffer.c:177-190 | the string popped is NUL-free and no longer than the bytes of the ints it consumes |
| WayCodec.EncodeStringBytes | src/buffer.c:150-165 | the chunks hold the string's bytes followed by 1 to 4 NULs |
| WayCodec.EncodeStringEnds | src/buffer.c:150-165 | for a C string, every chunk but the last has a non-zero fourth byte and the last has 0 |
| WayCodec.NextChunkEnds | src/buffer.c:157-164 | the chunk filled from the rest of a C string ends the string exactly when fewer than four bytes were left |
| WayCodec.StringRoundTrip | src/buffer.c:150-190 | popping a string off ints that start with a pushed C string consumes exactly its chunks and yields the string |
| WayCodec.PushInt | src/buffer.c:141-148 | halts with CapacityExceeded exactly when no int fits, and with CommitFailure exactly when the int crosses the threshold and the commit is refused, the write offset having advanced; it never halts on an assert and never lowers the threshold; on success returns the slot's offset and appends exactly the value, leaving the read offset alone |
| WayCodec.StoreInt | dr2osm.c:141 | the store through a pushed int's pointer replaces exactly that element of the unread contents |
| WayCodec.PopInt | src/buffer.c:167-175 | returns the oldest unread int and removes exactly it |
| WayCodec.FillChunk | src/buffer.c:157-161 | the inner loop fills the next chunk of the string, NUL-padded, and the string pointer stops at the terminator |
| WayCodec.PushString | src/buffer.c:152-165 | halts only when one of its int pushes does: never on an assert; on capacity only when the chunks do not all fit; on a refused commit only once the write offset has passed the threshold, whose block was refused; with room for every chunk and every block granted it succeeds; on success appends exactly the chunks of the string, keeping the read offset and the committed range covering the write offset |
| WayCodec.PopChunks | src/buffer.c:185-187 | pops exactly the ints up to and including the first with a zero fourth byte, and returns them |
| WayCodec.PopString | src/buffer.c:177-190 | returns the decoded string and removes exactly its chunks |
| NodeTree.Quadrant | src/buffer.c:212-214 | the child index east \| north << 1 is one of the four slots; its low bit is set exactly when the point lies east of the node and its high bit exactly when it lies north |
| NodeTree.Descend | src/buffer.c:205-230 | the walk either finds a later node holding the point, or ends at a node not holding it whose child slot for the point's quadrant is empty |
| NodeTree.Search | src/buffer.c:205-229 | the loop of node_upsert stops exactly where Descend does: at the node holding the point, or at the empty child slot for it |
| NodeTree.AttachTree | src/buffer.c:216-226 | attaching the new node at the end of a failed search keeps every node findable by its coordinates |
| NodeTree.AttachKeepsFound | src/buffer.c:216-226 | a search that found a node before the attach finds the same node after it |
| NodeTree.AttachFindsNew | src/buffer.c:216-226 | the search that ended at the filled slot now finds the new node |
| NodeTree.TreeUnique | src/buffer.c:198-201 | no two nodes of the arena share coordinates |
| NodeTree.FoundIffPresent | src/buffer.c:198-211 | the search finds a node exactly when some node holds the point |
| NodeTree.UpsertSpecProperties | src/buffer.c:198-227 | node_upsert returns a node holding the point; the arena is unchanged exactly when some node held it; otherwise exactly one node with id 0 is appended, linked by a positive offset from the previously empty child slot east \| north << 1 of a node, and no other node changes; the arena stays a tree |
| NodeTree.UpsertSpec | src/buffer.c:198-227 | the slot returned holds the point; the arena is either unchanged or one longer, with the new node at the end carrying no id |
| NodeTree.Attach | src/buffer.c:216-226 | the arena grows by one node with the point's coordinates, no id and no children, and the parent's child slot holds the offset to it, which is positive |
| NodeTree.DescendIgnoresIds | dr2osm.c:127-128 | storing node ids changes no search |
| NodeTree.SetIdTree | dr2osm.c:127-128 | storing a node's id keeps the arena a tree |
| NodeTree.AllocNode | src/buffer.c:192-196 | halts with CapacityExceeded exactly when no node fits, and with CommitFailure exactly when the commit of the next block is refused; otherwise returns the next slot and appends one zero-filled node |
| NodeTree.Upsert | src/buffer.c:202-231 | on success the arena and the slot returned are UpsertSpec's; when some node holds the point it never halts; otherwise it halts with CapacityExceeded exactly when alloc_node has no room, with CommitFailure exactly when alloc_node's commit is refused, and with AssertionFailed exactly when the offset to the new node would not fit in an int, which needs more than INT_MAX nodes |
| NodeTree.AttachNew | src/buffer.c:216-227 | the miss branch appends the node, links it from the empty child slot, writes its coordinates and returns its slot; it halts exactly as alloc_node does, or with AssertionFailed exactly when the offset is at least INT_MAX, the buffer then holding more than INT_MAX nodes |
| Tags.Highway | dr2osm.c:143-173 | the highway identifier is one of the HW_ values |
| Tags.HighwayValue | dr2osm.c:143-173 | the highway value written is "footway" for link types 8 and 9 or class 8; else nothing for a ferry link; else the class table for classes 1 to 5; else "residential" |
| Tags.Route | dr2osm.c:177-181 | route is RT_FERRY exactly when the link type is 21 and the class is not 8, and RT_NONE otherwise |
| Tags.Oneway | dr2osm.c:185-199 | oneway is OW_NO exactly for direction 2, OW_YES exactly for directions 3 and 4, OW_NONE exactly otherwise |
| Tags.FerryTags | dr2osm.c:145-181 | a ferry link of class 8 is a footway with no route; any other ferry link is a ferry route with no highway |
| Tags.TagsAreStrings | dr2osm.c:46-61 | osm_strings has STRING_COUNT entries, and each identifier pushed is an index into it within its own group |
| Tags.EnvelopeIndicatorBits | dr2osm.c:91 | the indicator is bits 1 to 3 of the flags and nothing else |
| Tags.PayloadOffset | dr2osm.c:91-98 | for an indicator of at most 4 the geometry starts after the 8-byte header and at most 64 envelope bytes, on an 8-byte boundary, and directly after the header exactly when there is no envelope |
| Tags.PayloadOffsetAxes | dr2osm.c:95-98 | the envelope size table gives two doubles per axis the GeoPackage standard puts in each envelope, so the geometry starts at byte 8, 40, 56 or 72 |
| Ways.EncodeWay | dr2osm.c:89-203 | a way's record is as long as its node ids plus six ints plus its name's chunks |
| Ways.EncodeWays | dr2osm.c:89-203 | the way buffer is empty exactly when no way is buffered |
| Ways.EncodeWaysSnoc | dr2osm.c:89-203 | handling one more row appends its record after the records before it |
| Ways.NodeRun | dr2osm.c:344-346 | the node loop stops at the first 0, and every int before it is non-zero |
| Ways.RecordLayout | dr2osm.c:89-203 | where the id, node ids, terminator, tags and name lie in a record |
| Ways.DecodeEncode | dr2osm.c:340-352 | round trip: reading a buffered well-formed way back gives the way and stops right after its record |
| Ways.DecodeFirst | dr2osm.c:339-352 | reading the buffer of several ways yields the first way and leaves the records of the rest |
| Ways.DecodeWay | dr2osm.c:340-352 | reading a way consumes at least one int and leaves a suffix of the unread ints; the way's id is the first int and its node ids are non-zero |
| Ways.PopWay | dr2osm.c:340-352 | one flush pass pops exactly one decodable record and returns the way it encodes |
| Ways.PopNodeIds | dr2osm.c:344-346 | the node loop pops the ints up to the first 0 and the 0 itself, and returns those before it |
| Rows.Reverse | dr2osm.c:109-113 | point i of the reversed walk is point n - 1 - i of the line |
| Rows.Traverse | dr2osm.c:106-113 | the walk has as many points as the line; against the digitising direction (3) point i is point n - 1 - i, otherwise the walk is the line |
| Rows.TraverseProperties | dr2osm.c:106-113 | walking against the direction twice gives the line back, and either walk visits every point as often as the line holds it |
| Rows.Dedup | dr2osm.c:103-123 | the kept points are no more than those walked, and the last kept is the last walked (prev_x/prev_y) |
| Rows.DedupNoRepeats | dr2osm.c:103-123 | no two consecutive kept points are equal, and the first kept is not the INT_MIN sentinel |
| Rows.DedupKeepsPoints | dr2osm.c:103-123 | every point of the line other than the sentinel is kept at least once, and only points of the line are kept |
| Rows.DedupUnchanged | dr2osm.c:103-123 | a walk without repeats that does not start at the sentinel is kept whole |
| Rows.DedupIdempotent | dr2osm.c:103-123 | keeping the kept points again changes nothing |
| Rows.WkbHeaderAccepted | dr2osm.c:100-101 | the corrected checks accept exactly byte order 1 and geometry type 3002 |
| Rows.WkbHeaderAcceptedAsWritten | dr2osm.c:100-101 | the as-written checks pass for every byte order and geometry type |
| Rows.AsWrittenAcceptsBigEndian | dr2osm.c:100-101 | the checks as written accept a big-endian LineString Z |
| Rows.HeaderChecksDiffer | dr2osm.c:100-101 | the corrected checks accept exactly the layout the point loop reads, while the as-written ones accept every header |
| Identifiers.UpsertKeepsIds | src/buffer.c:198-227 | node_upsert changes no point's id, and the node returned carries its point's id |
| Identifiers.SetIdIds | dr2osm.c:127-128 | storing id n into a node gives its point id n and changes no other point's id |
| Identifiers.Visit | dr2osm.c:125-137 | one pass of the point loop keeps the arena a tree |
| Identifiers.VisitProperties | dr2osm.c:125-137 | a visit keeps the ids consistent; the id pushed is the point's id afterwards and never 0; a point with an id keeps it and no id is issued; a point without one gets the next id, logged to its node; ids already given are kept |
| Identifiers.NewIdConsistent | dr2osm.c:127-128 | giving a point without an id the next id keeps ids and log consistent |
| Identifiers.VisitAll | dr2osm.c:106-138 | the loop pushes one id per kept point and keeps the arena a tree |
| Identifiers.VisitAllProperties | dr2osm.c:106-138 | after the loop the ids stay consistent, the log only grows, each id pushed is the current non-zero id of its point, and earlier ids are kept |
| Identifiers.AddWayConsistent | dr2osm.c:140-141 | giving the way the next id after its nodes keeps ids and log consistent |
| Identifiers.IdsUnique | dr2osm.c:73-81 | no two nodes, no two ways and no node and way share an id, and every node id of a way is the id of a node in the arena |
| Osm.RowSpec | dr2osm.c:83-204 | the ids after a row keep the arena a tree |
| Osm.Kept | dr2osm.c:103-123 | the points visited are no more than the line's, all points of the line, and no two in a row are equal |
| Osm.RowSpecProperties | dr2osm.c:83-204 | a row keeps the ids consistent and buffers a well-formed way whose id is newer than every earlier id, whose nodes are the ids of the kept points in order, never one twice in a row; earlier ids are kept |
| Osm.RowSpecConsistent | dr2osm.c:83-204 | a row keeps the ids consistent with its way added, the way is well formed and takes the newest id |
| Osm.RowSpecNodes | dr2osm.c:106-138 | the way's nodes are the ids of the kept points in order, never the same node twice in a row |
| Osm.PointIdsOfNodes | dr2osm.c:125-137 | every id pushed for a point was issued to a node |
| Osm.NoRepeatedRefs | dr2osm.c:118-137 | distinct consecutive points get distinct ids |
| Osm.NodeElementsProperties | dr2osm.c:127-135 | one `<node>` line per node id, in increasing id order, each for the point its id was issued to, and every node id has its line |
| Osm.NodeElements | dr2osm.c:127-135 | no more `<node>` lines than ids issued, and every one is a `<node>` line |
| Osm.NodeElementsSnoc | dr2osm.c:127-135 | a new node id writes one more `<node>` line; a way id writes none |
| Osm.WayElementsProperties | dr2osm.c:339-360 | the flush writes one `<way>` line per buffered way, in buffer order |
| Osm.WayElementOf | dr2osm.c:342-359 | a way's line carries the way's id, its node ids as `<nd>` references, its speed limit and its name |
| Osm.WayElementTags | dr2osm.c:354-356 | the route written is empty or "ferry", the oneway empty, "no" or "yes", and the highway none of those values |
| Osm.WayElements | dr2osm.c:339-360 | one `<way>` line per buffered way, each a `<way>` line |
| Osm.OutputIntegrity | dr2osm.c:127-135 | every `<nd>` reference names a written `<node>`; no two `<node>` lines share an id or a point; no way shares its id with a node |
| Osm.FileIntegrity | dr2osm.c:339-360 | the file body is the `<node>` lines, then exactly one `<way>` line per way in row order; every `<nd>` reference names a `<node>` line written before the ways; no two elements share an id |
| Osm.ElementIdsDistinct | dr2osm.c:339-360 | node lines and way lines whose ids the log gives to distinct holders never share an id |
| Osm.RunSpec | dr2osm.c:290-335 | the row loop buffers exactly one way per row, after the ways buffered before |
| Osm.RunSpecConsistent | dr2osm.c:290-335 | the row loop keeps the ids consistent, and the log only grows |
| Osm.RunSpecWays | dr2osm.c:290-335 | way k of the run is what handle_row makes of row k after the rows before it |
| Dr2Osm.Converter.Init | dr2osm.c:273-288 | the converter after set-up: the invariants hold, last_id and num_ways are 0, nothing written or buffered |
| Dr2Osm.Converter.GenerateId | dr2osm.c:73-81 | succeeds exactly when last_id is below INT_MAX, then returns last_id + 1, which is positive and the new last_id; otherwise last_id wraps to INT_MIN and the positivity check fails |
| Dr2Osm.Converter.VisitPoints | dr2osm.c:103-138 | on success the points kept by the walk in the row's direction have been visited in order, and their ids pushed; an assert fails only on a wrapped last_id or an overfull node buffer |
| Dr2Osm.Converter.AdvancePoint | dr2osm.c:107-137 | one loop pass skips a point equal to prev or visits it, keeping the loop's invariants for one more point |
| Dr2Osm.PointAt | dr2osm.c:109-113 | the point taken in pass i is point i of the walk in the row's direction |
| Dr2Osm.Converter.VisitKept | dr2osm.c:125-137 | visiting a kept point is one more step of VisitAll |
| Dr2Osm.Converter.VisitPoint | dr2osm.c:125-137 | the node for the point and the push of its id change the ids as Visit says |
| Dr2Osm.Converter.NodeFor | dr2osm.c:125-135 | node_upsert plus an id for a node without one change the ids as Visit says and yield the point's id; an assert fails only on a wrapped last_id or an overfull node buffer |
| Dr2Osm.Converter.IdFor | dr2osm.c:127-135 | the node found keeps its id, or a node without one gets the next id, as Visit says; it halts only when generate_id overflows |
| Dr2Osm.Converter.FreshId | dr2osm.c:127-135 | a node without an id gets the next id, as Visit says; it halts only when generate_id overflows |
| Dr2Osm.Converter.NewNodeId | dr2osm.c:127-135 | the node gets the next id, which is logged to its point and written as a `<node>` line; it halts only when generate_id overflows |
| Dr2Osm.Converter.Run | dr2osm.c:290-360 | on success the ids and ways are RunSpec's, the ids are consistent, the file body is the node lines then one way line per row, and the way buffer is empty |
| Dr2Osm.Converter.RunRows | dr2osm.c:290-335 | on success every row has been handled in order, as RunSpec says |
| Dr2Osm.Converter.ProcessRow | dr2osm.c:315-319 | num_ways overflowing fails the check; otherwise it counts the row and handles it as RowSpec says |
| Dr2Osm.Converter.Flush | dr2osm.c:339-360 | the flush writes the `<way>` lines of all buffered ways, in order, and empties the way buffer |
| Dr2Osm.Converter.FlushStep | dr2osm.c:340-359 | one pass pops the first remaining way's record, leaves the records of the rest, and writes that way's `<way>` line after the earlier ones |
| Dr2Osm.Converter.HandleRow | dr2osm.c:83-204 | a row handled without a halt had an envelope indicator of at most 4; an assert fails only on an indicator above 4, a wrapped last_id or an overfull node buffer, so the header asserts never stop it; the ids then become RowSpec's and its way is buffered after the others |
| Dr2Osm.Converter.HandleLine | dr2osm.c:103-203 | after the envelope check, the point loop and the end of the record leave the ids and ways as RowSpec says; an assert fails only on a wrapped last_id or an overfull node buffer |
| Dr2Osm.Converter.FinishWay | dr2osm.c:140-203 | the end of handle_row buffers the given way, its id being the next one; an assert fails only when generate_id overflows |
| Dr2Osm.Converter.RecordWay | dr2osm.c:140-141 | a completed record adds the way and its id to the bookkeeping |
| Dr2Osm.Converter.EndRecord | dr2osm.c:140-203 | the 0, the way id stored into the placeholder, the tags and the name complete the record, whose id is the next id; an assert fails only when generate_id overflows |
| Dr2Osm.Converter.PushStaged | dr2osm.c:89 | a push while a record is built appends the int and yields its offset; it never halts on an assert |
| Dr2Osm.Converter.StoreStaged | dr2osm.c:141 | the store through way_id replaces the record's placeholder with the way id |
| Dr2Osm.Converter.PushTags | dr2osm.c:175-202 | the highway, route, oneway and speed limit are pushed in that order |
| Dr2Osm.Converter.PushTail | dr2osm.c:175-203 | the tags and then the name's chunks end the record |
| Dr2Osm.Setup | dr2osm.c:265-279 | no converter exactly when a reservation is refused; a commit failure exactly when the first node block is refused; otherwise a fresh converter whose arena is the root alone, with no ids, ways or output |
| Dr2Osm.RootConsistent | dr2osm.c:277-279 | the root alone is a tree with no ids |
| Dr2Osm.WayOfRow | dr2osm.c:140-203 | the way buffered for a row takes the next id, has the row's tags, speed limit and name, and keeps the ids consistent |
| Dr2Osm.VisitStep | dr2osm.c:125-135 | a visit case by case: a node with an id yields it, a node without one gets the next id |

## Left out

- The operating system's memory calls are not modelled: `reserve_memory`, the `mmap`/`mprotect`/`VirtualAlloc` calls and the error messages (src/buffer.c:8-76; the inline `mprotect` of buffer.c:42-52). Their answers are parameters.
- buffer.c is an older copy of src/buffer.c with the commit done inline. Its behaviour is the same, so both are modelled by the same members.
- The database, projection and output are I/O and third-party libraries, so they are left out:
  - the SQLite query, the column name and type asserts, and the `SQLITE_BUSY` and error branches of the row loop (dr2osm.c:244-335). The model takes the rows as a sequence;
  - PROJ reprojection (dr2osm.c:130-131, 221-228). `<node>` elements keep grid coordinates;
  - the argv handling and file opening, the XML header and footer (dr2osm.c:283-284, 362) and the cleanup.
- Floating point is left out. Rounding with `(int)(p + 0.5)` (dr2osm.c:115-116) is not modelled: rows carry the rounded integer points.
- The packed blob structs are not modelled. A row carries the flags byte, the WKB byte order and type, and the points.
- Point coordinates are unbounded integers. They come from the `(int)` cast of a rounded double (dr2osm.c:115-116), which is undefined in C outside the `int` range. The integer columns of a row are 32-bit (`Int32`).
- `setjmp`/`longjmp` is modelled as an `Outcome` that stops the run. Cleanup after a halt is not modelled.
- The model covers the debug build. With `RELEASE_BUILD` every `assert` expands to nothing (dr2osm.c:17-21). Overflows would then go on with negative ids or counts. That build is not modelled.
- GrowableBuffers.GrowableBuffer.Pop: its asserts (src/buffer.c:131-133) are preconditions, not traps. The same holds for WayCodec.PopInt, WayCodec.PopString, Ways.PopWay and Ways.PopNodeIds. Flush is proved to meet them, so the traps cannot fire.
- WayCodec.PopString: the zero-byte `buffer_pop` that returns the string's start (src/buffer.c:180) changes nothing and is not a call. The name is returned as a value, not a pointer into the buffer.
- The model assumes a little-endian host with a 32-bit two's-complement `int`. Reading a chunk through `*(int *)` depends on the host byte order.
- Names are non-NULL, NUL-free byte strings, and the converter requires this of its rows. The name column is `COALESCE(tienimi_su, tienimi_ru, tienimi_sa)` with no fallback (dr2osm.c:69), so it is NULL for an unnamed link. The column-type assert at dr2osm.c:313 then traps in a debug build. A release build passes a NULL pointer to `way_buffer_push_string`, which reads through it (src/buffer.c:159). The column checks are not modelled.
- Dr2Osm.Converter.ProcessRow: `num_ways++` at INT_MAX is undefined in C. The model wraps it, so the `assert` after it fails.
- Dr2Osm.Converter.GenerateId: the same applies to `++last_id` at INT_MAX.
- NodeTree.AttachNew: the `offset > 0` half of the assert at src/buffer.c:220 always holds, so only the `< INT_MAX` half can halt.
- The pointer `way_id` is modelled as the byte offset of the placeholder.
- Pointers into the node arena are slot indices. `current += offset` moves by whole nodes.
- `Query_Context`, `Program_Configuration`, `Row_Function` and `Wkb_Line_String_Any` in types.h are not part of this model. dr2osm.c does not use them.

## Findings

| source | as written | input that shows it | evidently intended | confidence | as-written member | corrected member |
|---|---|---|---|---|---|---|
| dr2osm.c:100-101 | `assert(line_string->byte_order = 1)` and `assert(line_string->type = 3002)` assign instead of compare, so they always pass and overwrite the header fields | a blob with byte order 0 (big endian) and type 1002 (LineString Z) passes both checks, and the point loop then reads it as little-endian ZM points | `==`: only byte order 1 and type 3002 are accepted | not executed | Rows.WkbHeaderAcceptedAsWritten, Rows.AsWrittenAcceptsBigEndian | Rows.WkbHeaderAccepted, Rows.HeaderChecksDiffer |

`Dr2Osm.Converter.HandleRow` follows the checks as written, so no header
stops a row. `Rows.WkbHeaderAccepted` is the corrected check, and
`Rows.HeaderChecksDiffer` proves which headers it rejects that the
as-written checks let through.
