# ExplorViz backend: event-record codec and landscape preparation, in Dafny

This project models two pieces of the ExplorViz backend and proves properties about them.

1. **The binary codec for live-trace event records** (`AbstractEventRecord` and its leaf kind
   `AfterFailedJDBCOperationEventRecord`).
   - An event is written into a `java.nio.ByteBuffer` in this order: its `traceId` (8 bytes),
     its `orderIndex` (4 bytes), the size of its host-metadata list (4 bytes), then every
     non-null metadata entry.
   - The decoding constructor reads the same fields back.
   - The JDBC leaf kind frames the event as `tag | record size | payload`. The tag is always the
     "relayed by a worker" tag 84 = 20 + 64.
2. **`LandscapePreparer.prepareLandscape`**, which walks systems → node groups → nodes →
   applications → component trees. It works in place:
   - It builds a foundation component for each application.
   - It sets the initial `opened` flags of components and node groups.
   - It appends every outgoing application communication to its source application's list.

Files:
- `wrappers.dfy`: `Option` stands for a Java `null`; `Result` stands for the exceptions the
  decoders throw.
- `big_endian.dfy`: Java `byte`/`int`/`long` and the big-endian order `ByteBuffer` uses by
  default. Both directions of the round trip are proved.
- `byte_buffer.dfy`: a class over an `array` with a cursor (`position`) and a `limit`. Its puts
  and gets advance the cursor; a get past the limit is a buffer underflow.
- `event_record.dfy`: the event layout as functions, the buffer-level methods proved against
  them, and the layout properties.
- `jdbc_event_record.dfy`: the JDBC frame, its constants and its `compareTo`.
- `opening_rule.dfy`: the rule that decides which components start opened, stated as a function
  on a tree value, with its properties.
- `landscape.dfy`: the object graph the preparer walks.
- `landscape_preparer.dfy`: the preparer itself, as methods that update the graph in place.
  - Each method is proved against the opening rule and the node-group rule.
  - Communication wiring is proved against `CommsFrom`, the in-order list of a source's
    communications.

Facts about the Java code that the model keeps:
- The JDBC record only ever writes the worker tag 84, never the direct tag 20.
- `getRecordSizeInBytes` counts the 4-byte length prefix but not the 1-byte tag.
- Decoding fails only with a buffer underflow or an unknown string id (`IdNotAvailableException`).
- A null metadata entry is skipped with diagnostics, while the list size written before it still
  counts it. See "## Findings".

## Model

Sources are abbreviated by their file names below. The full paths are:
- `analysis-service/src/main/java/net/explorviz/common/live_trace_processing/record/event/AbstractEventRecord.java`
- `analysis-service/src/main/java/net/explorviz/common/live_trace_processing/record/event/jdbc/AfterFailedJDBCOperationEventRecord.java`
- `src/main/java/net/explorviz/repository/LandscapePreparer.java`

| member | source | states |
|---|---|---|
| BigEndian.Int64Bytes | analysis-service/src/main/java/net/explorviz/common/live_trace_processing/record/event/AbstractEventRecord.java:72 | `putLong` writes exactly eight bytes |
| BigEndian.Int32Bytes | analysis-service/src/main/java/net/explorviz/common/live_trace_processing/record/event/AbstractEventRecord.java:73-74 | `putInt` writes exactly four bytes |
| BigEndian.Int8Of | analysis-service/src/main/java/net/explorviz/common/live_trace_processing/record/event/jdbc/AfterFailedJDBCOperationEventRecord.java:30 | a tag byte read back as a signed Java `byte` is written as that same byte again |
| BigEndian.Int32RoundTrip | analysis-service/src/main/java/net/explorviz/common/live_trace_processing/record/event/AbstractEventRecord.java:73-74 | `getInt` reads back every `int` that `putInt` wrote |
| BigEndian.Int32BytesRoundTrip | analysis-service/src/main/java/net/explorviz/common/live_trace_processing/record/event/AbstractEventRecord.java:42-43 | every 4 bytes `getInt` reads are exactly what `putInt` writes for the value read |
| BigEndian.Int64RoundTrip | analysis-service/src/main/java/net/explorviz/common/live_trace_processing/record/event/AbstractEventRecord.java:72 | `getLong` reads back every `long` that `putLong` wrote |
| BigEndian.Int64BytesRoundTrip | analysis-service/src/main/java/net/explorviz/common/live_trace_processing/record/event/AbstractEventRecord.java:41 | every 8 bytes `getLong` reads are exactly what `putLong` writes for the value read |
| BigEndian.Int32BytesBigEndian | analysis-service/src/main/java/net/explorviz/common/live_trace_processing/record/event/AbstractEventRecord.java:73 | the most significant byte of an `int` comes first, the least significant last |
| Buffers.ReadBytes | analysis-service/src/main/java/net/explorviz/common/live_trace_processing/record/event/AbstractEventRecord.java:41-43 | a relative get succeeds exactly when enough bytes remain, and takes the first of them; otherwise it underflows |
| Buffers.ByteBuffer.PutBytes | analysis-service/src/main/java/net/explorviz/common/live_trace_processing/record/event/AbstractEventRecord.java:72-78 | a relative put appends its bytes after those already written and leaves the limit alone |
| Buffers.ByteBuffer.Put | analysis-service/src/main/java/net/explorviz/common/live_trace_processing/record/event/jdbc/AfterFailedJDBCOperationEventRecord.java:30 | `put(byte)` appends the byte's two's-complement encoding |
| Buffers.ByteBuffer.PutInt | analysis-service/src/main/java/net/explorviz/common/live_trace_processing/record/event/AbstractEventRecord.java:73-74 | `putInt` appends the four big-endian bytes of the `int` |
| Buffers.ByteBuffer.PutLong | analysis-service/src/main/java/net/explorviz/common/live_trace_processing/record/event/AbstractEventRecord.java:72 | `putLong` appends the eight big-endian bytes of the `long` |
| Buffers.ByteBuffer.GetBytes | analysis-service/src/main/java/net/explorviz/common/live_trace_processing/record/event/AbstractEventRecord.java:47 | a bulk get yields the next bytes and moves the cursor past them, or underflows and leaves the cursor in place |
| Buffers.ByteBuffer.GetInt | analysis-service/src/main/java/net/explorviz/common/live_trace_processing/record/event/AbstractEventRecord.java:42-43 | `getInt` decodes the next four bytes and moves the cursor by four, or underflows |
| Buffers.ByteBuffer.GetLong | analysis-service/src/main/java/net/explorviz/common/live_trace_processing/record/event/AbstractEventRecord.java:41 | `getLong` decodes the next eight bytes and moves the cursor by eight, or underflows |
| EventRecords.NewEventRecord | analysis-service/src/main/java/net/explorviz/common/live_trace_processing/record/event/AbstractEventRecord.java:32-37 | the sender constructor keeps `traceId` and `orderIndex`; the list holds exactly one element, the given entry (possibly null) |
| EventRecords.CountPresent | analysis-service/src/main/java/net/explorviz/common/live_trace_processing/record/event/AbstractEventRecord.java:76-79 | the non-null entries number at most the list size, and equal it exactly when no entry is null |
| EventRecords.EncodeEvent | analysis-service/src/main/java/net/explorviz/common/live_trace_processing/record/event/AbstractEventRecord.java:70-90 | the bytes `putIntoByteBuffer` writes: 16 header bytes whose fields read back as `traceId`, `orderIndex` and the list size, followed by the entry bytes |
| EventRecords.ParseEntry | analysis-service/src/main/java/net/explorviz/common/live_trace_processing/record/event/AbstractEventRecord.java:46-47 | one entry decodes exactly when a whole entry's bytes remain and the registry knows its ids; too few bytes is an underflow, anything else an unknown id |
| EventRecords.ParseEntries | analysis-service/src/main/java/net/explorviz/common/live_trace_processing/record/event/AbstractEventRecord.java:45-48 | a successful decode of `count` entries yields exactly `count` non-null entries and consumes no more than is there |
| EventRecords.ParseEvent | analysis-service/src/main/java/net/explorviz/common/live_trace_processing/record/event/AbstractEventRecord.java:39-49 | a decoded event's `traceId` and `orderIndex` are the big-endian values of bytes 0-8 and 8-12. Its list has as many entries as bytes 12-16 announce, none if that count is negative. At least 16 bytes are consumed |
| EventRecords.Wrap32 | analysis-service/src/main/java/net/explorviz/common/live_trace_processing/record/event/AbstractEventRecord.java:94-95 | Java `int` arithmetic agrees with exact arithmetic whenever the result fits an `int` |
| EventRecords.PutIntoByteBuffer | analysis-service/src/main/java/net/explorviz/common/live_trace_processing/record/event/AbstractEventRecord.java:70-90 | the buffer gains exactly the encoding of the event, after what was already written; the limit is unchanged |
| EventRecords.PutHeader | analysis-service/src/main/java/net/explorviz/common/live_trace_processing/record/event/AbstractEventRecord.java:72-74 | the three header puts append `traceId`, `orderIndex` and the list size, big-endian and in that order, 16 bytes in all |
| EventRecords.PutMetadataList | analysis-service/src/main/java/net/explorviz/common/live_trace_processing/record/event/AbstractEventRecord.java:76-89 | the loop appends each non-null entry's bytes in list order and nothing for a null entry |
| EventRecords.PutEntryAt | analysis-service/src/main/java/net/explorviz/common/live_trace_processing/record/event/AbstractEventRecord.java:77-88 | one pass of the loop extends what was written by entry `i`'s bytes and keeps room for the rest |
| EventRecords.CreateFromByteBuffer | analysis-service/src/main/java/net/explorviz/common/live_trace_processing/record/event/AbstractEventRecord.java:39-49 | the decoding constructor succeeds exactly when `ParseEvent` of the remaining bytes does. It yields the same event, moves the cursor by the bytes consumed, and otherwise fails with the same error |
| EventRecords.CreateMetadataList | analysis-service/src/main/java/net/explorviz/common/live_trace_processing/record/event/AbstractEventRecord.java:45-48 | the counted loop (zero passes for a negative count) yields what `ParseEntries` yields, with the cursor past the entries, or its error |
| EventRecords.ReadEntry | analysis-service/src/main/java/net/explorviz/common/live_trace_processing/record/event/AbstractEventRecord.java:46-47 | one pass reads one entry's bytes and hands them to the metadata factory; it fails as `ParseEntry` does |
| EventRecords.ReadEntryAt | analysis-service/src/main/java/net/explorviz/common/live_trace_processing/record/event/AbstractEventRecord.java:45-48 | one round of the counted loop either ends the decode with the error `ParseEntries` gives, or reads the next entry and moves the cursor past it, keeping the entries read plus the decode of the rest equal to the whole decode |
| EventRecords.ParseEntriesConsumed | analysis-service/src/main/java/net/explorviz/common/live_trace_processing/record/event/AbstractEventRecord.java:45-48 | decoding `count` entries consumes exactly `count` entry lengths |
| EventRecords.ParseEventConsumed | analysis-service/src/main/java/net/explorviz/common/live_trace_processing/record/event/AbstractEventRecord.java:39-48 | after a successful decode the list length equals the count read from the buffer, and 16 bytes plus one entry length per entry were consumed |
| EventRecords.ParseEntriesSlices | analysis-service/src/main/java/net/explorviz/common/live_trace_processing/record/event/AbstractEventRecord.java:45-48 | with the bytes of all `count` entries present, the decoding loop succeeds exactly when the metadata factory accepts every entry-length slice, and otherwise fails with IdNotAvailable |
| EventRecords.ParseEntriesRejectsAt | analysis-service/src/main/java/net/explorviz/common/live_trace_processing/record/event/AbstractEventRecord.java:45-48 | once the bytes of entry `k` are there and the factory rejects them (ids the registry lacks), the whole decode fails with IdNotAvailable, whether or not later entries follow |
| EventRecords.ParseEntriesValues | analysis-service/src/main/java/net/explorviz/common/live_trace_processing/record/event/AbstractEventRecord.java:45-48 | in a successful decode, entry `k` is what the factory makes of bytes `k·H` to `(k+1)·H`, and `count·H` bytes are consumed |
| EventRecords.ParseEntriesContents | analysis-service/src/main/java/net/explorviz/common/live_trace_processing/record/event/AbstractEventRecord.java:45-48 | every entry of a successful decode is the factory's result on its own slice, whatever bytes the stream held |
| EventRecords.ParseEventEntries | analysis-service/src/main/java/net/explorviz/common/live_trace_processing/record/event/AbstractEventRecord.java:39-49 | entry `k` of a decoded event is the factory's result on the `k`-th entry-length slice after the 16 header bytes |
| EventRecords.ParseEventIdNotAvailable | analysis-service/src/main/java/net/explorviz/common/live_trace_processing/record/event/AbstractEventRecord.java:39-49 | with the header and all announced entries present, the decoding constructor succeeds exactly when every entry's ids are known, and otherwise fails with IdNotAvailable |
| EventRecords.EntrySlicesAt | analysis-service/src/main/java/net/explorviz/common/live_trace_processing/record/event/AbstractEventRecord.java:45-47 | the `k`-th entry the loop reads starts `k` entry lengths after the first |
| EventRecords.PutEntriesLength | analysis-service/src/main/java/net/explorviz/common/live_trace_processing/record/event/AbstractEventRecord.java:76-89 | the entries take one entry length per non-null element and nothing per null element |
| EventRecords.EncodeEventLength | analysis-service/src/main/java/net/explorviz/common/live_trace_processing/record/event/AbstractEventRecord.java:72-89 | encoding writes 16 bytes plus one entry length per non-null entry |
| EventRecords.EncodeEventHeader | analysis-service/src/main/java/net/explorviz/common/live_trace_processing/record/event/AbstractEventRecord.java:72-74 | `traceId`, `orderIndex` and the list size come first, big-endian and in that order, then the entries |
| EventRecords.EntriesRoundTrip | analysis-service/src/main/java/net/explorviz/common/live_trace_processing/record/event/AbstractEventRecord.java:45-47 | with a round-tripping metadata codec, the written entries of a null-free list decode back to that list, whatever follows |
| EventRecords.EventRoundTrip | analysis-service/src/main/java/net/explorviz/common/live_trace_processing/record/event/AbstractEventRecord.java:39-49 | decode(encode(e)) = e for every event without null entries, and exactly the encoded bytes are consumed |
| EventRecords.RecordSizeInBytes | analysis-service/src/main/java/net/explorviz/common/live_trace_processing/record/event/AbstractEventRecord.java:93-96 | `getRecordSizeInBytes` = 20 + n·H whenever that fits an `int`: linear in the list size (null entries included), 20 for an empty list |
| EventRecords.RecordSizeVersusEncoding | analysis-service/src/main/java/net/explorviz/common/live_trace_processing/record/event/AbstractEventRecord.java:93-96 | the declared size is 4 (the length prefix) plus the encoded bytes plus H per null entry; with no null entry it is exactly prefix plus encoding |
| EventRecords.NullEntryBreaksRoundTrip | analysis-service/src/main/java/net/explorviz/common/live_trace_processing/record/event/AbstractEventRecord.java:77-88 | an event with a null entry never decodes back to itself, whatever follows its bytes |
| EventRecords.NullEntryMisframes | analysis-service/src/main/java/net/explorviz/common/live_trace_processing/record/event/AbstractEventRecord.java:74-88 | a one-entry event whose entry is null is written as a bare 16-byte header announcing one entry. Alone it underflows; followed by other bytes, it swallows the next H of them |
| EventRecords.EncodeChecked | analysis-service/src/main/java/net/explorviz/common/live_trace_processing/record/event/AbstractEventRecord.java:74-89 | the intended encoding fails exactly when some entry is null, and otherwise is the layout `putIntoByteBuffer` writes |
| EventRecords.CheckedRoundTrip | analysis-service/src/main/java/net/explorviz/common/live_trace_processing/record/event/AbstractEventRecord.java:39-49 | whatever the intended encoding accepts decodes back to itself, and its count field announces exactly the entries that follow |
| EventRecords.PutIntoByteBufferChecked | analysis-service/src/main/java/net/explorviz/common/live_trace_processing/record/event/AbstractEventRecord.java:70-90 | the intended `putIntoByteBuffer` fails exactly on a null entry and then writes nothing; otherwise it writes the intended encoding |
| EventRecords.CompareTo | analysis-service/src/main/java/net/explorviz/common/live_trace_processing/record/event/AbstractEventRecord.java:99-121 | 0 for every event record, -1 for every other kind of record |
| EventRecords.CompareToIgnoresFields | analysis-service/src/main/java/net/explorviz/common/live_trace_processing/record/event/AbstractEventRecord.java:99-121 | no field of the receiver influences the comparison |
| JdbcEventRecords.NewAfterFailedJdbcOperationEventRecord | analysis-service/src/main/java/net/explorviz/common/live_trace_processing/record/event/jdbc/AfterFailedJDBCOperationEventRecord.java:16-20 | timestamp, cause, traceId, orderIndex and the metadata entry reach the record unchanged |
| JdbcEventRecords.Frame | analysis-service/src/main/java/net/explorviz/common/live_trace_processing/record/event/jdbc/AfterFailedJDBCOperationEventRecord.java:28-33 | the bytes `putIntoByteBuffer` writes are 1 + 4 + payload long, and a reader splits them into exactly the worker tag, the record size and the superclass bytes |
| JdbcEventRecords.PutIntoByteBuffer | analysis-service/src/main/java/net/explorviz/common/live_trace_processing/record/event/jdbc/AfterFailedJDBCOperationEventRecord.java:28-33 | the buffer gains exactly the frame: worker tag, record size, superclass bytes |
| JdbcEventRecords.CreateFromByteBuffer | analysis-service/src/main/java/net/explorviz/common/live_trace_processing/record/event/jdbc/AfterFailedJDBCOperationEventRecord.java:22-25 | the decoding constructor reads no tag and no size: it decodes the remaining bytes exactly as the superclass does, or fails with its error |
| JdbcEventRecords.SplitFrame | analysis-service/src/main/java/net/explorviz/common/live_trace_processing/record/event/jdbc/AfterFailedJDBCOperationEventRecord.java:30-31 | a reader splits a frame iff it has at least 5 bytes, into the tag byte, the big-endian size and the rest |
| JdbcEventRecords.ClazzIds | analysis-service/src/main/java/net/explorviz/common/live_trace_processing/record/event/jdbc/AfterFailedJDBCOperationEventRecord.java:13-14 | the tags are 20 and 20 + 64 = 84, distinct, and both Java `byte` values |
| JdbcEventRecords.FrameLayout | analysis-service/src/main/java/net/explorviz/common/live_trace_processing/record/event/jdbc/AfterFailedJDBCOperationEventRecord.java:28-33 | a frame is 1 + 4 + payload bytes. It starts with 84, never 20, and carries the record size big-endian in bytes 1-5, then exactly the superclass bytes |
| JdbcEventRecords.FrameRoundTrip | analysis-service/src/main/java/net/explorviz/common/live_trace_processing/record/event/jdbc/AfterFailedJDBCOperationEventRecord.java:22-33 | a reader finds the worker tag and the size in a written frame, and the decoding constructor gets the record back from the rest |
| JdbcEventRecords.CompareTo | analysis-service/src/main/java/net/explorviz/common/live_trace_processing/record/event/jdbc/AfterFailedJDBCOperationEventRecord.java:36-41 | 0 exactly for another record of this class (the event comparison), -1 for anything else |
| JdbcEventRecords.CompareToNotAntisymmetric | analysis-service/src/main/java/net/explorviz/common/live_trace_processing/record/event/jdbc/AfterFailedJDBCOperationEventRecord.java:36-41 | a JDBC event puts itself before a plain event, which finds the JDBC event equal: the two comparators are no ordering |
| OpeningRule.Opened | src/main/java/net/explorviz/repository/LandscapePreparer.java:57-73 | the component ends up opened exactly when reached with "should be opened", and the structure is not changed |
| OpeningRule.OpenedKeepsSkeleton | src/main/java/net/explorviz/repository/LandscapePreparer.java:57-73 | `setComponentAttributes` rewrites flags only, never the tree structure |
| OpeningRule.OpenedIgnoresFlags | src/main/java/net/explorviz/repository/LandscapePreparer.java:57-73 | the flags it leaves depend on the tree structure alone, not on the flags found |
| OpeningRule.OpenedIdempotent | src/main/java/net/explorviz/repository/LandscapePreparer.java:57-73 | applying the rule a second time changes nothing |
| OpeningRule.ClosedBelow | src/main/java/net/explorviz/repository/LandscapePreparer.java:61-72 | reached without "should be opened", a component and its whole subtree end up closed |
| OpeningRule.OpenedAlongPath | src/main/java/net/explorviz/repository/LandscapePreparer.java:57-73 | a component ends up opened iff its subtree was reached with "should be opened" and every component strictly above it has exactly one child |
| Landscapes.Component.Foundation | src/main/java/net/explorviz/repository/LandscapePreparer.java:25-32 | the foundation component is a foundation, opened, named (short and full name) after the application, belongs to it, and has its components as children, as the root of a tree over them |
| Landscapes.Landscape.constructor | src/main/java/net/explorviz/repository/LandscapePreparer.java:15 | a new landscape has no systems and no communications |
| LandscapePreparation.SetComponentAttributes | src/main/java/net/explorviz/repository/LandscapePreparer.java:57-73 | the subtree's flags become exactly those of the opening rule applied to its old shape, whatever `index` is |
| LandscapePreparation.SetChildrenAttributes | src/main/java/net/explorviz/repository/LandscapePreparer.java:70-72 | every child subtree's flags become the rule's, from `openNextLevel` |
| LandscapePreparation.PrepareApplication | src/main/java/net/explorviz/repository/LandscapePreparer.java:23-37 | a fresh foundation component as above, the valid root of a tree over the components, and every top-level component tree flagged by the rule from "should be opened" (so every top-level component is opened) |
| LandscapePreparation.SetComponentAttributesAt | src/main/java/net/explorviz/repository/LandscapePreparer.java:34-36 | one pass over the foundation's children extends the prefix of trees already flagged by the rule by one |
| LandscapePreparation.PrepareNode | src/main/java/net/explorviz/repository/LandscapePreparer.java:22-38 | every component tree of the node's applications is flagged by the rule from "should be opened" |
| LandscapePreparation.PrepareApplicationAt | src/main/java/net/explorviz/repository/LandscapePreparer.java:23-37 | one pass over the applications extends the flagged prefix by that application's trees |
| LandscapePreparation.PrepareNodeGroup | src/main/java/net/explorviz/repository/LandscapePreparer.java:21-45 | the node group is opened iff it has exactly one node, and all its component trees are flagged by the rule |
| LandscapePreparation.PrepareNodeAt | src/main/java/net/explorviz/repository/LandscapePreparer.java:22-39 | one pass over the nodes extends the flagged prefix by that node's trees |
| LandscapePreparation.PrepareSystem | src/main/java/net/explorviz/repository/LandscapePreparer.java:21-47 | every node group of the system is opened iff it has exactly one node, and all its component trees are flagged by the rule |
| LandscapePreparation.PrepareNodeGroupAt | src/main/java/net/explorviz/repository/LandscapePreparer.java:21-47 | one pass over the node groups extends both the groups with the right flag and the flagged trees |
| LandscapePreparation.PrepareSystems | src/main/java/net/explorviz/repository/LandscapePreparer.java:20-48 | every node group of the landscape is opened iff it has exactly one node, and every component tree is flagged by the rule |
| LandscapePreparation.PrepareSystemAt | src/main/java/net/explorviz/repository/LandscapePreparer.java:20-48 | one pass over the systems extends both the systems whose groups are flagged and the flagged trees |
| LandscapePreparation.CommsFromMembers | src/main/java/net/explorviz/repository/LandscapePreparer.java:75-80 | an application's share of the communications holds exactly those whose source it is |
| LandscapePreparation.CommsFromNext | src/main/java/net/explorviz/repository/LandscapePreparer.java:51-53 | one more communication extends its source's share by itself and leaves every other share alone |
| LandscapePreparation.CommsFromCount | src/main/java/net/explorviz/repository/LandscapePreparer.java:75-80 | no deduplication: a communication is in its source's share as often as it is in the list |
| LandscapePreparation.CreateOutgoingApplicationCommunication | src/main/java/net/explorviz/repository/LandscapePreparer.java:75-80 | a communication with a source is appended to that source's outgoing list; one without a source changes nothing |
| LandscapePreparation.ConnectCommunications | src/main/java/net/explorviz/repository/LandscapePreparer.java:51-53 | each source application's outgoing list grows by exactly its communications, in order; no other application changes |
| LandscapePreparation.ConnectAt | src/main/java/net/explorviz/repository/LandscapePreparer.java:51-53 | one pass over the communications appends it to its source's list only |
| LandscapePreparation.PrepareLandscape | src/main/java/net/explorviz/repository/LandscapePreparer.java:13-55 | a null landscape gives a fresh empty one. Any other is returned as the same object: node groups opened iff they have one node, and communications appended to their sources |
| LandscapePreparation.PrepareExisting | src/main/java/net/explorviz/repository/LandscapePreparer.java:20-54 | on an existing landscape: node groups opened iff one node, every component tree flagged by the rule from "should be opened", and every source's list extended by its communications in order |

## Left out

- The metadata entry (`HostApplicationMetaDataRecord`) and the string registries are not part of
  this model. The codec sees them through `MetadataCodec`:
  - a fixed entry length H;
  - the bytes an entry writes;
  - a lookup that yields no entry where the receiver registry lacks an id (`IdNotAvailableException`).
  Round trips assume a codec with fixed-length entries that round-trips (`Sound`).
- `AbstractAfterFailedEventRecord` is not part of this model. What it writes, the size it reports
  and how it decodes are the parameters of `AfterFailedCodec`. Its `compareTo` is taken to be the
  event comparison of `AbstractEventRecord`.
- The dispatcher that reads the tag and the size before calling a decoding constructor is not part
  of this model. `SplitFrame` states what such a reader has to do.
- Buffer overflow is not modelled. Every put requires room in the buffer; sizing the buffer is
  left to the caller, whose code is not part of this model. A JDBC frame needs 1 + 4 + payload
  bytes, one more than a size that counts the length prefix but not the tag; whether callers
  allow for that byte is not known here.
- ParseEntry: the model reads an entry's H bytes before resolving any of its ids, so an entry cut
  off by the end of the buffer always underflows. `HostApplicationMetaDataRecord.createFromByteBuffer`
  is not part of this model; if it resolves an id before reading the rest of its entry, a cut-off
  entry may instead fail with `IdNotAvailableException`.
- The tag-inclusive constants `COMPRESSED_BYTE_LENGTH_WITH_CLAZZ_ID` and
  `BYTE_LENGTH_WITH_CLAZZ_ID` are used by none of the modelled code and are left out.
- A failing decode leaves the buffer cursor wherever the failing get left it. Only success moves
  it by a stated amount.
- The `System.out` diagnostics in the null-entry branch of `putIntoByteBuffer` are left out. They
  write nothing to the buffer.
- The `writer` argument of `putIntoByteBuffer` is left out. It is handed on to the metadata entry
  and is never used by the event itself.
- `toString` and the getters are left out.
- Records are modelled as immutable values. Encoding therefore cannot change `traceId`,
  `orderIndex` or the list; this is not stated as a lemma of its own.
- `Landscape.initializeID` and `NodeGroup.updateName` are not part of this model. Ids and names
  are not represented.
- The foundation component is returned by `PrepareApplication` and then dropped, as in
  `prepareLandscape`, where it is attached to no other object.
  - `getChildren().addAll` on a fresh, empty child list is modelled as the constructor setting the
    children.
- PrepareSystems: the component trees of a landscape are required to be disjoint trees (`Forest`).
  Shared subtrees or cycles would make the order of the recursive visits observable, and those
  are not modelled.
- The links the preparer only follows are `const`: systems, node groups, nodes, applications,
  children and communication sources.
- Every loop body of the preparer is its own method (the `...At` members), so that each loop is
  proved one round at a time. The order of writes is that of `prepareLandscape`.
- Calling the preparation twice is not stated as a member of its own. It follows from the
  contracts of PrepareExisting together with `OpenedIdempotent` and `CommsFromCount`:
  - the flags do not change the second time;
  - every communication is appended a second time.
- PrepareLandscape states the flagging of the component trees only for the non-null case, through
  PrepareExisting, which it calls.
- Concurrency (the thread-safety of the registries) is left out.

## Findings

| source | as written | input that shows it | evidently intended | confidence | as-written member | corrected member |
|---|---|---|---|---|---|---|
| analysis-service/src/main/java/net/explorviz/common/live_trace_processing/record/event/AbstractEventRecord.java:74-88 | the list size is written first, and a null entry is then skipped, so the count announces more entries than follow | the sender constructor with a null metadata entry: 16 header bytes announcing one entry and no entry. A decoder underflows, or swallows the next H bytes of the stream | refuse to encode an event with a null entry, so that the count always matches the entries written | not executed | EventRecords.NullEntryMisframes | EventRecords.EncodeChecked |
