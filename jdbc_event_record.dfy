/**
 * AfterFailedJDBCOperationEventRecord: a leaf event kind that frames the bytes of
 * its superclass AbstractAfterFailedEventRecord as
 *
 *   tag (1 byte, always CLAZZ_ID_FROM_WORKER) | getRecordSizeInBytes (4 bytes) | payload
 *
 * AbstractAfterFailedEventRecord is not part of this model: what it writes, the size it
 * reports and how it decodes are the parameters of `AfterFailedCodec`.
 */
module JdbcEventRecords {
  import opened Wrappers
  import opened BigEndian
  import opened Buffers
  import opened EventRecords

  /** The tag of a record sent directly by a monitored application. */
  const ClazzId: int8 := 20
  /** The tag of the same record relayed by an analysis worker. */
  const ClazzIdFromWorker: int8 := ClazzId + 64

  /** The fields the record carries: those of AbstractAfterFailedEventRecord. */
  datatype AfterFailedJdbcOperationEventRecord<M> = AfterFailedJdbcOperationEventRecord(
    timestamp: int64,
    cause: string,
    event: EventRecord<M>)

  /**
   * What the record needs from its superclass: the bytes its `putIntoByteBuffer` appends,
   * its `getRecordSizeInBytes`, and its decoding constructor applied to the bytes left in a
   * buffer (the record and the number of bytes it consumed, or why it failed).
   */
  datatype AfterFailedCodec<!M> = AfterFailedCodec(
    payload: AfterFailedJdbcOperationEventRecord<M> -> seq<byte>,
    recordSize: AfterFailedJdbcOperationEventRecord<M> -> int32,
    parse: seq<byte> -> Result<(AfterFailedJdbcOperationEventRecord<M>, nat), DecodeError>)

  /** A decoder reading from a buffer never consumes more bytes than are left in it. */
  ghost predicate ParsesWithin<M>(s: AfterFailedCodec<M>)
  {
    forall bs :: s.parse(bs).Success? ==> s.parse(bs).value.1 <= |bs|
  }

  /** The superclass decoder reads back exactly what the superclass encoder wrote. */
  ghost predicate RoundTrips<M(!new)>(s: AfterFailedCodec<M>)
  {
    forall r, rest :: s.parse(s.payload(r) + rest) == Success((r, |s.payload(r)|))
  }

  /** The sender constructor: every argument is handed to the superclass unchanged. */
  function NewAfterFailedJdbcOperationEventRecord<M>(
    timestamp: int64, traceId: int64, orderIndex: int32, cause: string, hostApplicationMetadata: Option<M>)
    : (r: AfterFailedJdbcOperationEventRecord<M>)
    ensures r.timestamp == timestamp && r.cause == cause
    ensures r.event.traceId == traceId && r.event.orderIndex == orderIndex
    ensures r.event.hostApplicationMetadataList == [hostApplicationMetadata]
  {
    AfterFailedJdbcOperationEventRecord(timestamp, cause, NewEventRecord(traceId, orderIndex, hostApplicationMetadata))
  }

  /**
   * The bytes `putIntoByteBuffer` appends: the worker tag, the record size, the superclass
   * bytes; a reader splits them back into exactly those three.
   */
  function Frame<M>(r: AfterFailedJdbcOperationEventRecord<M>, s: AfterFailedCodec<M>): (f: seq<byte>)
    ensures |f| == 1 + 4 + |s.payload(r)|
    ensures SplitFrame(f) == Success((ClazzIdFromWorker, s.recordSize(r), s.payload(r)))
  {
    var f := [Int8Byte(ClazzIdFromWorker)] + Int32Bytes(s.recordSize(r)) + s.payload(r);
    Int32RoundTrip(s.recordSize(r));
    assert f[1..5] == Int32Bytes(s.recordSize(r)) && f[5..] == s.payload(r);
    f
  }

  /** `putIntoByteBuffer`: tag, size, then whatever the superclass writes. */
  method PutIntoByteBuffer<M>(r: AfterFailedJdbcOperationEventRecord<M>, buffer: ByteBuffer, s: AfterFailedCodec<M>)
    requires buffer.Valid()
    requires buffer.position + 5 + |s.payload(r)| <= buffer.limit
    modifies buffer`position, buffer.data
    ensures buffer.Valid() && buffer.limit == old(buffer.limit)
    ensures buffer.Written() == old(buffer.Written()) + Frame(r, s)
  {
    buffer.Put(ClazzIdFromWorker);
    buffer.PutInt(s.recordSize(r));
    buffer.PutBytes(s.payload(r));
  }

  /**
   * The decoding constructor: it reads neither tag nor size and hands the buffer straight
   * to the superclass, so whoever calls it must have consumed both already.
   */
  method CreateFromByteBuffer<M>(buffer: ByteBuffer, s: AfterFailedCodec<M>)
    returns (r: Result<AfterFailedJdbcOperationEventRecord<M>, DecodeError>)
    requires buffer.Valid() && ParsesWithin(s)
    modifies buffer`position
    ensures buffer.Valid() && buffer.limit == old(buffer.limit)
    ensures var p := s.parse(old(buffer.Remaining()));
      && r.Success? == p.Success?
      && (r.Success? ==> r.value == p.value.0 && buffer.position == old(buffer.position) + p.value.1)
      && (r.Failure? ==> r.error == p.error)
  {
    var p := s.parse(buffer.data[buffer.position..buffer.limit]);
    match p
    case Failure(err) =>
      r := Failure(err);
    case Success(decoded) =>
      buffer.position := buffer.position + decoded.1;
      r := Success(decoded.0);
  }

  /**
   * How a reader in front of the decoding constructor takes a frame apart: the signed
   * tag byte, the 4-byte size, and the bytes that follow for the record itself.
   */
  function SplitFrame(bs: seq<byte>): (r: Result<(int8, int32, seq<byte>), DecodeError>)
    ensures r.Success? <==> |bs| >= 5
    ensures r.Success? ==> Int8Byte(r.value.0) == bs[0] && Int32Bytes(r.value.1) == bs[1..5] && r.value.2 == bs[5..]
  {
    if |bs| < 5 then Failure(Underflow)
    else
      Int32BytesRoundTrip(bs[1..5]);
      Success((Int8Of(bs[0]), Int32Of(bs[1..5]), bs[5..]))
  }

  /** The two tags are 20 and 84: distinct, and both Java `byte` values. */
  lemma ClazzIds()
    ensures ClazzId == 20 && ClazzIdFromWorker == 84
    ensures ClazzId != ClazzIdFromWorker
  {
  }

  /**
   * The layout of a frame: the worker tag first (never the direct tag), the record size
   * big-endian in the next four bytes, then exactly the superclass bytes, five bytes in all
   * ahead of them.
   */
  lemma FrameLayout<M>(r: AfterFailedJdbcOperationEventRecord<M>, s: AfterFailedCodec<M>)
    ensures var f := Frame(r, s);
      && |f| == 1 + 4 + |s.payload(r)|
      && f[0] == Int8Byte(ClazzIdFromWorker) && f[0] == 84 && f[0] != Int8Byte(ClazzId)
      && Int32Of(f[1..5]) == s.recordSize(r)
      && f[5..] == s.payload(r)
  {
    var f := Frame(r, s);
    assert f[1..5] == Int32Bytes(s.recordSize(r));
    Int32RoundTrip(s.recordSize(r));
  }

  /**
   * Round trip through a frame: the reader finds the worker tag and the record size, and the
   * decoding constructor, given what follows the header, returns the record and stops where
   * the superclass bytes end.
   */
  lemma {:induction false} FrameRoundTrip<M(!new)>(
    r: AfterFailedJdbcOperationEventRecord<M>, s: AfterFailedCodec<M>, rest: seq<byte>)
    requires RoundTrips(s)
    ensures var split := SplitFrame(Frame(r, s) + rest);
      && split == Success((ClazzIdFromWorker, s.recordSize(r), s.payload(r) + rest))
      && s.parse(split.value.2) == Success((r, |s.payload(r)|))
  {
    var bs := Frame(r, s) + rest;
    FrameLayout(r, s);
    assert bs[0] == Int8Byte(ClazzIdFromWorker);
    assert bs[1..5] == Frame(r, s)[1..5];
    assert bs[5..] == s.payload(r) + rest;
  }

  /**
   * `compareTo`: the record places itself before (-1) anything not of its own class; a
   * record of this class is compared as an event, that is, found equal.
   */
  function CompareTo<M>(self: AfterFailedJdbcOperationEventRecord<M>, other: RecordClass): (r: int)
    ensures r == 0 <==> other == AfterFailedJdbcOperationEventClass
    ensures r == -1 <==> other != AfterFailedJdbcOperationEventClass
  {
    if other == AfterFailedJdbcOperationEventClass then EventRecords.CompareTo(self.event, other) else -1
  }

  /**
   * The two `compareTo`s together are no ordering: a JDBC event places itself before a plain
   * event, while the plain event finds the JDBC event equal, so the signs are not opposite.
   */
  lemma CompareToNotAntisymmetric<M>(j: AfterFailedJdbcOperationEventRecord<M>, e: EventRecord<M>)
    ensures CompareTo(j, OtherEventClass) == -1
    ensures EventRecords.CompareTo(e, AfterFailedJdbcOperationEventClass) == 0
  {
  }
}
