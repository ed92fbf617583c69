/**
 * AbstractEventRecord: the byte layout every live-trace event shares.
 *
 *   traceId (8 bytes) | orderIndex (4 bytes) | list count (4 bytes) | metadata entry*
 *
 * HostApplicationMetaDataRecord and the string registries it goes through are
 * not part of this model; the codec sees them only through `MetadataCodec`.
 */
module EventRecords {
  import opened Wrappers
  import opened BigEndian
  import opened Buffers

  const CompressedByteLength: int := 8 + 4
  /** traceId and orderIndex, plus 4 for the byte length at the start of a frame. */
  const ByteLength: int := CompressedByteLength + 4

  /**
   * What the event codec needs from HostApplicationMetaDataRecord:
   * the fixed size of one encoded entry (its BYTE_LENGTH_WITH_CLAZZ_ID),
   * the bytes `putIntoByteBuffer` writes for an entry, and
   * `createFromByteBuffer` on the bytes of one entry, which yields None where
   * it throws IdNotAvailableException (a string id the registry lacks).
   * The registries are captured inside `put` and `create`.
   */
  datatype MetadataCodec<!M> = MetadataCodec(
    entryLength: nat,
    put: M -> seq<byte>,
    create: seq<byte> -> Option<M>)

  /** Every entry is encoded in exactly `entryLength` bytes. */
  ghost predicate FixedLength<M(!new)>(c: MetadataCodec<M>)
  {
    forall m :: |c.put(m)| == c.entryLength
  }

  /** A metadata codec whose receiver side knows every id its sender side used. */
  ghost predicate Sound<M(!new)>(c: MetadataCodec<M>)
  {
    && c.entryLength <= Int32Max
    && FixedLength(c)
    && forall m :: c.create(c.put(m)) == Some(m)
  }

  /** The fields of an AbstractEventRecord; a `None` entry is a null list element. */
  datatype EventRecord<M> = EventRecord(
    traceId: int64,
    orderIndex: int32,
    hostApplicationMetadataList: seq<Option<M>>)

  /** The sender constructor: one trace hop, described by one metadata entry. */
  function NewEventRecord<M>(traceId: int64, orderIndex: int32, hostApplicationMetadata: Option<M>)
    : (r: EventRecord<M>)
    ensures r.traceId == traceId && r.orderIndex == orderIndex
    ensures |r.hostApplicationMetadataList| == 1
    ensures r.hostApplicationMetadataList[0] == hostApplicationMetadata
  {
    EventRecord(traceId, orderIndex, [hostApplicationMetadata])
  }

  predicate NoNull<M>(list: seq<Option<M>>)
  {
    forall k :: 0 <= k < |list| ==> list[k].Some?
  }

  /** The number of non-null entries. */
  function CountPresent<M>(list: seq<Option<M>>): (n: nat)
    ensures n <= |list|
    ensures n == |list| <==> NoNull(list)
  {
    if list == [] then 0
    else (if list[0].Some? then 1 else 0) + CountPresent(list[1..])
  }

  /** The bytes one list element contributes: its encoding, or nothing for a null element. */
  function EntryBytes<M>(entry: Option<M>, c: MetadataCodec<M>): seq<byte>
  {
    match entry
    case Some(m) => c.put(m)
    case None => []
  }

  /** The bytes of the entries: each non-null entry's encoding in list order. */
  function PutEntries<M>(list: seq<Option<M>>, c: MetadataCodec<M>): seq<byte>
  {
    if list == [] then [] else EntryBytes(list[0], c) + PutEntries(list[1..], c)
  }

  /**
   * What `putIntoByteBuffer` appends to the buffer for an event: a 16-byte header whose
   * fields read back as `traceId`, `orderIndex` and the list size (null entries included),
   * then the entries.
   */
  function EncodeEvent<M>(e: EventRecord<M>, c: MetadataCodec<M>): (r: seq<byte>)
    requires |e.hostApplicationMetadataList| <= Int32Max
    ensures |r| == 16 + |PutEntries(e.hostApplicationMetadataList, c)|
    ensures Int64Of(r[..8]) == e.traceId && Int32Of(r[8..12]) == e.orderIndex
    ensures Int32Of(r[12..16]) == |e.hostApplicationMetadataList|
  {
    var header := Int64Bytes(e.traceId) + Int32Bytes(e.orderIndex) + Int32Bytes(|e.hostApplicationMetadataList|);
    Int64RoundTrip(e.traceId);
    Int32RoundTrip(e.orderIndex);
    Int32RoundTrip(|e.hostApplicationMetadataList|);
    var r := header + PutEntries(e.hostApplicationMetadataList, c);
    assert r[..8] == Int64Bytes(e.traceId) && r[8..12] == Int32Bytes(e.orderIndex);
    assert r[12..16] == Int32Bytes(|e.hostApplicationMetadataList|);
    r
  }

  /**
   * Decoding one entry: `entryLength` bytes handed to the metadata factory; too few bytes
   * is a buffer underflow, a factory that finds no metadata for them fails the decode.
   */
  function ParseEntry<M>(bs: seq<byte>, c: MetadataCodec<M>): (r: Result<M, DecodeError>)
    ensures r.Success? <==> c.entryLength <= |bs| && c.create(bs[..c.entryLength]).Some?
    ensures r.Failure? ==> (r.error == Underflow <==> |bs| < c.entryLength)
  {
    if |bs| < c.entryLength then Failure(Underflow)
    else match c.create(bs[..c.entryLength])
      case None => Failure(IdNotAvailable)
      case Some(m) => Success(m)
  }

  /** Decoding `count` consecutive entries; yields them and the number of bytes they took. */
  function ParseEntries<M>(bs: seq<byte>, count: nat, c: MetadataCodec<M>)
    : (r: Result<(seq<Option<M>>, nat), DecodeError>)
    ensures r.Success? ==> |r.value.0| == count && NoNull(r.value.0)
    ensures r.Success? ==> r.value.1 <= |bs|
  {
    if count == 0 then Success(([], 0))
    else match ParseEntry(bs, c)
      case Failure(err) => Failure(err)
      case Success(m) =>
        match ParseEntries(bs[c.entryLength..], count - 1, c)
        case Failure(err) => Failure(err)
        case Success(tail) => Success(([Some(m)] + tail.0, c.entryLength + tail.1))
  }

  /** The list count as the decoding loop uses it: a negative count runs the loop zero times. */
  function LoopCount(hostListSize: int32): nat
  {
    if hostListSize < 0 then 0 else hostListSize
  }

  /**
   * What the decoding constructor reads from the bytes left in a buffer:
   * the event and the number of bytes it consumed.
   */
  function ParseEvent<M>(bs: seq<byte>, c: MetadataCodec<M>)
    : (r: Result<(EventRecord<M>, nat), DecodeError>)
    ensures r.Success? ==>
      && |bs| >= 16
      && r.value.0.traceId == Int64Of(bs[..8])
      && r.value.0.orderIndex == Int32Of(bs[8..12])
      && |r.value.0.hostApplicationMetadataList| == LoopCount(Int32Of(bs[12..16]))
      && NoNull(r.value.0.hostApplicationMetadataList)
      && 16 <= r.value.1 <= |bs|
  {
    if |bs| < 16 then Failure(Underflow)
    else
      var traceId := Int64Of(bs[..8]);
      var orderIndex := Int32Of(bs[8..12]);
      var hostListSize := Int32Of(bs[12..16]);
      match ParseEntries(bs[16..], LoopCount(hostListSize), c)
      case Failure(err) => Failure(err)
      case Success(entries) => Success((EventRecord(traceId, orderIndex, entries.0), 16 + entries.1))
  }

  /** Java `int` arithmetic: the value modulo 2^32, read as two's complement. */
  function Wrap32(x: int): (r: int32)
    ensures -0x8000_0000 <= x <= Int32Max ==> r == x
  {
    var u := x % 0x1_0000_0000;
    if u > Int32Max then u - 0x1_0000_0000 else u
  }

  /** `getRecordSizeInBytes`, computed in Java `int` arithmetic. */
  function RecordSizeInBytes<M>(e: EventRecord<M>, c: MetadataCodec<M>): (r: int32)
    ensures 20 + |e.hostApplicationMetadataList| * c.entryLength <= Int32Max ==>
      r == 20 + |e.hostApplicationMetadataList| * c.entryLength
    ensures e.hostApplicationMetadataList == [] ==> r == 20
  {
    Wrap32(ByteLength + 4 + |e.hostApplicationMetadataList| * c.entryLength)
  }

  // ---------------------------------------------------------------------------
  // The buffer-level operations

  /** `putIntoByteBuffer`: traceId, orderIndex, the list size, then every non-null entry. */
  method PutIntoByteBuffer<M>(e: EventRecord<M>, buffer: ByteBuffer, c: MetadataCodec<M>)
    requires buffer.Valid() && |e.hostApplicationMetadataList| <= Int32Max
    requires buffer.position + |EncodeEvent(e, c)| <= buffer.limit
    modifies buffer`position, buffer.data
    ensures buffer.Valid() && buffer.limit == old(buffer.limit)
    ensures buffer.Written() == old(buffer.Written()) + EncodeEvent(e, c)
  {
    var list := e.hostApplicationMetadataList;
    ghost var written := buffer.Written();
    ghost var header := Int64Bytes(e.traceId) + Int32Bytes(e.orderIndex) + Int32Bytes(|list|);
    ghost var entries := PutEntries(list, c);
    EncodeEventParts(e, c);
    PutHeader(e.traceId, e.orderIndex, |list|, buffer);
    PutMetadataList(list, buffer, c);
    ConcatAssociates(written, header, entries);
  }

  /** The three header fields of `putIntoByteBuffer`, in order. */
  method PutHeader(traceId: int64, orderIndex: int32, size: int32, buffer: ByteBuffer)
    requires buffer.Valid() && buffer.position + 16 <= buffer.limit
    modifies buffer`position, buffer.data
    ensures buffer.Valid() && buffer.limit == old(buffer.limit)
    ensures buffer.position == old(buffer.position) + 16
    ensures buffer.Written() == old(buffer.Written()) + (Int64Bytes(traceId) + Int32Bytes(orderIndex) + Int32Bytes(size))
  {
    ghost var written := buffer.Written();
    buffer.PutLong(traceId);
    buffer.PutInt(orderIndex);
    buffer.PutInt(size);
    ConcatAssociates(written + Int64Bytes(traceId), Int32Bytes(orderIndex), Int32Bytes(size));
    ConcatAssociates(written, Int64Bytes(traceId), Int32Bytes(orderIndex) + Int32Bytes(size));
  }

  lemma ConcatAssociates(a: seq<byte>, b: seq<byte>, c: seq<byte>)
    ensures a + b + c == a + (b + c)
  {
  }

  lemma EncodeEventParts<M>(e: EventRecord<M>, c: MetadataCodec<M>)
    requires |e.hostApplicationMetadataList| <= Int32Max
    ensures EncodeEvent(e, c)
      == Int64Bytes(e.traceId) + Int32Bytes(e.orderIndex) + Int32Bytes(|e.hostApplicationMetadataList|)
         + PutEntries(e.hostApplicationMetadataList, c)
  {
  }

  /** The loop of `putIntoByteBuffer` over the metadata list: non-null entries in order, null ones skipped. */
  method PutMetadataList<M>(list: seq<Option<M>>, buffer: ByteBuffer, c: MetadataCodec<M>)
    requires buffer.Valid()
    requires buffer.position + |PutEntries(list, c)| <= buffer.limit
    modifies buffer`position, buffer.data
    ensures buffer.Valid() && buffer.limit == old(buffer.limit)
    ensures buffer.Written() == old(buffer.Written()) + PutEntries(list, c)
  {
    ghost var written := buffer.Written();
    var i := 0;
    while i < |list|
      invariant 0 <= i <= |list|
      invariant buffer.Valid() && buffer.limit == old(buffer.limit)
      invariant buffer.Written() == written + PutEntries(list[..i], c)
      invariant buffer.position + |PutEntries(list[i..], c)| <= buffer.limit
    {
      PutEntryAt(list, i, buffer, c, written);
      i := i + 1;
    }
    assert list[..i] == list;
  }

  /** One round of the loop over the metadata list: entry `i`, if it is not null. */
  method PutEntryAt<M>(list: seq<Option<M>>, i: nat, buffer: ByteBuffer, c: MetadataCodec<M>, ghost written: seq<byte>)
    requires i < |list| && buffer.Valid()
    requires buffer.Written() == written + PutEntries(list[..i], c)
    requires buffer.position + |PutEntries(list[i..], c)| <= buffer.limit
    modifies buffer`position, buffer.data
    ensures buffer.Valid() && buffer.limit == old(buffer.limit)
    ensures buffer.Written() == written + PutEntries(list[..i + 1], c)
    ensures buffer.position + |PutEntries(list[i + 1..], c)| <= buffer.limit
  {
    PutEntriesSplit(list, i, c);
    match list[i] {
      case Some(hostMeta) =>
        buffer.PutBytes(c.put(hostMeta));
      case None =>
        // `putIntoByteBuffer` only prints diagnostics here: nothing is written
    }
  }

  /**
   * The decoding constructor: traceId, orderIndex, the list size, then that many
   * entries, each appended to the list in the order read.
   */
  method CreateFromByteBuffer<M>(buffer: ByteBuffer, c: MetadataCodec<M>)
    returns (r: Result<EventRecord<M>, DecodeError>)
    requires buffer.Valid()
    modifies buffer`position
    ensures buffer.Valid() && buffer.limit == old(buffer.limit)
    ensures var p := ParseEvent(old(buffer.Remaining()), c);
      && r.Success? == p.Success?
      && (r.Success? ==> r.value == p.value.0 && buffer.position == old(buffer.position) + p.value.1)
      && (r.Failure? ==> r.error == p.error)
  {
    ghost var bs := buffer.Remaining();
    var traceId :- buffer.GetLong();
    assert buffer.Remaining() == bs[8..];
    var orderIndex :- buffer.GetInt();
    assert buffer.Remaining() == bs[12..] && bs[8..][..4] == bs[8..12];
    var hostListSize :- buffer.GetInt();
    assert buffer.Remaining() == bs[16..] && bs[12..][..4] == bs[12..16];
    var list :- CreateMetadataList(buffer, hostListSize, c);
    r := Success(EventRecord(traceId, orderIndex, list));
  }

  /** The loop of the decoding constructor: `hostListSize` entries (none if it is negative). */
  method CreateMetadataList<M>(buffer: ByteBuffer, hostListSize: int32, c: MetadataCodec<M>)
    returns (r: Result<seq<Option<M>>, DecodeError>)
    requires buffer.Valid()
    modifies buffer`position
    ensures buffer.Valid() && buffer.limit == old(buffer.limit)
    ensures var p := ParseEntries(old(buffer.Remaining()), LoopCount(hostListSize), c);
      && r.Success? == p.Success?
      && (r.Success? ==> r.value == p.value.0 && buffer.position == old(buffer.position) + p.value.1)
      && (r.Failure? ==> r.error == p.error)
  {
    ghost var count := LoopCount(hostListSize);
    ghost var goal := ParseEntries(buffer.Remaining(), count, c);
    ghost var rest: seq<byte>, used: nat := buffer.Remaining(), 0;
    var list: seq<Option<M>> := [];
    PrependNothing(goal);
    var i := 0;
    while i < hostListSize
      invariant 0 <= i <= count && |list| == i
      invariant buffer.Valid() && buffer.limit == old(buffer.limit)
      invariant buffer.Remaining() == rest && buffer.position == old(buffer.position) + used
      invariant DecodedSoFar(goal, list, used, rest, count - i, c)
    {
      var hostMeta := ReadEntryAt(buffer, c, goal, list, used, rest, count - i);
      if hostMeta.Failure? {
        return Failure(hostMeta.error);
      }
      list := list + [Some(hostMeta.value)];
      rest, used := rest[c.entryLength..], used + c.entryLength;
      i := i + 1;
    }
    r := Success(list);
  }

  /** The decoding loop so far: the entries read, then whatever decoding the rest gives. */
  ghost predicate DecodedSoFar<M>(goal: Result<(seq<Option<M>>, nat), DecodeError>, list: seq<Option<M>>,
                                  used: nat, rest: seq<byte>, remaining: nat, c: MetadataCodec<M>)
  {
    goal == Prepend(list, used, ParseEntries(rest, remaining, c))
  }

  /** One round of the decoding loop: the next entry, or the error that ends the decode. */
  method ReadEntryAt<M>(buffer: ByteBuffer, c: MetadataCodec<M>, ghost goal: Result<(seq<Option<M>>, nat), DecodeError>,
                        ghost list: seq<Option<M>>, ghost used: nat, ghost rest: seq<byte>, ghost remaining: nat)
    returns (r: Result<M, DecodeError>)
    requires buffer.Valid() && buffer.Remaining() == rest && remaining > 0
    requires DecodedSoFar(goal, list, used, rest, remaining, c)
    modifies buffer`position
    ensures buffer.Valid() && buffer.limit == old(buffer.limit)
    ensures r.Failure? ==> goal == Failure(r.error)
    ensures r.Success? ==>
      && c.entryLength <= |rest|
      && buffer.Remaining() == rest[c.entryLength..]
      && buffer.position == old(buffer.position) + c.entryLength
      && DecodedSoFar(goal, list + [Some(r.value)], used + c.entryLength, rest[c.entryLength..], remaining - 1, c)
  {
    ParseEntriesStep(rest, remaining, c);
    r := ReadEntry(buffer, c);
    if r.Success? {
      ghost var later := ParseEntries(rest[c.entryLength..], remaining - 1, c);
      PrependStep(list, used, Some(r.value), c.entryLength, later);
    }
  }

  /** One pass of the decoding loop: `entryLength` bytes from the buffer, turned into metadata. */
  method ReadEntry<M>(buffer: ByteBuffer, c: MetadataCodec<M>) returns (r: Result<M, DecodeError>)
    requires buffer.Valid()
    modifies buffer`position
    ensures buffer.Valid() && buffer.limit == old(buffer.limit)
    ensures r == ParseEntry(old(buffer.Remaining()), c)
    ensures r.Success? ==>
      && buffer.position == old(buffer.position) + c.entryLength
      && buffer.Remaining() == old(buffer.Remaining())[c.entryLength..]
  {
    ghost var bs := buffer.Remaining();
    var bytes :- buffer.GetBytes(c.entryLength);
    assert bytes == bs[..c.entryLength];
    var hostMeta := c.create(bytes);
    if hostMeta.None? {
      return Failure(IdNotAvailable);
    }
    r := Success(hostMeta.value);
  }

  /** Puts already-decoded entries in front of the outcome of decoding the rest. */
  function Prepend<M>(done: seq<Option<M>>, used: nat, rest: Result<(seq<Option<M>>, nat), DecodeError>)
    : Result<(seq<Option<M>>, nat), DecodeError>
  {
    match rest
    case Failure(err) => Failure(err)
    case Success(tail) => Success((done + tail.0, used + tail.1))
  }

  lemma PrependNothing<M>(rest: Result<(seq<Option<M>>, nat), DecodeError>)
    ensures Prepend([], 0, rest) == rest
  {
    if rest.Success? {
      assert [] + rest.value.0 == rest.value.0;
    }
  }

  /** One pass of the decoding loop, as ParseEntries takes it. */
  lemma ParseEntriesStep<M>(bs: seq<byte>, count: nat, c: MetadataCodec<M>)
    requires count > 0
    ensures ParseEntry(bs, c).Failure? ==> ParseEntries(bs, count, c) == Failure(ParseEntry(bs, c).error)
    ensures ParseEntry(bs, c).Success? ==>
      ParseEntries(bs, count, c)
      == Prepend([Some(ParseEntry(bs, c).value)], c.entryLength, ParseEntries(bs[c.entryLength..], count - 1, c))
  {
  }

  lemma PrependStep<M>(done: seq<Option<M>>, used: nat, x: Option<M>, width: nat,
                       rest: Result<(seq<Option<M>>, nat), DecodeError>)
    ensures Prepend(done, used, Prepend([x], width, rest)) == Prepend(done + [x], used + width, rest)
  {
    if rest.Success? {
      assert done + ([x] + rest.value.0) == (done + [x]) + rest.value.0;
    }
  }

  // ---------------------------------------------------------------------------
  // Properties of the layout

  /** Decoding `count` entries consumes exactly `count` entry lengths. */
  lemma {:induction false} ParseEntriesConsumed<M>(bs: seq<byte>, count: nat, c: MetadataCodec<M>)
    requires ParseEntries(bs, count, c).Success?
    ensures ParseEntries(bs, count, c).value.1 == count * c.entryLength
  {
    if count > 0 {
      ParseEntriesConsumed(bs[c.entryLength..], count - 1, c);
      assert (count - 1) * c.entryLength + c.entryLength == count * c.entryLength;
    }
  }

  /**
   * After a successful decode the list holds exactly as many entries as the count read
   * from the buffer (none for a negative count), and the decoder consumed the 16 header
   * bytes plus one entry length per entry.
   */
  lemma ParseEventConsumed<M>(bs: seq<byte>, c: MetadataCodec<M>)
    requires ParseEvent(bs, c).Success?
    ensures var (e, used) := ParseEvent(bs, c).value;
      && |e.hostApplicationMetadataList| == LoopCount(Int32Of(bs[12..16]))
      && used == 16 + |e.hostApplicationMetadataList| * c.entryLength
  {
    ParseEntriesConsumed(bs[16..], LoopCount(Int32Of(bs[12..16])), c);
  }

  /** The `count` consecutive `h`-byte slices at the start of `bs`, one per entry. */
  ghost function EntrySlices(bs: seq<byte>, count: nat, h: nat): (r: seq<seq<byte>>)
    requires count * h <= |bs|
    ensures |r| == count
  {
    if count == 0 then []
    else
      assert (count - 1) * h + h == count * h;
      [bs[..h]] + EntrySlices(bs[h..], count - 1, h)
  }

  /** Slice `k` starts `k` entry lengths into the bytes. */
  lemma {:induction false} EntrySlicesAt(bs: seq<byte>, count: nat, h: nat, k: nat)
    requires count * h <= |bs| && k < count
    ensures k * h + h <= |bs|
    ensures EntrySlices(bs, count, h)[k] == bs[k * h..k * h + h]
  {
    MulSucc(count - 1, h);
    if k == 0 {
      assert k * h == 0;
    } else {
      var tail := EntrySlices(bs[h..], count - 1, h);
      assert EntrySlices(bs, count, h)[k] == tail[k - 1];
      EntrySlicesAt(bs[h..], count - 1, h, k - 1);
      var m := (k - 1) * h;
      MulSucc(k - 1, h);
      assert tail[k - 1] == bs[h..][m..m + h] == bs[h + m..h + m + h];
    }
  }

  /** One more entry takes one more entry length. */
  lemma MulSucc(k: nat, h: nat)
    ensures 0 <= k * h && k * h + h == (k + 1) * h
  {
  }

  /** The metadata factory accepts every one of the slices. */
  ghost predicate AllAccepted<M>(slices: seq<seq<byte>>, c: MetadataCodec<M>)
  {
    forall k :: 0 <= k < |slices| ==> c.create(slices[k]).Some?
  }

  lemma AllAcceptedCons<M>(x: seq<byte>, slices: seq<seq<byte>>, c: MetadataCodec<M>)
    ensures AllAccepted([x] + slices, c) <==> c.create(x).Some? && AllAccepted(slices, c)
  {
    if c.create(x).Some? && AllAccepted(slices, c) {
      forall k | 0 <= k < |slices| + 1
        ensures c.create(([x] + slices)[k]).Some?
      {
        if k > 0 { assert ([x] + slices)[k] == slices[k - 1]; }
      }
    }
    if AllAccepted([x] + slices, c) {
      assert c.create(([x] + slices)[0]).Some?;
      forall k | 0 <= k < |slices|
        ensures c.create(slices[k]).Some?
      {
        assert ([x] + slices)[k + 1] == slices[k];
      }
    }
  }

  /**
   * With the bytes of `count` entries present, the decoding loop succeeds exactly when the
   * metadata factory accepts every slice, and otherwise fails with IdNotAvailable.
   */
  lemma {:induction false} ParseEntriesSlices<M>(bs: seq<byte>, count: nat, c: MetadataCodec<M>)
    requires count * c.entryLength <= |bs|
    ensures var r := ParseEntries(bs, count, c);
      && (r.Success? <==> AllAccepted(EntrySlices(bs, count, c.entryLength), c))
      && (r.Failure? ==> r.error == IdNotAvailable)
  {
    var h := c.entryLength;
    if count > 0 {
      assert (count - 1) * h + h == count * h;
      assert EntrySlices(bs, count, h) == [bs[..h]] + EntrySlices(bs[h..], count - 1, h);
      AllAcceptedCons(bs[..h], EntrySlices(bs[h..], count - 1, h), c);
      ParseEntriesSlices(bs[h..], count - 1, c);
    }
  }

  /**
   * One entry whose ids the registry lacks fails the whole decode: once the bytes of entry
   * `k` are there and the factory rejects them, the decode fails with IdNotAvailable, whether
   * or not the later entries follow.
   */
  lemma {:induction false} ParseEntriesRejectsAt<M>(bs: seq<byte>, count: nat, c: MetadataCodec<M>, k: nat)
    requires k < count
    requires k * c.entryLength + c.entryLength <= |bs|
    requires c.create(bs[k * c.entryLength..k * c.entryLength + c.entryLength]).None?
    ensures ParseEntries(bs, count, c) == Failure(IdNotAvailable)
  {
    var h := c.entryLength;
    MulSucc(k, h);
    if k == 0 {
      assert k * h == 0;
    } else if ParseEntry(bs, c).Success? {
      MulSucc(k - 1, h);
      var m := (k - 1) * h;
      assert bs[h..][m..m + h] == bs[h + m..h + m + h];
      ParseEntriesRejectsAt(bs[h..], count - 1, c, k - 1);
    }
  }

  /** A successful decode's entry `k` is what the metadata factory makes of slice `k`. */
  lemma {:induction false} ParseEntriesValues<M>(bs: seq<byte>, count: nat, c: MetadataCodec<M>, k: nat)
    requires ParseEntries(bs, count, c).Success? && k < count
    ensures ParseEntries(bs, count, c).value.1 == count * c.entryLength
    ensures k * c.entryLength + c.entryLength <= |bs|
    ensures ParseEntries(bs, count, c).value.0[k] == c.create(bs[k * c.entryLength..k * c.entryLength + c.entryLength])
  {
    var h := c.entryLength;
    ParseEntriesConsumed(bs, count, c);
    var tail := ParseEntries(bs[h..], count - 1, c);
    assert ParseEntries(bs, count, c).value.0 == [Some(ParseEntry(bs, c).value)] + tail.value.0;
    if k == 0 {
      assert k * h == 0;
    } else {
      ParseEntriesValues(bs[h..], count - 1, c, k - 1);
      var m := (k - 1) * h;
      MulSucc(k - 1, h);
      assert bs[h..][m..m + h] == bs[h + m..h + m + h];
    }
  }

  /**
   * A decode that succeeds took entry `k` from the `k`-th entry-length slice of its bytes,
   * whichever bytes the stream held.
   */
  lemma ParseEntriesContents<M>(bs: seq<byte>, count: nat, c: MetadataCodec<M>)
    requires ParseEntries(bs, count, c).Success?
    ensures forall k :: 0 <= k < count ==>
      && k * c.entryLength + c.entryLength <= |bs|
      && ParseEntries(bs, count, c).value.0[k] == c.create(bs[k * c.entryLength..k * c.entryLength + c.entryLength])
  {
    forall k | 0 <= k < count
      ensures k * c.entryLength + c.entryLength <= |bs|
      ensures ParseEntries(bs, count, c).value.0[k] == c.create(bs[k * c.entryLength..k * c.entryLength + c.entryLength])
    {
      ParseEntriesValues(bs, count, c, k);
    }
  }

  /**
   * The decoding constructor's entries: entry `k` of a decoded event is what the metadata
   * factory makes of the `k`-th entry-length slice after the 16 header bytes.
   */
  lemma ParseEventEntries<M>(bs: seq<byte>, c: MetadataCodec<M>)
    requires ParseEvent(bs, c).Success?
    ensures var list := ParseEvent(bs, c).value.0.hostApplicationMetadataList;
      forall k :: 0 <= k < |list| ==>
        && 16 + k * c.entryLength + c.entryLength <= |bs|
        && list[k] == c.create(bs[16 + k * c.entryLength..16 + k * c.entryLength + c.entryLength])
  {
    var count := LoopCount(Int32Of(bs[12..16]));
    var h := c.entryLength;
    ParseEntriesContents(bs[16..], count, c);
    forall k | 0 <= k < count
      ensures 16 + k * h + h <= |bs|
      ensures bs[16..][k * h..k * h + h] == bs[16 + k * h..16 + k * h + h]
    {
    }
  }

  /**
   * With the header and all announced entries present, the decoding constructor succeeds
   * exactly when every entry's ids are known; an entry the factory rejects fails the whole
   * decode with IdNotAvailable.
   */
  lemma ParseEventIdNotAvailable<M>(bs: seq<byte>, c: MetadataCodec<M>)
    requires |bs| >= 16 && LoopCount(Int32Of(bs[12..16])) * c.entryLength <= |bs| - 16
    ensures var count, r := LoopCount(Int32Of(bs[12..16])), ParseEvent(bs, c);
      && (r.Success? <==> AllAccepted(EntrySlices(bs[16..], count, c.entryLength), c))
      && (r.Failure? ==> r.error == IdNotAvailable)
  {
    ParseEntriesSlices(bs[16..], LoopCount(Int32Of(bs[12..16])), c);
  }

  lemma {:induction false} PutEntriesSplit<M>(list: seq<Option<M>>, i: nat, c: MetadataCodec<M>)
    requires i < |list|
    ensures PutEntries(list[..i + 1], c) == PutEntries(list[..i], c) + EntryBytes(list[i], c)
    ensures PutEntries(list[i..], c) == EntryBytes(list[i], c) + PutEntries(list[i + 1..], c)
  {
    assert list[i..][1..] == list[i + 1..];
    PutEntriesAppend(list[..i], [list[i]], c);
    assert list[..i] + [list[i]] == list[..i + 1];
    assert PutEntries([list[i]], c) == EntryBytes(list[i], c) + PutEntries([], c);
  }

  lemma {:induction false} PutEntriesAppend<M>(a: seq<Option<M>>, b: seq<Option<M>>, c: MetadataCodec<M>)
    ensures PutEntries(a + b, c) == PutEntries(a, c) + PutEntries(b, c)
  {
    if a != [] {
      assert (a + b)[0] == a[0] && (a + b)[1..] == a[1..] + b;
      PutEntriesAppend(a[1..], b, c);
    } else {
      assert a + b == b;
    }
  }

  /** The entries take `entryLength` bytes for each non-null element and none for a null one. */
  lemma {:induction false} PutEntriesLength<M(!new)>(list: seq<Option<M>>, c: MetadataCodec<M>)
    requires FixedLength(c)
    ensures |PutEntries(list, c)| == CountPresent(list) * c.entryLength
  {
    if list != [] {
      PutEntriesLength(list[1..], c);
      var h, k := c.entryLength, CountPresent(list[1..]);
      assert |PutEntries(list, c)| == |EntryBytes(list[0], c)| + k * h;
      if list[0].Some? {
        assert |c.put(list[0].value)| == h;
        Distribute(1, k, h);
      }
    }
  }

  lemma Distribute(a: nat, b: nat, h: nat)
    ensures (a + b) * h == a * h + b * h
  {
  }

  /** The encoded event: 16 header bytes, then `entryLength` bytes per non-null entry. */
  lemma EncodeEventLength<M(!new)>(e: EventRecord<M>, c: MetadataCodec<M>)
    requires FixedLength(c) && |e.hostApplicationMetadataList| <= Int32Max
    ensures |EncodeEvent(e, c)| == 16 + CountPresent(e.hostApplicationMetadataList) * c.entryLength
  {
    PutEntriesLength(e.hostApplicationMetadataList, c);
  }

  /** traceId, orderIndex and the list size come first, in that order, big-endian. */
  lemma EncodeEventHeader<M>(e: EventRecord<M>, c: MetadataCodec<M>)
    requires |e.hostApplicationMetadataList| <= Int32Max
    ensures var bs := EncodeEvent(e, c);
      && |bs| >= 16
      && bs[..8] == Int64Bytes(e.traceId)
      && bs[8..12] == Int32Bytes(e.orderIndex)
      && bs[12..16] == Int32Bytes(|e.hostApplicationMetadataList|)
      && bs[16..] == PutEntries(e.hostApplicationMetadataList, c)
  {
  }

  /** Decoding the encoded entries of a null-free list gives the list back, whatever follows them. */
  lemma {:induction false} EntriesRoundTrip<M(!new)>(list: seq<Option<M>>, c: MetadataCodec<M>, rest: seq<byte>)
    requires Sound(c) && NoNull(list)
    ensures ParseEntries(PutEntries(list, c) + rest, |list|, c)
      == Success((list, |PutEntries(list, c)|))
  {
    if list != [] {
      var m := list[0].value;
      var tail := PutEntries(list[1..], c);
      assert PutEntries(list, c) + rest == c.put(m) + (tail + rest);
      assert (c.put(m) + (tail + rest))[..c.entryLength] == c.put(m);
      assert (c.put(m) + (tail + rest))[c.entryLength..] == tail + rest;
      EntriesRoundTrip(list[1..], c, rest);
      assert [Some(m)] + list[1..] == list;
    }
  }

  /**
   * Round trip: an event without null entries, encoded by `putIntoByteBuffer`, is decoded
   * field for field by the decoding constructor, which consumes exactly the encoded bytes.
   */
  lemma {:induction false} EventRoundTrip<M(!new)>(e: EventRecord<M>, c: MetadataCodec<M>, rest: seq<byte>)
    requires Sound(c) && |e.hostApplicationMetadataList| <= Int32Max
    requires NoNull(e.hostApplicationMetadataList)
    ensures ParseEvent(EncodeEvent(e, c) + rest, c) == Success((e, |EncodeEvent(e, c)|))
  {
    var list := e.hostApplicationMetadataList;
    var enc := EncodeEvent(e, c);
    var bs := enc + rest;
    assert bs[..8] == enc[..8] && bs[8..12] == enc[8..12] && bs[12..16] == enc[12..16];
    EncodeEventHeader(e, c);
    assert bs[16..] == PutEntries(list, c) + rest;
    EntriesRoundTrip(list, c, rest);
  }

  /**
   * The declared size is the 4-byte length field plus the encoded event, plus
   * `entryLength` for every null entry, which is counted but not written.
   */
  lemma RecordSizeVersusEncoding<M(!new)>(e: EventRecord<M>, c: MetadataCodec<M>)
    requires FixedLength(c) && |e.hostApplicationMetadataList| <= Int32Max
    requires 20 + |e.hostApplicationMetadataList| * c.entryLength <= Int32Max
    ensures var list := e.hostApplicationMetadataList;
      RecordSizeInBytes(e, c)
        == 4 + |EncodeEvent(e, c)| + (|list| - CountPresent(list)) * c.entryLength
    ensures NoNull(e.hostApplicationMetadataList) ==> RecordSizeInBytes(e, c) == 4 + |EncodeEvent(e, c)|
  {
    var list := e.hostApplicationMetadataList;
    var n, p, h := |list|, CountPresent(list), c.entryLength;
    EncodeEventLength(e, c);
    Distribute(p, n - p, h);
    assert n * h == p * h + (n - p) * h;
  }

  // ---------------------------------------------------------------------------
  // A null entry is counted but not written

  /** Whatever follows it, an event holding a null entry never decodes back to itself. */
  lemma NullEntryBreaksRoundTrip<M>(e: EventRecord<M>, c: MetadataCodec<M>, rest: seq<byte>)
    requires |e.hostApplicationMetadataList| <= Int32Max
    requires !NoNull(e.hostApplicationMetadataList)
    ensures var p := ParseEvent(EncodeEvent(e, c) + rest, c);
      p.Success? ==> p.value.0 != e
  {
  }

  /**
   * The event the sender constructor builds around a null entry is written as a bare
   * 16-byte header announcing one entry. On its own the decoder runs out of bytes; followed
   * by other bytes, it takes the next `entryLength` of them as the missing entry.
   */
  lemma NullEntryMisframes<M>(traceId: int64, orderIndex: int32, c: MetadataCodec<M>, rest: seq<byte>)
    requires c.entryLength > 0
    ensures var bs := EncodeEvent(NewEventRecord(traceId, orderIndex, None), c);
      && |bs| == 16
      && ParseEvent(bs, c) == Failure(Underflow)
      && (ParseEvent(bs + rest, c).Success? ==> ParseEvent(bs + rest, c).value.1 == 16 + c.entryLength)
  {
    var e := NewEventRecord(traceId, orderIndex, None);
    var bs := EncodeEvent(e, c);
    EncodeEventHeader(e, c);
    assert PutEntries(e.hostApplicationMetadataList, c) == [];
    Int32RoundTrip(1);
    assert (bs + rest)[12..16] == bs[12..16] && (bs + rest)[16..] == rest;
    assert bs[16..] == [];
    if ParseEvent(bs + rest, c).Success? {
      ParseEntriesConsumed(rest, 1, c);
    }
  }

  /** Why an encoding is refused. */
  datatype EncodeError = NullMetadata

  /**
   * The encoding as intended: the layout of `putIntoByteBuffer`, refused outright for an
   * event holding a null entry instead of writing a count its entries do not match.
   */
  function EncodeChecked<M>(e: EventRecord<M>, c: MetadataCodec<M>): (r: Result<seq<byte>, EncodeError>)
    requires |e.hostApplicationMetadataList| <= Int32Max
    ensures r.Failure? <==> !NoNull(e.hostApplicationMetadataList)
    ensures r.Success? ==> r.value == EncodeEvent(e, c)
  {
    if NoNull(e.hostApplicationMetadataList) then Success(EncodeEvent(e, c)) else Failure(NullMetadata)
  }

  /**
   * Every event the checked encoding accepts decodes back to itself, and its count field
   * announces exactly the entries that follow the header.
   */
  lemma CheckedRoundTrip<M(!new)>(e: EventRecord<M>, c: MetadataCodec<M>, rest: seq<byte>)
    requires Sound(c) && |e.hostApplicationMetadataList| <= Int32Max
    requires EncodeChecked(e, c).Success?
    ensures var bs := EncodeChecked(e, c).value;
      && ParseEvent(bs + rest, c) == Success((e, |bs|))
      && |bs| == 16 + Int32Of(bs[12..16]) * c.entryLength
  {
    var list := e.hostApplicationMetadataList;
    EventRoundTrip(e, c, rest);
    EncodeEventHeader(e, c);
    Int32RoundTrip(|list|);
    EncodeEventLength(e, c);
  }

  /**
   * `putIntoByteBuffer` as intended: fails fast on a null entry, writing nothing, and
   * otherwise writes the event exactly as the unchecked encoder does.
   */
  method PutIntoByteBufferChecked<M>(e: EventRecord<M>, buffer: ByteBuffer, c: MetadataCodec<M>)
    returns (r: Result<(), EncodeError>)
    requires buffer.Valid() && |e.hostApplicationMetadataList| <= Int32Max
    requires buffer.position + |EncodeEvent(e, c)| <= buffer.limit
    modifies buffer`position, buffer.data
    ensures buffer.Valid() && buffer.limit == old(buffer.limit)
    ensures r.Failure? <==> EncodeChecked(e, c).Failure?
    ensures r.Failure? ==> buffer.position == old(buffer.position) && unchanged(buffer.data)
    ensures r.Success? ==> buffer.Written() == old(buffer.Written()) + EncodeChecked(e, c).value
  {
    var list := e.hostApplicationMetadataList;
    var i := 0;
    while i < |list|
      invariant 0 <= i <= |list|
      invariant forall k :: 0 <= k < i ==> list[k].Some?
    {
      if list[i].None? {
        return Failure(NullMetadata);
      }
      i := i + 1;
    }
    PutIntoByteBuffer(e, buffer, c);
    r := Success(());
  }

  // ---------------------------------------------------------------------------
  // compareTo

  /** The run-time class of the record an event is compared with. */
  datatype RecordClass =
    | AfterFailedJdbcOperationEventClass   // AfterFailedJDBCOperationEventRecord
    | OtherEventClass                      // any other subclass of AbstractEventRecord
    | NonEventClass                        // a record that is no event at all

  predicate IsEventClass(k: RecordClass)
  {
    k != NonEventClass
  }

  /**
   * `compareTo`: every event compares equal to every other event and places itself
   * before (-1) any record that is no event. The receiver's fields are not consulted.
   */
  function CompareTo<M>(self: EventRecord<M>, other: RecordClass): (r: int)
    ensures r == 0 <==> IsEventClass(other)
    ensures r == -1 <==> !IsEventClass(other)
  {
    if IsEventClass(other) then 0 else -1
  }

  /** Two events, whatever their fields, compare the same way with any record. */
  lemma CompareToIgnoresFields<M>(a: EventRecord<M>, b: EventRecord<M>, other: RecordClass)
    ensures CompareTo(a, other) == CompareTo(b, other)
  {
  }
}
