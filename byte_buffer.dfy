/**
 * The part of `java.nio.ByteBuffer` the record codec relies on: a fixed array
 * of bytes, a cursor (`position`) and a `limit`, with relative big-endian
 * puts and gets that advance the cursor.
 */
module Buffers {
  import opened Wrappers
  import opened BigEndian

  /** Why a decoding constructor gives up. */
  datatype DecodeError =
    | Underflow        // java.nio.BufferUnderflowException: fewer bytes left than a get needs
    | IdNotAvailable   // IdNotAvailableException: a string id the receiver registry does not know

  /** What a relative get of `width` bytes yields on the bytes left in the buffer. */
  function ReadBytes(bs: seq<byte>, width: nat): (r: Result<seq<byte>, DecodeError>)
    ensures r.Success? <==> width <= |bs|
    ensures r.Success? ==> r.value + bs[width..] == bs
    ensures r.Failure? ==> r.error == Underflow
  {
    if |bs| < width then Failure(Underflow) else Success(bs[..width])
  }

  function ReadInt32(bs: seq<byte>): (r: Result<int32, DecodeError>)
  {
    if |bs| < 4 then Failure(Underflow) else Success(Int32Of(bs[..4]))
  }

  function ReadInt64(bs: seq<byte>): (r: Result<int64, DecodeError>)
  {
    if |bs| < 8 then Failure(Underflow) else Success(Int64Of(bs[..8]))
  }

  class ByteBuffer {
    var data: array<byte>
    var position: nat
    var limit: nat

    ghost predicate Valid()
      reads this
    {
      position <= limit <= data.Length
    }

    /** The bytes between the cursor and the limit: what gets read next. */
    ghost function Remaining(): seq<byte>
      reads this, data
      requires Valid()
    {
      data[position..limit]
    }

    /** The bytes before the cursor: what puts have produced so far. */
    ghost function Written(): seq<byte>
      reads this, data
      requires Valid()
    {
      data[..position]
    }

    /** The relative bulk put underlying `put`, `putInt` and `putLong`. */
    method PutBytes(bs: seq<byte>)
      requires Valid() && position + |bs| <= limit
      modifies this`position, data
      ensures Valid() && limit == old(limit)
      ensures Written() == old(Written()) + bs
    {
      forall k | 0 <= k < |bs| {
        data[position + k] := bs[k];
      }
      position := position + |bs|;
    }

    method Put(x: int8)
      requires Valid() && position + 1 <= limit
      modifies this`position, data
      ensures Valid() && limit == old(limit)
      ensures Written() == old(Written()) + [Int8Byte(x)]
    {
      PutBytes([Int8Byte(x)]);
    }

    method PutInt(x: int32)
      requires Valid() && position + 4 <= limit
      modifies this`position, data
      ensures Valid() && limit == old(limit)
      ensures Written() == old(Written()) + Int32Bytes(x)
    {
      PutBytes(Int32Bytes(x));
    }

    method PutLong(x: int64)
      requires Valid() && position + 8 <= limit
      modifies this`position, data
      ensures Valid() && limit == old(limit)
      ensures Written() == old(Written()) + Int64Bytes(x)
    {
      PutBytes(Int64Bytes(x));
    }

    /** The relative bulk get; on underflow the cursor stays where it was. */
    method GetBytes(width: nat) returns (r: Result<seq<byte>, DecodeError>)
      requires Valid()
      modifies this`position
      ensures Valid() && limit == old(limit)
      ensures r == ReadBytes(old(Remaining()), width)
      ensures position == old(position) + (if r.Success? then width else 0)
    {
      if limit - position < width {
        r := Failure(Underflow);
      } else {
        assert Remaining()[..width] == data[position..position + width];
        r := Success(data[position..position + width]);
        position := position + width;
      }
    }

    method GetInt() returns (r: Result<int32, DecodeError>)
      requires Valid()
      modifies this`position
      ensures Valid() && limit == old(limit)
      ensures r == ReadInt32(old(Remaining()))
      ensures position == old(position) + (if r.Success? then 4 else 0)
    {
      if limit - position < 4 {
        r := Failure(Underflow);
      } else {
        assert Remaining()[..4] == data[position..position + 4];
        r := Success(Int32Of(data[position..position + 4]));
        position := position + 4;
      }
    }

    method GetLong() returns (r: Result<int64, DecodeError>)
      requires Valid()
      modifies this`position
      ensures Valid() && limit == old(limit)
      ensures r == ReadInt64(old(Remaining()))
      ensures position == old(position) + (if r.Success? then 8 else 0)
    {
      if limit - position < 8 {
        r := Failure(Underflow);
      } else {
        assert Remaining()[..8] == data[position..position + 8];
        r := Success(Int64Of(data[position..position + 8]));
        position := position + 8;
      }
    }
  }
}
