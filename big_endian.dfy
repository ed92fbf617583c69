/**
 * Java's primitive integer widths and the big-endian byte order that
 * `java.nio.ByteBuffer` uses by default for `putInt`/`putLong`/`getInt`/`getLong`.
 */
module BigEndian {

  type byte = x: int | 0 <= x < 256

  /** A Java `byte`: 8-bit two's complement. */
  type int8 = x: int | -0x80 <= x < 0x80

  /** A Java `int`: 32-bit two's complement. */
  type int32 = x: int | -0x8000_0000 <= x < 0x8000_0000

  /** A Java `long`: 64-bit two's complement. */
  type int64 = x: int | -0x8000_0000_0000_0000 <= x < 0x8000_0000_0000_0000

  const Int32Max: int := 0x7fff_ffff

  function Pow256(n: nat): (r: nat)
    ensures r >= 1
    ensures n >= 1 ==> r % 2 == 0
  {
    if n == 0 then 1 else 256 * Pow256(n - 1)
  }

  /** The `n` low-order base-256 digits of `u`, most significant first. */
  function ToBytes(u: nat, n: nat): (r: seq<byte>)
    ensures |r| == n
  {
    if n == 0 then [] else ToBytes(u / 256, n - 1) + [u % 256]
  }

  /** The unsigned value of a big-endian digit string. */
  function FromBytes(bs: seq<byte>): (r: nat)
    ensures r < Pow256(|bs|)
  {
    if |bs| == 0 then 0 else FromBytes(bs[..|bs| - 1]) * 256 + bs[|bs| - 1]
  }

  lemma {:induction false} FromToBytes(u: nat, n: nat)
    requires u < Pow256(n)
    ensures FromBytes(ToBytes(u, n)) == u
  {
    if n > 0 {
      var prefix := ToBytes(u / 256, n - 1);
      assert (prefix + [u % 256])[..n - 1] == prefix;
      FromToBytes(u / 256, n - 1);
    }
  }

  lemma {:induction false} ToFromBytes(bs: seq<byte>)
    ensures ToBytes(FromBytes(bs), |bs|) == bs
  {
    if |bs| > 0 {
      var n := |bs|;
      var prefix := bs[..n - 1];
      var u := FromBytes(bs);
      assert u / 256 == FromBytes(prefix) && u % 256 == bs[n - 1];
      ToFromBytes(prefix);
      assert bs == prefix + [bs[n - 1]];
    }
  }

  /** Half the range of `n` bytes: the smallest value a signed `n`-byte integer cannot hold. */
  function Half(n: nat): int
  {
    Pow256(n) / 2
  }

  /** Two's-complement bit pattern of a signed value that fits in `n` bytes. */
  function Unsigned(x: int, n: nat): (u: nat)
    requires n >= 1 && -Half(n) <= x < Half(n)
    ensures u < Pow256(n)
  {
    if x < 0 then x + Pow256(n) else x
  }

  /** The signed value of an `n`-byte two's-complement bit pattern. */
  function Signed(u: nat, n: nat): (x: int)
    requires n >= 1 && u < Pow256(n)
    ensures -Half(n) <= x < Half(n)
  {
    if u >= Pow256(n) / 2 then u - Pow256(n) else u
  }

  lemma Pow256Of4()
    ensures Pow256(4) == 0x1_0000_0000
  {
  }

  lemma Pow256Of8()
    ensures Pow256(8) == 0x1_0000_0000_0000_0000
  {
    Pow256Of4();
    assert Pow256(8) == Pow256(4) * Pow256(4) by {
      assert Pow256(8) == 256 * 256 * 256 * 256 * Pow256(4);
    }
  }

  /** `ByteBuffer.putInt`: the four bytes written for a Java `int`. */
  function Int32Bytes(x: int32): (r: seq<byte>)
    ensures |r| == 4
  {
    Pow256Of4();
    ToBytes(Unsigned(x, 4), 4)
  }

  /** `ByteBuffer.getInt`: the Java `int` read back from four bytes. */
  function Int32Of(bs: seq<byte>): (x: int32)
    requires |bs| == 4
  {
    Pow256Of4();
    Signed(FromBytes(bs), 4)
  }

  /** `ByteBuffer.putLong`: the eight bytes written for a Java `long`. */
  function Int64Bytes(x: int64): (r: seq<byte>)
    ensures |r| == 8
  {
    Pow256Of8();
    ToBytes(Unsigned(x, 8), 8)
  }

  /** `ByteBuffer.getLong`: the Java `long` read back from eight bytes. */
  function Int64Of(bs: seq<byte>): (x: int64)
    requires |bs| == 8
  {
    Pow256Of8();
    Signed(FromBytes(bs), 8)
  }

  /** `ByteBuffer.put(byte)`: the one byte written for a Java `byte`. */
  function Int8Byte(x: int8): (b: byte)
  {
    if x < 0 then x + 256 else x
  }

  /** `ByteBuffer.get()`: the Java `byte` read back from one byte. */
  function Int8Of(b: byte): (x: int8)
    ensures Int8Byte(x) == b
  {
    if b >= 0x80 then b - 256 else b
  }

  lemma Int32RoundTrip(x: int32)
    ensures Int32Of(Int32Bytes(x)) == x
  {
    Pow256Of4();
    FromToBytes(Unsigned(x, 4), 4);
  }

  lemma Int32BytesRoundTrip(bs: seq<byte>)
    requires |bs| == 4
    ensures Int32Bytes(Int32Of(bs)) == bs
  {
    Pow256Of4();
    ToFromBytes(bs);
  }

  lemma Int64RoundTrip(x: int64)
    ensures Int64Of(Int64Bytes(x)) == x
  {
    Pow256Of8();
    FromToBytes(Unsigned(x, 8), 8);
  }

  lemma Int64BytesRoundTrip(bs: seq<byte>)
    requires |bs| == 8
    ensures Int64Bytes(Int64Of(bs)) == bs
  {
    Pow256Of8();
    ToFromBytes(bs);
  }

  /** The most significant byte comes first: a non-negative `int` below 2^24 starts with a zero byte. */
  lemma Int32BytesBigEndian(x: int32)
    ensures Int32Bytes(x)[3] == Unsigned(x, 4) % 256
    ensures Int32Bytes(x)[0] == Unsigned(x, 4) / 0x100_0000
  {
    Pow256Of4();
    var u := Unsigned(x, 4);
    assert ToBytes(u, 4) == ToBytes(u / 256, 3) + [u % 256];
    assert ToBytes(u / 256, 3) == ToBytes(u / 256 / 256, 2) + [u / 256 % 256];
    assert ToBytes(u / 256 / 256, 2) == ToBytes(u / 256 / 256 / 256, 1) + [u / 256 / 256 % 256];
    assert ToBytes(u / 256 / 256 / 256, 1) == [u / 256 / 256 / 256 % 256];
  }
}
