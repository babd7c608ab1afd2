/** The fixed-width integer operations of Netty's ByteBuf: big-endian,
    two's complement for the signed widths. The buffer itself is a byte
    sequence; a reader is handed the bytes from its cursor onwards. */
module Buffer {

  type Byte = x: int | 0 <= x < 256

  /** 256 to the power n: the number of distinct n-byte words. */
  function Pow256(n: nat): (r: nat)
    ensures r >= 1
    ensures n >= 1 ==> r % 2 == 0
  {
    if n == 0 then 1 else 256 * Pow256(n - 1)
  }

  /** The n-byte big-endian word holding x. */
  function ToBigEndian(x: nat, n: nat): (r: seq<Byte>)
    requires x < Pow256(n)
    ensures |r| == n
  {
    if n == 0 then [] else ToBigEndian(x / 256, n - 1) + [x % 256]
  }

  /** The unsigned value of a big-endian word. */
  function FromBigEndian(bs: seq<Byte>): (r: nat)
    ensures r < Pow256(|bs|)
  {
    if bs == [] then 0 else FromBigEndian(bs[..|bs| - 1]) * 256 + bs[|bs| - 1]
  }

  lemma {:induction false} FromToBigEndian(x: nat, n: nat)
    requires x < Pow256(n)
    ensures FromBigEndian(ToBigEndian(x, n)) == x
  {
    if n > 0 {
      var r := ToBigEndian(x, n);
      assert r[..n - 1] == ToBigEndian(x / 256, n - 1);
      FromToBigEndian(x / 256, n - 1);
    }
  }

  lemma {:induction false} ToFromBigEndian(bs: seq<Byte>)
    ensures ToBigEndian(FromBigEndian(bs), |bs|) == bs
  {
    if bs != [] {
      var init := bs[..|bs| - 1];
      var x := FromBigEndian(bs);
      assert x / 256 == FromBigEndian(init);
      assert x % 256 == bs[|bs| - 1];
      ToFromBigEndian(init);
      assert bs == init + [bs[|bs| - 1]];
    }
  }

  /** Whether x is a value of the n-byte two's complement type. */
  predicate FitsSigned(x: int, n: nat) {
    n >= 1 && -(Pow256(n) / 2) <= x < Pow256(n) / 2
  }

  /** The n-byte two's complement word of x (writeByte, writeShort, writeInt, writeLong). */
  function WriteSigned(x: int, n: nat): (r: seq<Byte>)
    requires FitsSigned(x, n)
    ensures |r| == n
  {
    ToBigEndian(if x < 0 then x + Pow256(n) else x, n)
  }

  /** The signed value of a two's complement word (readByte, readShort, readInt, readLong). */
  function ReadSigned(bs: seq<Byte>): (r: int)
    requires |bs| >= 1
    ensures FitsSigned(r, |bs|)
  {
    var u := FromBigEndian(bs);
    if u >= Pow256(|bs|) / 2 then u - Pow256(|bs|) else u
  }

  lemma ReadWriteSigned(x: int, n: nat)
    requires FitsSigned(x, n)
    ensures ReadSigned(WriteSigned(x, n)) == x
  {
    FromToBigEndian(if x < 0 then x + Pow256(n) else x, n);
  }

  lemma WriteReadSigned(bs: seq<Byte>)
    requires |bs| >= 1
    ensures WriteSigned(ReadSigned(bs), |bs|) == bs
  {
    ToFromBigEndian(bs);
  }

  /** ByteBuf.writeInt, used for every length prefix. */
  function WriteInt(x: int): (r: seq<Byte>)
    requires FitsSigned(x, 4)
    ensures |r| == 4
  {
    WriteSigned(x, 4)
  }

  /** ByteBuf.readInt on the four bytes at the cursor. */
  function ReadInt(bs: seq<Byte>): (r: int)
    requires |bs| >= 4
    ensures FitsSigned(r, 4)
  {
    ReadSigned(bs[..4])
  }

  lemma ReadWriteInt(x: int, rest: seq<Byte>)
    requires FitsSigned(x, 4)
    ensures ReadInt(WriteInt(x) + rest) == x
  {
    assert (WriteInt(x) + rest)[..4] == WriteInt(x);
    ReadWriteSigned(x, 4);
  }

  /** The largest Java int; Java arrays and byte[] payloads are no longer. */
  const IntMax: int := 0x7FFF_FFFF
}
