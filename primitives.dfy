/** Machine-level value types of the wire format and their little-endian byte encodings. */
module Primitives {

  /** An octet on the wire. */
  type byte = b: int | 0 <= b < 0x100

  const Int32Max: int := 0x7FFF_FFFF
  const TwoTo32: nat := 0x1_0000_0000
  const TwoTo64: nat := 0x1_0000_0000_0000_0000

  /** .NET `int`: 32-bit two's complement. */
  type int32 = x: int | -0x8000_0000 <= x < 0x8000_0000

  /** .NET `long`: 64-bit two's complement. */
  type int64 = x: int | -0x8000_0000_0000_0000 <= x < 0x8000_0000_0000_0000

  /** A reference that may be null. */
  datatype Option<+T> = None | Some(value: T)

  function Pow256(n: nat): (p: nat)
    ensures p > 0
  {
    if n == 0 then 1 else 0x100 * Pow256(n - 1)
  }

  lemma Pow256Widths()
    ensures Pow256(1) == 0x100
    ensures Pow256(4) == TwoTo32
    ensures Pow256(8) == TwoTo64
  {
  }

  /** The n low-order bytes of u, least significant first. */
  function UnsignedToLE(u: nat, n: nat): (bs: seq<byte>)
    ensures |bs| == n
  {
    if n == 0 then [] else [u % 0x100] + UnsignedToLE(u / 0x100, n - 1)
  }

  /** The unsigned number whose little-endian bytes are bs. */
  function UnsignedFromLE(bs: seq<byte>): (u: nat)
    ensures u < Pow256(|bs|)
  {
    if bs == [] then 0 else bs[0] + 0x100 * UnsignedFromLE(bs[1..])
  }

  lemma {:induction false} UnsignedRoundTrip(u: nat, n: nat)
    requires u < Pow256(n)
    ensures UnsignedFromLE(UnsignedToLE(u, n)) == u
  {
    if n > 0 {
      var bs := UnsignedToLE(u, n);
      assert bs[1..] == UnsignedToLE(u / 0x100, n - 1);
      UnsignedRoundTrip(u / 0x100, n - 1);
    }
  }

  /** Four bytes, little-endian two's complement (BitConverter.GetBytes(int)). */
  function EncodeInt32(v: int32): (bs: seq<byte>)
    ensures |bs| == 4
  {
    UnsignedToLE(if v < 0 then v + TwoTo32 else v, 4)
  }

  /** BitConverter.ToInt32 on four bytes. */
  function DecodeInt32(bs: seq<byte>): int32
    requires |bs| == 4
  {
    Pow256Widths();
    var u := UnsignedFromLE(bs);
    if u < 0x8000_0000 then u else u - TwoTo32
  }

  /** Eight bytes, little-endian two's complement (BitConverter.GetBytes(long)). */
  function EncodeInt64(v: int64): (bs: seq<byte>)
    ensures |bs| == 8
  {
    UnsignedToLE(if v < 0 then v + TwoTo64 else v, 8)
  }

  /** BitConverter.ToInt64 on eight bytes. */
  function DecodeInt64(bs: seq<byte>): int64
    requires |bs| == 8
  {
    Pow256Widths();
    var u := UnsignedFromLE(bs);
    if u < 0x8000_0000_0000_0000 then u else u - TwoTo64
  }

  lemma DecodeEncodeInt32(v: int32)
    ensures DecodeInt32(EncodeInt32(v)) == v
  {
    Pow256Widths();
    UnsignedRoundTrip(if v < 0 then v + TwoTo32 else v, 4);
  }

  lemma DecodeEncodeInt64(v: int64)
    ensures DecodeInt64(EncodeInt64(v)) == v
  {
    Pow256Widths();
    UnsignedRoundTrip(if v < 0 then v + TwoTo64 else v, 8);
  }

  /** A slice of a slice is a slice of the whole, shifted by the outer start. */
  lemma SliceOfSlice<T>(s: seq<T>, a: nat, b: nat, i: nat, j: nat)
    requires a <= b <= |s| && i <= j <= b - a
    ensures s[a..b][i..j] == s[a + i..a + j]
  {
    assert |s[a..b][i..j]| == |s[a + i..a + j]| == j - i;
    forall k | 0 <= k < j - i
      ensures s[a..b][i..j][k] == s[a + i..a + j][k]
    {
      assert s[a..b][i..j][k] == s[a..b][i + k] == s[a + i + k];
    }
  }
}
