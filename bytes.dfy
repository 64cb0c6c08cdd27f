/** Bytes and the little-endian integer layout used by every on-disk record. */
module Bytes {

  type byte = x: int | 0 <= x < 256

  /** A C# `long`. */
  type int64 = x: int | -0x8000_0000_0000_0000 <= x < 0x8000_0000_0000_0000

  /** A C# `int`. */
  type int32 = x: int | -0x8000_0000 <= x < 0x8000_0000

  const MaxInt64: int64 := 0x7FFF_FFFF_FFFF_FFFF
  const MinInt64: int64 := -0x8000_0000_0000_0000

  function Pow256(n: nat): (r: nat)
    ensures r > 0
  {
    if n == 0 then 1 else 256 * Pow256(n - 1)
  }

  lemma Pow256Values()
    ensures Pow256(4) == 0x1_0000_0000
    ensures Pow256(8) == 0x1_0000_0000_0000_0000
  {
    assert Pow256(2) == 0x1_0000;
    assert Pow256(4) == 0x1_0000_0000;
    assert Pow256(6) == 0x1_0000_0000_0000;
  }

  /** The n low-order bytes of u, least significant first. */
  function LittleEndian(u: nat, n: nat): (r: seq<byte>)
    ensures |r| == n
  {
    if n == 0 then [] else [u % 256] + LittleEndian(u / 256, n - 1)
  }

  /** The unsigned value of a little-endian byte string. */
  function FromLittleEndian(s: seq<byte>): (r: nat)
    ensures r < Pow256(|s|)
  {
    if s == [] then 0 else s[0] + 256 * FromLittleEndian(s[1..])
  }

  lemma {:induction false} LittleEndianRoundTrip(u: nat, n: nat)
    requires u < Pow256(n)
    ensures FromLittleEndian(LittleEndian(u, n)) == u
  {
    if n > 0 {
      var s := LittleEndian(u, n);
      assert s[1..] == LittleEndian(u / 256, n - 1);
      LittleEndianRoundTrip(u / 256, n - 1);
    }
  }

  lemma {:induction false} FromLittleEndianRoundTrip(s: seq<byte>)
    ensures LittleEndian(FromLittleEndian(s), |s|) == s
  {
    if s != [] {
      var u := FromLittleEndian(s);
      assert u % 256 == s[0] && u / 256 == FromLittleEndian(s[1..]);
      FromLittleEndianRoundTrip(s[1..]);
    }
  }

  /** `BinaryPrimitives.WriteInt64LittleEndian`: two's complement, 8 bytes. */
  function EncodeInt64(v: int64): (r: seq<byte>)
    ensures |r| == 8
  {
    LittleEndian(if v < 0 then v + 0x1_0000_0000_0000_0000 else v, 8)
  }

  /** `BinaryReader.ReadInt64` / `ReadInt64` on a view. */
  function DecodeInt64(s: seq<byte>): (r: int64)
    requires |s| == 8
  {
    Pow256Values();
    var u := FromLittleEndian(s);
    if u >= 0x8000_0000_0000_0000 then u - 0x1_0000_0000_0000_0000 else u
  }

  /** `BinaryPrimitives.WriteInt32LittleEndian` and `BinaryWriter.Write(int)`: 4 bytes. */
  function EncodeInt32(v: int32): (r: seq<byte>)
    ensures |r| == 4
  {
    LittleEndian(if v < 0 then v + 0x1_0000_0000 else v, 4)
  }

  function DecodeInt32(s: seq<byte>): (r: int32)
    requires |s| == 4
  {
    Pow256Values();
    var u := FromLittleEndian(s);
    if u >= 0x8000_0000 then u - 0x1_0000_0000 else u
  }

  lemma Int64RoundTrip(v: int64)
    ensures DecodeInt64(EncodeInt64(v)) == v
  {
    Pow256Values();
    LittleEndianRoundTrip(if v < 0 then v + 0x1_0000_0000_0000_0000 else v, 8);
  }

  /** Every 8-byte string is the encoding of exactly one value. */
  lemma Int64Canonical(s: seq<byte>)
    requires |s| == 8
    ensures EncodeInt64(DecodeInt64(s)) == s
  {
    Pow256Values();
    FromLittleEndianRoundTrip(s);
  }

  lemma Int32RoundTrip(v: int32)
    ensures DecodeInt32(EncodeInt32(v)) == v
  {
    Pow256Values();
    LittleEndianRoundTrip(if v < 0 then v + 0x1_0000_0000 else v, 4);
  }

  /** The signed value of one byte (a C# `sbyte`). */
  function SByte(b: byte): (r: int)
  {
    if b < 128 then b else b - 256
  }
}
