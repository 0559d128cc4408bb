/**
 * Bytes and the fixed-width big-endian integers that Java's DataInputStream,
 * DataOutputStream and ByteBuffer read and write.
 */
module ByteOrder {

  type uint8 = x: int | 0 <= x < 0x100
  type Bytes = seq<uint8>

  type uint16 = x: int | 0 <= x < 0x1_0000
  type int16 = x: int | -0x8000 <= x < 0x8000
  type int32 = x: int | -0x8000_0000 <= x < 0x8000_0000
  type int64 = x: int | -0x8000_0000_0000_0000 <= x < 0x8000_0000_0000_0000

  /** The number of distinct values n bytes can hold. */
  function Pow256(n: nat): (r: int)
    ensures r > 0
  {
    if n == 0 then 1 else 256 * Pow256(n - 1)
  }

  lemma JavaWidths()
    ensures Pow256(2) == 0x1_0000
    ensures Pow256(4) == 0x1_0000_0000
    ensures Pow256(8) == 0x1_0000_0000_0000_0000
  {
  }

  /** The unsigned value of a big-endian byte string. */
  function Unsigned(s: Bytes): (v: nat)
    ensures v < Pow256(|s|)
  {
    if s == [] then 0 else Unsigned(s[..|s| - 1]) * 256 + s[|s| - 1]
  }

  /** The n-byte big-endian representation of v; its value is v. */
  function UnsignedBytes(n: nat, v: nat): (s: Bytes)
    requires v < Pow256(n)
    ensures |s| == n && Unsigned(s) == v
  {
    if n == 0 then [] else
      var s := UnsignedBytes(n - 1, v / 256) + [v % 256];
      assert s[..n - 1] == UnsignedBytes(n - 1, v / 256);
      s
  }

  /** Reading a byte string and writing the value back gives the same bytes. */
  lemma {:induction false} UnsignedBytesOf(s: Bytes)
    ensures UnsignedBytes(|s|, Unsigned(s)) == s
  {
    if s != [] {
      var n := |s|;
      var init := s[..n - 1];
      UnsignedBytesOf(init);
      assert Unsigned(s) / 256 == Unsigned(init);
      assert Unsigned(s) % 256 == s[n - 1];
      assert s == init + [s[n - 1]];
    }
  }

  /** Two's-complement value of a non-empty big-endian byte string. */
  function Signed(s: Bytes): (v: int)
    requires |s| > 0
    ensures -Pow256(|s|) / 2 <= v < Pow256(|s|) / 2
  {
    var u := Unsigned(s);
    if u < Pow256(|s|) / 2 then u else u - Pow256(|s|)
  }

  /** The n-byte two's-complement representation of v. */
  function SignedBytes(n: nat, v: int): (s: Bytes)
    requires n > 0 && -Pow256(n) / 2 <= v < Pow256(n) / 2
    ensures |s| == n && Signed(s) == v
  {
    UnsignedBytes(n, if v < 0 then v + Pow256(n) else v)
  }

  lemma SignedBytesOf(s: Bytes)
    requires |s| > 0
    ensures SignedBytes(|s|, Signed(s)) == s
  {
    UnsignedBytesOf(s);
  }

  // DataInputStream.readLong / readInt / readShort, ByteBuffer.getInt, and
  // ByteBuffer.getShort() & 0xFFFF.

  function ReadInt64(s: Bytes): (v: int64)
    requires |s| == 8
  {
    JavaWidths();
    Signed(s)
  }

  function ReadInt32(s: Bytes): (v: int32)
    requires |s| == 4
  {
    JavaWidths();
    Signed(s)
  }

  function ReadInt16(s: Bytes): (v: int16)
    requires |s| == 2
  {
    JavaWidths();
    Signed(s)
  }

  function ReadUInt16(s: Bytes): (v: uint16)
    requires |s| == 2
  {
    JavaWidths();
    Unsigned(s)
  }

  // DataOutputStream.writeLong / writeInt / writeShort and ByteBuffer.putInt / putShort.

  function Int64Bytes(v: int64): (s: Bytes)
    ensures |s| == 8 && ReadInt64(s) == v
  {
    JavaWidths();
    SignedBytes(8, v)
  }

  function Int32Bytes(v: int32): (s: Bytes)
    ensures |s| == 4 && ReadInt32(s) == v
  {
    JavaWidths();
    SignedBytes(4, v)
  }

  function Int16Bytes(v: int16): (s: Bytes)
    ensures |s| == 2 && ReadInt16(s) == v
  {
    JavaWidths();
    SignedBytes(2, v)
  }

  function UInt16Bytes(v: uint16): (s: Bytes)
    ensures |s| == 2 && ReadUInt16(s) == v
  {
    JavaWidths();
    UnsignedBytes(2, v)
  }

  /** Each fixed-width reader is injective: the bytes are recovered from the value. */
  lemma ReadersInvertible(s: Bytes)
    ensures |s| == 8 ==> Int64Bytes(ReadInt64(s)) == s
    ensures |s| == 4 ==> Int32Bytes(ReadInt32(s)) == s
    ensures |s| == 2 ==> Int16Bytes(ReadInt16(s)) == s
    ensures |s| == 2 ==> UInt16Bytes(ReadUInt16(s)) == s
  {
    if |s| > 0 {
      SignedBytesOf(s);
      UnsignedBytesOf(s);
    }
  }
}
