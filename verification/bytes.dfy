/**
 * Machine integers and the little-endian byte codec used for the binary log
 * and for the byte buffers of the socket layer.
 */
module Bytes {

  newtype u8 = x: int | 0 <= x < 0x100
  newtype u32 = x: int | 0 <= x < 0x1_0000_0000

  const TwoTo32: nat := 0x1_0000_0000

  /** 256 to the power n: the number of values n bytes can hold. */
  function Pow256(n: nat): (r: nat)
    ensures r >= 1
  {
    if n == 0 then 1 else 256 * Pow256(n - 1)
  }

  /** The value of a little-endian byte string: the first byte is the least significant. */
  function LittleEndian(b: seq<u8>): (r: nat)
    ensures r < Pow256(|b|)
  {
    if b == [] then 0 else b[0] as nat + 256 * LittleEndian(b[1..])
  }

  /** The n-byte little-endian encoding of x; decoding it gives x back. */
  function EncodeLittleEndian(x: nat, n: nat): (r: seq<u8>)
    requires x < Pow256(n)
    ensures |r| == n
    ensures LittleEndian(r) == x
  {
    if n == 0 then [] else [(x % 256) as u8] + EncodeLittleEndian(x / 256, n - 1)
  }

  /** The other direction of the round trip: encoding a decoded byte string gives it back. */
  lemma {:induction false} EncodeOfDecode(b: seq<u8>)
    ensures EncodeLittleEndian(LittleEndian(b), |b|) == b
  {
    if b != [] {
      EncodeOfDecode(b[1..]);
      var x := LittleEndian(b);
      assert x % 256 == b[0] as nat;
      assert x / 256 == LittleEndian(b[1..]);
    }
  }

  /** The width of a u32 in bytes. */
  const U32Bytes: nat := 4

  lemma Pow256Of4()
    ensures Pow256(4) == Pow256(U32Bytes) == TwoTo32
  {
  }

  /** The value kept when n is stored in a u32: n modulo 2^32. */
  function TruncU32(n: nat): (r: u32)
    ensures r as nat <= n
    ensures n < TwoTo32 ==> r as nat == n
  {
    (n % 0x1_0000_0000) as u32
  }

  /** The four-byte little-endian encoding of a u32. */
  function EncodeU32(x: u32): (r: seq<u8>)
    ensures |r| == 4 && LittleEndian(r) == x as nat
  {
    Pow256Of4();
    EncodeLittleEndian(x as nat, U32Bytes)
  }
}
