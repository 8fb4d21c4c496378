// The value types shared by the model: octets and the unsigned machine words of the library.
module Bytes {
  type byte = b: int | 0 <= b < 0x100
  type uint16 = w: int | 0 <= w < 0x1_0000
  type uint32 = w: int | 0 <= w < 0x1_0000_0000

  // Unsigned 32-bit arithmetic drops everything above bit 31.
  function Wrap32(n: int): (w: uint32)
    ensures 0 <= n < 0x1_0000_0000 ==> w == n
  {
    n % 0x1_0000_0000
  }

  lemma OctetRoundTrip(b: byte)
    ensures (b as bv8) as int == b
  {
    assert b == b % 0x100;
  }

  lemma ByteRoundTrip(v: bv8)
    ensures (v as int) as bv8 == v
  {
  }

  datatype Option<+T> = None | Some(value: T)

  function Min(a: nat, b: nat): nat {
    if a < b then a else b
  }
}
