/**
  The constant set of the Curve25519 realization of the curve abstraction:
  the order of the prime subgroup (the `L` of section 5.1 of RFC 8032) and
  the field modulus p = 2^255 - 19 (section 4.1 of RFC 7748), each as a
  32-byte most-significant-first table and as the number it decodes to.

  The accessors are zero-argument functions, so every call yields the same
  value; the one-time cached initialisation of the source has no other
  observable effect.
*/
module Curve25519 {
  import opened BigEndian

  /** Big-endian encoding of the prime subgroup order. */
  function CurveOrderBytes(): (r: seq<uint8>)
    ensures |r| == 32
  {
    [ 0x10, 0x00, 0x00, 0x00, 0x00, 0x00, 0x00, 0x00,
      0x00, 0x00, 0x00, 0x00, 0x00, 0x00, 0x00, 0x00,
      0x14, 0xde, 0xf9, 0xde, 0xa2, 0xf7, 0x9c, 0xd6,
      0x58, 0x12, 0x63, 0x1a, 0x5c, 0xf5, 0xd3, 0xed ]
  }

  /** Big-endian encoding of the field modulus. */
  function FieldOrderBytes(): (r: seq<uint8>)
    ensures |r| == 32
  {
    [ 0x7f, 0xff, 0xff, 0xff, 0xff, 0xff, 0xff, 0xff,
      0xff, 0xff, 0xff, 0xff, 0xff, 0xff, 0xff, 0xff,
      0xff, 0xff, 0xff, 0xff, 0xff, 0xff, 0xff, 0xff,
      0xff, 0xff, 0xff, 0xff, 0xff, 0xff, 0xff, 0xed ]
  }

  /** The prime subgroup order, decoded from its table. */
  function CurveOrder(): (n: nat)
    ensures n == Pow(2, 252) + 27742317777372353535851937790883648493
  {
    CurveOrderBytesDecode();
    BytesToNatBE(CurveOrderBytes())
  }

  /** The field modulus, decoded from its table. */
  function FieldOrder(): (p: nat)
    ensures p == Pow(2, 255) - 19
  {
    FieldOrderBytesDecode();
    BytesToNatBE(FieldOrderBytes())
  }

  /** The powers of two that the closed forms mention, as literals. */
  lemma PowersOfTwo()
    ensures Pow(2, 252) == 0x1000_0000_0000_0000_0000_0000_0000_0000_0000_0000_0000_0000_0000_0000_0000_0000
    ensures Pow(2, 255) == 0x8000_0000_0000_0000_0000_0000_0000_0000_0000_0000_0000_0000_0000_0000_0000_0000
  {
    assert Pow(256, 8) == 0x1_0000_0000_0000_0000;
    assert Pow(256, 7) == 0x100_0000_0000_0000;
    assert Pow(2, 4) == 16;
    assert Pow(2, 7) == 128;
    PowAdd(256, 8, 8);
    PowAdd(256, 16, 8);
    PowAdd(256, 24, 7);
    Pow256IsPow2(31);
    PowAdd(2, 248, 4);
    PowAdd(2, 248, 7);
  }

  /** Read limb by limb, the subgroup-order table is 2^252 + 27742317777372353535851937790883648493. */
  lemma CurveOrderBytesDecode()
    ensures BytesToNatBE(CurveOrderBytes()) == Pow(2, 252) + 27742317777372353535851937790883648493
  {
    Decode32ByLimbs(CurveOrderBytes());
    PowersOfTwo();
  }

  /** Read limb by limb, the field-modulus table is 2^255 - 19. */
  lemma FieldOrderBytesDecode()
    ensures BytesToNatBE(FieldOrderBytes()) == Pow(2, 255) - 19
  {
    Decode32ByLimbs(FieldOrderBytes());
    PowersOfTwo();
  }

  /** The subgroup-order table is the canonical 32-byte encoding of the order. */
  lemma CurveOrderEncoding()
    ensures NatToBytesBE(CurveOrder(), 32) == CurveOrderBytes()
  {
    EncodeDecode(CurveOrderBytes());
  }

  /** The field-modulus table is the canonical 32-byte encoding of the modulus. */
  lemma FieldOrderEncoding()
    ensures NatToBytesBE(FieldOrder(), 32) == FieldOrderBytes()
  {
    EncodeDecode(FieldOrderBytes());
  }

  /** Both orders fit in 256 bits. */
  lemma OrdersFit256Bits()
    ensures CurveOrder() < Pow(2, 256) && FieldOrder() < Pow(2, 256)
  {
    Decode32Below2To256(CurveOrderBytes());
    Decode32Below2To256(FieldOrderBytes());
  }

  /** The subgroup order is below the field modulus, as the leading bytes 0x10 < 0x7f show. */
  lemma CurveOrderBelowFieldOrder()
    ensures CurveOrder() < FieldOrder()
  {
    LeadingByteOrder(CurveOrderBytes(), FieldOrderBytes());
  }
}
