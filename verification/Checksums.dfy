/**
 Masked checksums (util/crc32c.h).  The CRC32C function itself is a parameter.
 */
module Checksums {
  import opened Keys
  import opened Coding

  const MASK_DELTA: nat := 0xa282ead8

  type Crc = Bytes -> U32

  /** crc32c::Mask: a rotation by 15 bits, then a constant offset, modulo 2^32. */
  function Mask(crc: U32): U32 {
    (crc / 0x8000 + (crc % 0x8000) * 0x2_0000 + MASK_DELTA) % TWO32
  }

  function Unmask(masked: U32): U32 {
    var rot := (masked + TWO32 - MASK_DELTA) % TWO32;
    rot / 0x2_0000 + (rot % 0x2_0000) * 0x8000
  }

  lemma UnmaskMask(crc: U32)
    ensures Unmask(Mask(crc)) == crc
  {
    var rotated := crc / 0x8000 + (crc % 0x8000) * 0x2_0000;
    assert 0 <= rotated < TWO32;
    assert (Mask(crc) + TWO32 - MASK_DELTA) % TWO32 == rotated;
    assert rotated / 0x2_0000 == crc % 0x8000 && rotated % 0x2_0000 == crc / 0x8000;
  }
}
