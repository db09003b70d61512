/**
 * The checksum both sides of the format use: CRC-32C (the Castagnoli
 * polynomial, the iSCSI digest of section 12.1 of RFC 3720), then the
 * record-format mask: rotate right by 15 bits and add 0xA282EAD8, both
 * with 32-bit wrap-around.
 */
module Crc {
  import opened Bytes

  /** The reflected Castagnoli polynomial. */
  const POLY: bv32 := 0x82F6_3B78
  /** The additive constant of the mask. */
  const MASK_DELTA: bv32 := 0xA282_EAD8

  /**
   * One bit of the reflected shift register: shift right, and xor in the
   * polynomial when the bit shifted out is set. Written without a branch:
   * `0 - (c & 1)` is all ones exactly when the low bit is set.
   */
  function BitStep(c: bv32): bv32 {
    (c >> 1) ^ (POLY & (0 - (c & 1)))
  }

  /** `BitStep` is the textbook conditional step. */
  lemma BitStepShifts(c: bv32)
    ensures BitStep(c) == if c & 1 == 1 then (c >> 1) ^ POLY else c >> 1
  {}

  /** Feeds one byte: xor it into the low byte of the register, then shift eight times. */
  function ByteStep(c: bv32, b: u8): bv32 {
    var x := c ^ ((b as bv8) as bv32);
    BitStep(BitStep(BitStep(BitStep(BitStep(BitStep(BitStep(BitStep(x))))))))
  }

  /** The register after feeding every byte of `s`, in order. */
  function Register(c: bv32, s: seq<u8>): bv32
    decreases |s|
  {
    if s == [] then c else Register(ByteStep(c, s[0]), s[1..])
  }

  /** CRC-32C: initial register and final xor both 0xFFFFFFFF. */
  function Crc32c(s: seq<u8>): bv32 {
    Register(0xFFFF_FFFF, s) ^ 0xFFFF_FFFF
  }

  /** The mask step, written as the source writes it: `(c >> 15 | c << 17) + delta`. */
  function Mask(c: bv32): (m: bv32)
    ensures m == c.RotateRight(15) + MASK_DELTA
  {
    ((c >> 15) | (c << 17)) + MASK_DELTA
  }

  /** The inverse of the mask: subtract the constant, rotate back. */
  function Unmask(m: bv32): bv32 {
    (m - MASK_DELTA).RotateLeft(15)
  }

  lemma UnmaskMask(c: bv32)
    ensures Unmask(Mask(c)) == c
  {}

  lemma MaskUnmask(m: bv32)
    ensures Mask(Unmask(m)) == m
  {}

  /** The mask is a bijection on 32-bit words. */
  lemma MaskInjective(c: bv32, d: bv32)
    ensures Mask(c) == Mask(d) <==> c == d
  {
    if Mask(c) == Mask(d) {
      UnmaskMask(c);
      UnmaskMask(d);
    }
  }

  /** A 32-bit word as the unsigned number it denotes. */
  function WordValue(w: bv32): u32 {
    w as int
  }

  /** The number a word denotes converts back to the word. */
  lemma WordValueBack(w: bv32)
    ensures WordValue(w) as bv32 == w
  {}

  /** Distinct words denote distinct numbers. */
  lemma WordValueInjective(a: bv32, b: bv32)
    ensures WordValue(a) == WordValue(b) <==> a == b
  {
    WordValueBack(a);
    WordValueBack(b);
  }

  /** `masked_crc(buf)`: the mask of the CRC-32C of `buf`, as the unsigned 32-bit value the format stores. */
  function MaskedCrc(s: seq<u8>): u32 {
    WordValue(Mask(Crc32c(s)))
  }

  /**
   * The stored checksum compares like the CRC-32C it masks: two buffers
   * have the same masked checksum exactly when they have the same CRC-32C.
   */
  lemma MaskedCrcEqualIffCrcEqual(s: seq<u8>, t: seq<u8>)
    ensures MaskedCrc(s) == MaskedCrc(t) <==> Crc32c(s) == Crc32c(t)
  {
    WordValueInjective(Mask(Crc32c(s)), Mask(Crc32c(t)));
    MaskInjective(Crc32c(s), Crc32c(t));
  }

  /** The check value of CRC-32C over the ASCII digits "123456789". */
  lemma CheckValue()
    ensures Crc32c([0x31, 0x32, 0x33, 0x34, 0x35, 0x36, 0x37, 0x38, 0x39]) == 0xE306_9283
  {
    var s: seq<u8> := [0x31, 0x32, 0x33, 0x34, 0x35, 0x36, 0x37, 0x38, 0x39];
    assert ByteStep(0xFFFF_FFFF, 0x31) == 0x6F0A_661C;
    assert ByteStep(0x6F0A_661C, 0x32) == 0x8CAA_3B9F;
    assert ByteStep(0x8CAA_3B9F, 0x33) == 0xEF84_D04D;
    assert ByteStep(0xEF84_D04D, 0x34) == 0x09C5_0B11;
    assert ByteStep(0x09C5_0B11, 0x35) == 0xE72E_DCCA;
    assert ByteStep(0xE72E_DCCA, 0x36) == 0xBECA_8E79;
    assert ByteStep(0xBECA_8E79, 0x37) == 0xEDBD_6815;
    assert ByteStep(0xEDBD_6815, 0x38) == 0x9F78_7F65;
    assert ByteStep(0x9F78_7F65, 0x39) == 0x1CF9_6D7C;
    assert Register(0xFFFF_FFFF, s) == 0x1CF9_6D7C by {
      assert s[1..][1..][1..][1..][1..][1..][1..][1..][1..] == [];
    }
  }

  /** The masked checksum of an empty buffer is the mask constant itself. */
  lemma MaskOfEmptyCrc()
    ensures Mask(Crc32c([])) == MASK_DELTA
  {}
}
