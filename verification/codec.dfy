/**
 The fixed-width integer fields of the boot sector and their byte encoding.

 The firmware builds the bytes of its 16- and 32-bit fields through unions
 (`twobyte_t`, `fourbyte_t`); on the AVR target those lay the least
 significant byte first. This module fixes that order explicitly instead of
 relying on memory aliasing.
 */
module Codec {

  type uint8 = x: int | 0 <= x < 0x100
  type uint16 = x: int | 0 <= x < 0x1_0000
  type uint32 = x: int | 0 <= x < 0x1_0000_0000

  /** The two bytes of a 16-bit value, least significant first. */
  function EncodeU16(v: uint16): (b: seq<uint8>)
    ensures |b| == 2
    ensures DecodeU16(b[0], b[1]) == v
  {
    [v % 0x100, v / 0x100]
  }

  function DecodeU16(lo: uint8, hi: uint8): uint16
  {
    lo + 0x100 * hi
  }

  /** The four bytes of a 32-bit value, least significant first: the bytes
      of its low half, then those of its high half. */
  function EncodeU32(v: uint32): (b: seq<uint8>)
    ensures |b| == 4
    ensures DecodeU32(b[0], b[1], b[2], b[3]) == v
  {
    var lo := EncodeU16(v % 0x1_0000);
    var hi := EncodeU16(v / 0x1_0000);
    assert DecodeU32(lo[0], lo[1], hi[0], hi[1]) == DecodeU16(lo[0], lo[1]) + 0x1_0000 * DecodeU16(hi[0], hi[1]);
    lo + hi
  }

  function DecodeU32(b0: uint8, b1: uint8, b2: uint8, b3: uint8): uint32
  {
    b0 + 0x100 * b1 + 0x1_0000 * b2 + 0x100_0000 * b3
  }

  /** Decoding two bytes and encoding the value again gives the same bytes,
      so every byte pair is the image of exactly one value. */
  lemma EncodeDecodeU16(lo: uint8, hi: uint8)
    ensures EncodeU16(DecodeU16(lo, hi)) == [lo, hi]
  {
    SplitByte(lo, hi);
  }

  lemma EncodeDecodeU32(b0: uint8, b1: uint8, b2: uint8, b3: uint8)
    ensures EncodeU32(DecodeU32(b0, b1, b2, b3)) == [b0, b1, b2, b3]
  {
    var lo: nat := DecodeU16(b0, b1);
    var hi: nat := DecodeU16(b2, b3);
    assert DecodeU32(b0, b1, b2, b3) == lo + 0x1_0000 * hi;
    SplitWord(lo, hi);
    EncodeDecodeU16(b0, b1);
    EncodeDecodeU16(b2, b3);
  }

  /** One 16-bit half split off the bottom of a number. */
  lemma SplitWord(lo: uint16, q: nat)
    ensures (lo + 0x1_0000 * q) % 0x1_0000 == lo
    ensures (lo + 0x1_0000 * q) / 0x1_0000 == q
  {
  }

  /** One byte split off the bottom of a number. */
  lemma SplitByte(lo: uint8, q: nat)
    ensures (lo + 0x100 * q) % 0x100 == lo
    ensures (lo + 0x100 * q) / 0x100 == q
  {
  }
}
