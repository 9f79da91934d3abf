/** Octets as the link carries them, and the little-endian 16-bit layout of util.h. */
module Bytes {
  type byte = bv8

  function EncodeLe16(value: bv16): (bytes: seq<byte>)
    ensures |bytes| == 2
  {
    [(value & 0x00FF) as byte, ((value & 0xFF00) >> 8) as byte]
  }

  function DecodeLe16(low: byte, high: byte): bv16 {
    (low as bv16) | ((high as bv16) << 8)
  }

  // Decoding undoes encoding, so a frame's checksum field carries every 16-bit value.
  lemma Le16RoundTrip(value: bv16)
    ensures DecodeLe16(EncodeLe16(value)[0], EncodeLe16(value)[1]) == value
  {
  }
}
