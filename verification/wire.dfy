/** Fixed-width unsigned integers and their big-endian byte encodings, as both
    channels of the client lay them out on the wire. Swift builds these values
    with shifts and bitwise or (`UInt16(d[4]) << 8 | UInt16(d[5])`); because
    the shifted operands never overlap, that is the same as the sums below. */
module Wire {

  type byte = x: int | 0 <= x < 0x100
  type u16 = x: int | 0 <= x < 0x1_0000
  type u32 = x: int | 0 <= x < 0x1_0000_0000
  type Bytes = seq<byte>

  const U32_MAX: u32 := 0xFFFF_FFFF

  datatype Option<+T> = None | Some(value: T)

  /** The u16 stored big-endian at offset `off`. */
  function ReadU16BE(d: Bytes, off: nat): (v: u16)
    requires off + 2 <= |d|
    ensures v / 0x100 == d[off] && v % 0x100 == d[off + 1]
  {
    (d[off] as int) * 0x100 + d[off + 1]
  }

  /** The u32 stored big-endian at offset `off`. */
  function ReadU32BE(d: Bytes, off: nat): (v: u32)
    requires off + 4 <= |d|
    ensures v / 0x100_0000 == d[off] && (v / 0x1_0000) % 0x100 == d[off + 1]
    ensures (v / 0x100) % 0x100 == d[off + 2] && v % 0x100 == d[off + 3]
  {
    (ReadU16BE(d, off) as int) * 0x1_0000 + ReadU16BE(d, off + 2)
  }

  /** The two bytes of `v`, most significant first (`v >> 8`, `v & 0xFF`). */
  function EncodeU16BE(v: u16): (s: Bytes)
    ensures |s| == 2 && ReadU16BE(s, 0) == v
  {
    [v / 0x100, v % 0x100]
  }

  /** The four bytes of `v`, most significant first (`v >> 24`,
      `(v >> 16) & 0xFF`, `(v >> 8) & 0xFF`, `v & 0xFF`). */
  function EncodeU32BE(v: u32): (s: Bytes)
    ensures |s| == 4 && ReadU32BE(s, 0) == v
  {
    [v / 0x100_0000, (v / 0x1_0000) % 0x100, (v / 0x100) % 0x100, v % 0x100]
  }

  /** Reading two bytes and encoding the value again gives the same bytes. */
  lemma EncodeReadU16BE(d: Bytes, off: nat)
    requires off + 2 <= |d|
    ensures EncodeU16BE(ReadU16BE(d, off)) == d[off..off + 2]
  {
  }

  /** Reading four bytes and encoding the value again gives the same bytes. */
  lemma EncodeReadU32BE(d: Bytes, off: nat)
    requires off + 4 <= |d|
    ensures EncodeU32BE(ReadU32BE(d, off)) == d[off..off + 4]
  {
  }
}
