/**
  Bytes, and how 16-, 32- and 64-bit integers are laid out in memory on the
  little-endian host the program is built for (NATIVE_ENDIANESS 0): byte k
  of the layout holds bits 8k .. 8k + 7 of the value.
 */
module Bytes {

  type byte = bv8

  /** A C char taken as the byte it occupies. */
  function CharByte(c: char): byte
  {
    ((c as int) % 256) as byte
  }

  /** The bytes of a C string, without its terminator. */
  function CharBytes(s: string): (r: seq<byte>)
    ensures |r| == |s|
    ensures forall i :: 0 <= i < |s| ==> r[i] == CharByte(s[i])
  {
    seq(|s|, i requires 0 <= i < |s| => CharByte(s[i]))
  }

  /** The low 8, 16 and 32 bits of a 64-bit value: C's conversion to a narrower integer type. */
  function Low8(x: bv64): byte
  {
    (x & 0xff) as byte
  }

  function Low16(x: bv64): bv16
  {
    (x & 0xffff) as bv16
  }

  function Low32(x: bv64): bv32
  {
    (x & 0xffff_ffff) as bv32
  }

  /** The memory layout of a value, least significant byte first. */
  function Layout16(x: bv16): (r: seq<byte>)
    ensures |r| == 2
  {
    [(x & 0xff) as byte, ((x >> 8) & 0xff) as byte]
  }

  function Layout32(x: bv32): (r: seq<byte>)
    ensures |r| == 4
  {
    [(x & 0xff) as byte, ((x >> 8) & 0xff) as byte, ((x >> 16) & 0xff) as byte, ((x >> 24) & 0xff) as byte]
  }

  function Layout64(x: bv64): (r: seq<byte>)
    ensures |r| == 8
  {
    [(x & 0xff) as byte, ((x >> 8) & 0xff) as byte, ((x >> 16) & 0xff) as byte, ((x >> 24) & 0xff) as byte,
     ((x >> 32) & 0xff) as byte, ((x >> 40) & 0xff) as byte, ((x >> 48) & 0xff) as byte, ((x >> 56) & 0xff) as byte]
  }

  /** The value a little-endian host reads from the first 2, 4 or 8 bytes of a window. */
  function Le16(bs: seq<byte>): bv16
    requires |bs| >= 2
  {
    (bs[1] as bv16 << 8) | bs[0] as bv16
  }

  function Le32(bs: seq<byte>): bv32
    requires |bs| >= 4
  {
    (bs[3] as bv32 << 24) | (bs[2] as bv32 << 16) | (bs[1] as bv32 << 8) | bs[0] as bv32
  }

  function Le64(bs: seq<byte>): bv64
    requires |bs| >= 8
  {
    (bs[7] as bv64 << 56) | (bs[6] as bv64 << 48) | (bs[5] as bv64 << 40) | (bs[4] as bv64 << 32) |
    (bs[3] as bv64 << 24) | (bs[2] as bv64 << 16) | (bs[1] as bv64 << 8) | bs[0] as bv64
  }

  /** Reading back a stored value gives the value. */
  lemma ReadLayout(x16: bv16, x32: bv32, x64: bv64)
    ensures Le16(Layout16(x16)) == x16
    ensures Le32(Layout32(x32)) == x32
    ensures Le64(Layout64(x64)) == x64
  {
  }

  /** Storing the value read from a window gives the window back. */
  lemma Layout32OfLe(bs: seq<byte>)
    requires |bs| >= 4
    ensures Layout32(Le32(bs)) == bs[..4]
  {
    var laid := Layout32(Le32(bs));
    assert laid[0] == bs[0];
    assert laid[1] == bs[1];
    assert laid[2] == bs[2];
    assert laid[3] == bs[3];
  }

  lemma Layout64OfLe(bs: seq<byte>)
    requires |bs| >= 8
    ensures Layout64(Le64(bs)) == bs[..8]
  {
    LaneOfLe64(bs[0], bs[1], bs[2], bs[3], bs[4], bs[5], bs[6], bs[7]);
    assert bs[..8] == [bs[0], bs[1], bs[2], bs[3], bs[4], bs[5], bs[6], bs[7]];
  }

  /** The same fact for a window given byte by byte. */
  lemma LaneOfLe64(b0: byte, b1: byte, b2: byte, b3: byte, b4: byte, b5: byte, b6: byte, b7: byte)
    ensures Layout64(Le64([b0, b1, b2, b3, b4, b5, b6, b7])) == [b0, b1, b2, b3, b4, b5, b6, b7]
  {
  }

  /** The narrower conversions keep the low bytes of the 64-bit layout. */
  lemma LowIsLayoutPrefix(x: bv64)
    ensures Layout64(x)[..1] == [Low8(x)]
    ensures Layout64(x)[..2] == Layout16(Low16(x))
    ensures Layout64(x)[..4] == Layout32(Low32(x))
  {
  }

}
