/**
  Byte-order reversal of 16-, 32- and 64-bit integers (the swap_endianess
  helpers), and the big-endian reading of a byte window that gives them
  their meaning.
 */
module Endian {
  import opened Bytes

  /** swap_endianess16: the two bytes exchanged. */
  function Swap16(num: bv16): bv16
  {
    (num >> 8) | (num << 8)
  }

  /** swap_endianess32: four byte lanes moved by shift-and-mask. */
  function Swap32(num: bv32): bv32
  {
    ((num >> 24) & 0xff) |
    ((num << 8) & 0xff0000) |
    ((num >> 8) & 0xff00) |
    ((num << 24) & 0xff000000)
  }

  /** swap_endianess64: exchange adjacent bytes, then adjacent pairs, then halves. */
  function Swap64(num: bv64): bv64
  {
    var bytesSwapped := ((num << 8) & 0xff00ff00ff00ff00) | ((num >> 8) & 0x00ff00ff00ff00ff);
    var pairsSwapped := ((bytesSwapped << 16) & 0xffff0000ffff0000) | ((bytesSwapped >> 16) & 0x0000ffff0000ffff);
    (pairsSwapped << 32) | (pairsSwapped >> 32)
  }

  /** The integer stored big-endian in the first 2, 4 or 8 bytes of a window. */
  function Be16(bs: seq<byte>): bv16
    requires |bs| >= 2
  {
    (bs[0] as bv16 << 8) | bs[1] as bv16
  }

  function Be32(bs: seq<byte>): bv32
    requires |bs| >= 4
  {
    (bs[0] as bv32 << 24) | (bs[1] as bv32 << 16) | (bs[2] as bv32 << 8) | bs[3] as bv32
  }

  function Be64(bs: seq<byte>): bv64
    requires |bs| >= 8
  {
    (bs[0] as bv64 << 56) | (bs[1] as bv64 << 48) | (bs[2] as bv64 << 40) | (bs[3] as bv64 << 32) |
    (bs[4] as bv64 << 24) | (bs[5] as bv64 << 16) | (bs[6] as bv64 << 8) | bs[7] as bv64
  }

  /** The first n bytes of bs in the opposite order. */
  function Reverse(bs: seq<byte>, n: nat): (r: seq<byte>)
    requires n <= |bs|
    ensures |r| == n
    ensures forall i :: 0 <= i < n ==> r[i] == bs[n - 1 - i]
  {
    seq(n, i requires 0 <= i < n => bs[n - 1 - i])
  }

  /** Each swap undoes itself. */
  lemma SwapsInvolutive(x16: bv16, x32: bv32, x64: bv64)
    ensures Swap16(Swap16(x16)) == x16
    ensures Swap32(Swap32(x32)) == x32
    ensures Swap64(Swap64(x64)) == x64
  {
  }

  /** Big-endian reading is little-endian reading of the reversed window. */
  lemma BeIsLeOfReverse(bs: seq<byte>)
    requires |bs| >= 8
    ensures Be16(bs) == Le16(Reverse(bs, 2))
    ensures Be32(bs) == Le32(Reverse(bs, 4))
    ensures Be64(bs) == Le64(Reverse(bs, 8))
  {
  }

  /**
    Swapping the little-endian reading of a window gives its big-endian
    reading: the swap moves byte k of a value to byte width - 1 - k.
   */
  lemma Swap16OfLeIsBe(bs: seq<byte>)
    requires |bs| >= 2
    ensures Swap16(Le16(bs)) == Be16(bs)
  {
  }

  lemma Swap32OfLeIsBe(bs: seq<byte>)
    requires |bs| >= 4
    ensures Swap32(Le32(bs)) == Be32(bs)
  {
  }

  lemma Swap64OfLeIsBe(bs: seq<byte>)
    requires |bs| >= 8
    ensures Swap64(Le64(bs)) == Be64(bs)
  {
  }

  /** The swap reverses the memory layout of every value. */
  lemma SwapReversesLayout(x16: bv16, x32: bv32, x64: bv64)
    ensures Layout16(Swap16(x16)) == Reverse(Layout16(x16), 2)
    ensures Layout32(Swap32(x32)) == Reverse(Layout32(x32), 4)
    ensures Layout64(Swap64(x64)) == Reverse(Layout64(x64), 8)
  {
    var l64 := Layout64(x64);
    Layout64OfLe(l64);
    ReadLayout(x16, x32, x64);
    Swap64OfLeIsBe(l64);
    BeIsLeOfReverse(l64);
    Layout64OfLe(Reverse(l64, 8));
    var l32 := Layout32(x32);
    Layout32OfLe(l32);
    Swap32OfLeIsBe(l32);
    Layout32OfLe(Reverse(l32, 4));
  }

}
