/**
  The typed value decoder (to_native_endianess): reinterprets the first
  bytes of a window as 8-, 16-, 32- and 64-bit integers in a chosen byte
  order, filling only the widths that max_read reaches.
 */
module Decoder {
  import opened Bytes
  import opened Endian

  /** The byte-order codes of the program. Any other code is accepted and decodes nothing. */
  const LittleEndian: int := 0
  const BigEndian: int := 1

  /**
    outvalues_t. Each C union is one bit pattern here; its signed and
    floating-point members are readings of that pattern (I8 .. F64Bits).
    The utf8/utf16 member points at the input, so it is the input window.
   */
  datatype OutValues = OutValues(ui8: byte, ui16: bv16, ui32: bv32, ui64: bv64, text: seq<byte>)
  {
    function I8(): int { Signed(ui8 as int, 0x80) }
    function I16(): int { Signed(ui16 as int, 0x8000) }
    function I32(): int { Signed(ui32 as int, 0x8000_0000) }
    function I64(): int { Signed(ui64 as int, 0x8000_0000_0000_0000) }
    /** f32 and f64 share storage with ui32 and ui64; the model keeps their bit patterns. */
    function F32Bits(): bv32 { ui32 }
    function F64Bits(): bv64 { ui64 }
  }

  /** The two's-complement reading of an unsigned value u whose sign bit weighs half. */
  function Signed(u: int, half: int): int
  {
    if u < half then u else u - 2 * half
  }

  /** The result of one call: the filled outvalues_t and the value returned. */
  datatype Decoded = Decoded(out: OutValues, result: int)

  /** Whether a call with this max_read and byte order fills the field of width w bytes. */
  predicate Reaches(maxRead: int, endianess: int, w: int)
  {
    (endianess == LittleEndian || endianess == BigEndian) && maxRead >= w
  }

  /** The number of input bytes the widest filled field covers. */
  function Consulted(maxRead: int): nat
  {
    if maxRead < 1 then 0
    else if maxRead < 2 then 1
    else if maxRead < 4 then 2
    else if maxRead < 8 then 4
    else 8
  }

  /**
    to_native_endianess(in, max_read, endianess, out). The caller vouches
    for the bytes the call reads; the body indexes nothing beyond
    Consulted(maxRead).
   */
  function ToNativeEndianess(input: seq<byte>, maxRead: int, endianess: int): (r: Decoded)
    requires |input| >= Consulted(maxRead)
    ensures r.out.text == input
    ensures r.out.ui8 == if Reaches(maxRead, endianess, 1) then input[0] else 0
    ensures r.out.ui16 ==
      if !Reaches(maxRead, endianess, 2) then 0
      else if endianess == BigEndian then Be16(input) else Le16(input)
    ensures r.out.ui32 ==
      if !Reaches(maxRead, endianess, 4) then 0
      else if endianess == BigEndian then Be32(input) else Le32(input)
    ensures r.out.ui64 ==
      if !Reaches(maxRead, endianess, 8) then 0
      else if endianess == BigEndian then Be64(input) else Le64(input)
    ensures endianess == BigEndian && 2 <= maxRead < 4 ==> r.result == 2
    ensures endianess == BigEndian && 4 <= maxRead < 8 ==> r.result == 4
    ensures endianess != BigEndian || maxRead < 2 || maxRead >= 8 ==> r.result == maxRead
  {
    var zero := OutValues(0, 0, 0, 0, input);
    if endianess == LittleEndian then
      if maxRead < 1 then Decoded(zero, maxRead)
      else
        var o1 := zero.(ui8 := input[0]);
        if maxRead < 2 then Decoded(o1, maxRead)
        else
          var o2 := o1.(ui16 := Le16(input));
          if maxRead < 4 then Decoded(o2, maxRead)
          else
            var o4 := o2.(ui32 := Le32(input));
            if maxRead < 8 then Decoded(o4, maxRead)
            else Decoded(o4.(ui64 := Le64(input)), maxRead)
    else if endianess == BigEndian then
      if maxRead < 1 then Decoded(zero, maxRead)
      else
        var o1 := zero.(ui8 := input[0]);
        if maxRead < 2 then Decoded(o1, maxRead)
        else
          Swap16OfLeIsBe(input);
          var o2 := o1.(ui16 := Swap16(Le16(input)));
          if maxRead < 4 then Decoded(o2, 2)
          else
            Swap32OfLeIsBe(input);
            var o4 := o2.(ui32 := Swap32(Le32(input)));
            if maxRead < 8 then Decoded(o4, 4)
            else
              Swap64OfLeIsBe(input);
              Decoded(o4.(ui64 := Swap64(Le64(input))), maxRead)
    else Decoded(zero, maxRead)
  }

  /** The signed members are the two's-complement readings of their unsigned partners. */
  lemma SignedOverlay(o: OutValues)
    ensures -0x80 <= o.I8() < 0x80 && o.I8() % 0x100 == o.ui8 as int
    ensures -0x8000 <= o.I16() < 0x8000 && o.I16() % 0x1_0000 == o.ui16 as int
    ensures -0x8000_0000 <= o.I32() < 0x8000_0000 && o.I32() % 0x1_0000_0000 == o.ui32 as int
    ensures -0x8000_0000_0000_0000 <= o.I64() < 0x8000_0000_0000_0000
    ensures o.I64() % 0x1_0000_0000_0000_0000 == o.ui64 as int
  {
    SignedReading(o.ui8 as int, 0x80);
    SignedReading(o.ui16 as int, 0x8000);
    SignedReading(o.ui32 as int, 0x8000_0000);
    SignedReading(o.ui64 as int, 0x8000_0000_0000_0000);
  }

  /** The signed reading of an unsigned value below 2 * half lies in [-half, half) and agrees with it modulo 2 * half. */
  lemma SignedReading(u: int, half: int)
    requires 0 < half && 0 <= u < 2 * half
    ensures -half <= Signed(u, half) < half
    ensures Signed(u, half) % (2 * half) == u
  {
    ModShift(u, 2 * half);
  }

  lemma ModShift(u: int, m: int)
    requires 0 < m && 0 <= u < m
    ensures u % m == u
    ensures (u - m) % m == u
  {
    assert u - m == -1 * m + u;
  }

  /** The numeric fields depend on nothing past the first Consulted(maxRead) bytes. */
  lemma ReadsOnlyConsulted(a: seq<byte>, b: seq<byte>, maxRead: int, endianess: int)
    requires |a| >= Consulted(maxRead) && |b| >= Consulted(maxRead)
    requires a[..Consulted(maxRead)] == b[..Consulted(maxRead)]
    ensures var ra, rb := ToNativeEndianess(a, maxRead, endianess), ToNativeEndianess(b, maxRead, endianess);
      ra.out.ui8 == rb.out.ui8 && ra.out.ui16 == rb.out.ui16 && ra.out.ui32 == rb.out.ui32 &&
      ra.out.ui64 == rb.out.ui64 && ra.result == rb.result
  {
    var n := Consulted(maxRead);
    PrefixAgrees(a, b, n);
    WindowReads(a, b, n);
  }

  /** Equal prefixes agree byte by byte. */
  lemma PrefixAgrees(a: seq<byte>, b: seq<byte>, n: nat)
    requires n <= |a| && n <= |b| && a[..n] == b[..n]
    ensures forall i :: 0 <= i < n ==> a[i] == b[i]
  {
    forall i | 0 <= i < n
      ensures a[i] == b[i]
    {
      assert a[i] == a[..n][i] && b[i] == b[..n][i];
    }
  }

  /** Two windows that agree on their first n bytes give the same readings of width at most n. */
  lemma WindowReads(a: seq<byte>, b: seq<byte>, n: nat)
    requires n <= |a| && n <= |b|
    requires forall i :: 0 <= i < n ==> a[i] == b[i]
    ensures n >= 1 ==> a[0] == b[0]
    ensures n >= 2 ==> Le16(a) == Le16(b) && Be16(a) == Be16(b)
    ensures n >= 4 ==> Le32(a) == Le32(b) && Be32(a) == Be32(b)
    ensures n >= 8 ==> Le64(a) == Le64(b) && Be64(a) == Be64(b)
  {
    if n >= 2 {
      Window16(a, b);
    }
    if n >= 4 {
      Window32(a, b);
    }
    if n >= 8 {
      Window64(a, b);
    }
  }

  lemma Window16(a: seq<byte>, b: seq<byte>)
    requires |a| >= 2 && |b| >= 2
    requires a[0] == b[0] && a[1] == b[1]
    ensures Le16(a) == Le16(b) && Be16(a) == Be16(b)
  {
  }

  lemma Window32(a: seq<byte>, b: seq<byte>)
    requires |a| >= 4 && |b| >= 4
    requires a[0] == b[0] && a[1] == b[1] && a[2] == b[2] && a[3] == b[3]
    ensures Le32(a) == Le32(b) && Be32(a) == Be32(b)
  {
  }

  lemma Window64(a: seq<byte>, b: seq<byte>)
    requires |a| >= 8 && |b| >= 8
    requires a[0] == b[0] && a[1] == b[1] && a[2] == b[2] && a[3] == b[3]
    requires a[4] == b[4] && a[5] == b[5] && a[6] == b[6] && a[7] == b[7]
    ensures Le64(a) == Le64(b) && Be64(a) == Be64(b)
  {
  }

  /** Big-endian decoding gives the byte-swapped little-endian values, width by width. */
  lemma BigIsSwappedLittle(input: seq<byte>, maxRead: int)
    requires |input| >= Consulted(maxRead)
    ensures var little, big := ToNativeEndianess(input, maxRead, LittleEndian), ToNativeEndianess(input, maxRead, BigEndian);
      big.out.ui8 == little.out.ui8 &&
      big.out.ui16 == Swap16(little.out.ui16) &&
      big.out.ui32 == Swap32(little.out.ui32) &&
      big.out.ui64 == Swap64(little.out.ui64)
  {
    if maxRead >= 2 {
      Swap16OfLeIsBe(input);
    }
    if maxRead >= 4 {
      Swap32OfLeIsBe(input);
    }
    if maxRead >= 8 {
      Swap64OfLeIsBe(input);
    }
  }

  /** The bytes 01 00 00 00 read as a 32-bit integer: 1 little-endian, 16777216 big-endian. */
  lemma WorkedExample()
    ensures ToNativeEndianess([1, 0, 0, 0], 4, LittleEndian).out.I32() == 1
    ensures ToNativeEndianess([1, 0, 0, 0], 4, BigEndian).out.I32() == 16777216
    ensures ToNativeEndianess([1, 0, 0, 0], 4, BigEndian).result == 4
  {
  }

}
