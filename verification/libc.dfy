/**
  The C library's numeric text conversions that the core calls. Their
  whitespace, sign, base-prefix and overflow rules belong to the C library,
  not to the program, so the model receives them as a value of this type and
  assumes nothing about what they return.
 */
module Libc {

  datatype Conversions = Conversions(
    /** strtol(text, &end, base) as stored in a token's integer */
    strtol: (string, int) -> int,
    /** strtoll(text, &end, base): a long long, kept as its 64-bit two's-complement pattern */
    strtoll: (string, int) -> bv64,
    /** strtoull(text, &end, base): an unsigned long long */
    strtoull: (string, int) -> bv64,
    /** bit pattern of (float32)atof(text) */
    atof32: string -> bv32,
    /** bit pattern of atof(text) */
    atof64: string -> bv64
  )

}
