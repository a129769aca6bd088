# hexview core in Dafny

hexview is an interactive byte-level file inspector. This project models its
three pure engines and proves properties of them:

- **the pattern compiler and matcher** (`hexview/pattern.c`). It compiles a
  list of tokens into a pattern. Each pattern entry is a literal byte or a
  wildcard. A typed token such as `ui16258`, `wcA`, `sabc` or `?4` expands
  into one entry per byte it stands for. The matcher then runs a brute-force
  sliding search for the pattern in a byte window bounded by `maxsearch`.
- **the typed value decoder** (`to_native_endianess` in `hexview/util.c`,
  with the byte-swap helpers and the `outvalues_t` overlay of
  `hexview/util.h`). It zeroes the output and then fills the 8-, 16-, 32- and
  64-bit readings of a byte window, as far as `max_read` reaches. In
  big-endian mode it byte-swaps the host's little-endian reads.
- **the command tokenizer** (`tokenize`, `front_token`, `offset_token` and
  `append_list` in `hexview/tokenizer.c`). It is a character state machine
  with a quote state and an escape flag. It splits a command line on spaces
  and tabs into a doubly linked token list.

Modules, leaves first:

| file | module | contents |
|---|---|---|
| `wrappers.dfy` | `Wrappers` | `Option`, which stands for a C pointer that may be NULL |
| `libc.dfy` | `Libc` | the C library's `strtol`/`strtoll`/`strtoull`/`atof`, passed in as a `Conversions` value |
| `bytes.dfy` | `Bytes` | bytes as `bv8`; the little-endian memory layout of 16/32/64-bit values on the host (`NATIVE_ENDIANESS 0`, `hexview/defs.h:12`); C's narrowing conversions |
| `endian.dfy` | `Endian` | `swap_endianess16/32/64` and big-endian assembly |
| `decoder.dfy` | `Decoder` | `outvalues_t` and `to_native_endianess` |
| `pattern.dfy` | `Pattern` | `has_prefix`, the prefix chain, the `append_*` helpers, `pattern_generate`, `pattern_find_next` |
| `tokenizer.dfy` | `Tokenizer` | the scanner as a fold over the characters, the token list, `front_token`, `offset_token` |

Modelling choices:

- **Strings and bytes.**
  - A C string is a Dafny `string` without its terminator.
  - A C `char` stored as a byte is its code modulo 256 (`Bytes.CharByte`).
  - The `ws` branch stores `vals.ui16 = *s` from a `char`, which is signed on the program's targets. A byte from 0x80 up is therefore sign-extended to 0xFF high bytes (`Pattern.WideUnit`). `Pattern.WideString` proves the high byte is 0 for ASCII text.
- **Numeric parsing** comes from the C library, so it is a parameter.
  - `strtoll` and `strtoull` return the 64-bit pattern of their result. The narrower `vals` members then keep its low 8/16/32 bits.
  - `atof` is represented only by the bit pattern of the float it yields.
- **Patterns.** A pattern is its entries plus the `count` kept next to them. `Pattern.Valid` states that the two agree.
- **The token list.** A list is a sequence of nodes whose `prev`/`next` are indices into the sequence. NULL is `None`. `pattern_generate` walks the list from its front, so `Pattern.Generate` takes the token texts in list order.
- **tokenize** is split into two stages: the token texts (`Tokenizer.Split`), then the list built from them (`Tokenizer.BuildList`). The C loop interleaves the two. Every token is appended to the list as soon as it closes, so the result is the same.

## Behaviour worth knowing

The model follows the code in each of these points, some of which an
obvious reading of the token grammar would get wrong.

- **Prefix chain.** A longest-prefix reading would make `sn` and `wsn` reachable. The code tests the prefixes in a fixed order and takes the first that fits (`hexview/pattern.c:80-209`).
  - `s` is tested before `sn` (`hexview/pattern.c:171-182`), and `ws` before `wsn` (`hexview/pattern.c:183-204`).
  - So a token `snabc` stores the bytes `n a b c` with no terminator, and `wsn…` tokens are widened without a terminating unit.
  - `Pattern.NulVariantsUnreachable` proves the `sn` and `wsn` branches are never taken.
- **Bare `?`.** A bare `?` appends no wildcard at all: the count stays 0 when nothing follows the `?` (`hexview/pattern.c:83-86`, `Pattern.WildcardRun`).
- **Separators in typed tokens.** The text right after the prefix is parsed, so in `ui16:258` the parse starts at `:` (`hexview/pattern.c:112-113`).
- **Widths not reached.** The output is zeroed before anything is filled (`hexview/util.c:14`), so a width that `max_read` does not reach reads as 0.
- **Decoder return value.**
  - For little-endian the decoder returns `max_read` unchanged, even above 8 (`hexview/util.c:19-32, 57`).
  - For big-endian it returns 2 for `max_read` 2–3, 4 for 4–7, and `max_read` otherwise (`hexview/util.c:40-51`).
- **Other byte-order codes.** A code other than 0 or 1 matches no case of the switch, so every field stays 0 and `max_read` is returned (`hexview/util.c:17-57`).

## Model

| member | source | states |
|---|---|---|
| Pattern.HasPrefix | hexview/pattern.c:272-288 | true exactly when `prefix` is an initial segment of `s`, including an empty prefix and `s` equal to `prefix` |
| Pattern.Classify | hexview/pattern.c:80-209 | the branch taken is one whose prefix the token starts with, and no prefix earlier in the chain fits; no branch (hex fallback) exactly when no prefix fits |
| Pattern.NulVariantsUnreachable | hexview/pattern.c:171-204 | a `sn…` token takes the `s` branch and a `wsn…` token the `ws` branch; the `sn` and `wsn` branches are never taken |
| Pattern.AppendEntry | hexview/pattern.c:290-307 | the entry is stored after all existing entries and the count grows by one; nothing already stored changes |
| Pattern.AppendByte | hexview/pattern.c:35-43 | a literal entry for the byte is appended at the end; its contract is AppendEntry's with the literal entry |
| Pattern.AppendWildcard | hexview/pattern.c:45-51 | a wildcard entry is appended at the end; its contract is AppendEntry's with the wildcard entry |
| Pattern.AppendMemory | hexview/pattern.c:309-315 | the block's bytes are appended as literals, in order, after the existing entries, and the count grows by the block length |
| Pattern.AppendWildcards | hexview/pattern.c:86 | the wildcard loop appends exactly n wildcards at the end and grows the count by n |
| Pattern.WideUnit | hexview/pattern.c:190 | the 16-bit unit `vals.ui16 = *s` stores for a signed `char`; Pattern.WideUnitBytes proves its two bytes are the character's byte and then 0, or 0xFF from byte 0x80 up |
| Pattern.AppendWide | hexview/pattern.c:187-192 | each character appends its 16-bit unit as two literals at the end; the count grows by twice the length |
| Pattern.Contribution | hexview/pattern.c:80-209 | a token contributes nothing (the error exit) exactly when it is a typed prefix with nothing after it |
| Pattern.Emit | hexview/pattern.c:79-211 | one loop iteration appends exactly the token's contribution after the existing entries, or fails exactly when the token is malformed |
| Pattern.Store | hexview/pattern.c:88-204 | a typed token with a remainder appends its stored entries at the end, and the count grows by their number |
| Pattern.Generate | hexview/pattern.c:54-220 | a pattern exists exactly when no token is malformed; it is the in-order concatenation of each token's entries, and its count (the reported size) equals its length |
| Pattern.FlattenAppend | hexview/pattern.c:76-212 | the entries of a split token list are the entries of the first part followed by those of the second |
| Pattern.WildcardRun | hexview/pattern.c:80-87 | `?N` contributes exactly N wildcards (N the base-0 parse after `?`), a bare `?` none, and neither fails |
| Pattern.IntegerLiteral | hexview/pattern.c:88-143 | an `iN`/`uiN` token contributes the first N/8 bytes of its parsed value's little-endian layout, as literals |
| Pattern.IntegerReadsBack | hexview/pattern.c:88-143 | an `iN`/`uiN` token contributes N/8 literals which, read back little-endian, give the parsed value modulo 2^N |
| Pattern.CharLiterals | hexview/pattern.c:158-176 | `c` contributes the first character's byte, `wc` that byte and a 0, `s` every remaining byte with no terminator |
| Pattern.WideString | hexview/pattern.c:183-193 | `ws` contributes two literals per character: its byte, then 0 (or 0xFF by sign extension from byte 0x80 up), and always 0 for ASCII |
| Pattern.FloatLiterals | hexview/pattern.c:144-157 | `f32` contributes the 4 bytes and `f64` the 8 bytes of the float `atof` yields, least significant first |
| Pattern.HexFallback | hexview/pattern.c:205-209 | a token with no known prefix contributes one literal, its base-16 parse truncated to 8 bits, and never fails |
| Pattern.FirstMatchFrom | hexview/pattern.h:26-39 | the reference search: a result from q on is a match, and no offset from q up to it (or at all, for None) matches |
| Pattern.FindNext | hexview/pattern.c:230-270 | a found offset p has p + count within maxsearch and every literal equal to its byte, and no smaller offset matches; not found means no offset matches; equal to the reference search |
| Pattern.SearchReadsWindowOnly | hexview/pattern.c:243-248 | the search result does not depend on any byte at or past maxsearch |
| Pattern.EmptyPatternAtZero | hexview/pattern.c:241-269 | an empty pattern is found at offset 0, even with maxsearch 0 |
| Pattern.RelaxKeepsMatches | hexview/pattern.c:248 | turning a literal into a wildcard keeps every match, so the first match is never later |
| Pattern.SearchExample | hexview/pattern.c:239-269 | FF followed by a wildcard, searched in 00 FF 10 FF 20 with maxsearch 5, is found at 1 |
| Endian.Swap16 | hexview/util.h:74-75 | exchanges the two bytes: its meaning is given by Endian.SwapsInvolutive, Endian.Swap16OfLeIsBe and Endian.SwapReversesLayout |
| Endian.Swap32 | hexview/util.h:77-84 | moves byte k to byte 3−k: its meaning is given by Endian.SwapsInvolutive, Endian.Swap32OfLeIsBe and Endian.SwapReversesLayout |
| Endian.Swap64 | hexview/util.h:86-92 | moves byte k to byte 7−k: its meaning is given by Endian.SwapsInvolutive, Endian.Swap64OfLeIsBe and Endian.SwapReversesLayout |
| Endian.SwapsInvolutive | hexview/util.h:74-92 | each of the three swaps undoes itself |
| Endian.Swap16OfLeIsBe | hexview/util.h:74-75 | swapping the little-endian reading of two bytes gives their big-endian reading |
| Endian.Swap32OfLeIsBe | hexview/util.h:77-84 | swapping the little-endian reading of four bytes gives their big-endian reading |
| Endian.Swap64OfLeIsBe | hexview/util.h:86-92 | swapping the little-endian reading of eight bytes gives their big-endian reading |
| Endian.SwapReversesLayout | hexview/util.h:74-92 | each swap moves byte k of a value to byte width−1−k |
| Decoder.ToNativeEndianess | hexview/util.c:6-61 | the text view is the input; each field is 0 unless max_read reaches its width and the byte order is known, else the little- or big-endian assembly of the first bytes; the return value per byte order |
| Decoder.SignedOverlay | hexview/util.h:38-72 | each signed field lies in its two's-complement range and agrees with its unsigned partner modulo 2^N |
| Decoder.ReadsOnlyConsulted | hexview/util.c:20-52 | windows that agree on their first min(max_read, 8) bytes (rounded down to a width) decode to the same fields and return value |
| Decoder.BigIsSwappedLittle | hexview/util.c:33-54 | big-endian decoding gives the byte-swapped little-endian fields, width by width |
| Decoder.WorkedExample | hexview/util.c:19-57 | 01 00 00 00 with max_read 4 gives i32 1 little-endian and 16777216 big-endian, and big-endian returns 4 |
| Tokenizer.Step | hexview/tokenizer.c:59-134 | one pass of the switch; its laws are Tokenizer.QuotedSection, Tokenizer.DoubleBackslash, Tokenizer.EscapedQuote, Tokenizer.EscapedQuoteInOtherQuote, Tokenizer.EscapedOrdinary and Tokenizer.RunPlain |
| Tokenizer.Split | hexview/tokenizer.c:57-159 | the token texts: the switch run over the characters before the first NUL, then the final flush of a non-empty builder; Tokenizer.PlainSplit, Tokenizer.DoubleSpace, Tokenizer.EscapedSpace and Tokenizer.TokensClean state what it yields |
| Tokenizer.UpToNul | hexview/tokenizer.c:57 | the scan visits exactly the characters before the first NUL |
| Tokenizer.RunAppend | hexview/tokenizer.c:57-135 | scanning a concatenation is scanning each part in turn |
| Tokenizer.PlainSplit | hexview/tokenizer.c:57-159 | with no quotes, backslashes, tabs or NULs, the tokens are the pieces between spaces, empty ones included, with a last empty piece dropped |
| Tokenizer.DoubleSpace | hexview/tokenizer.c:61-90 | `a  b` gives "a", "", "b" |
| Tokenizer.EscapedSpace | hexview/tokenizer.c:57-135 | `a\ b` gives only "a": the escape survives the space and swallows the `b` |
| Tokenizer.QuotedSection | hexview/tokenizer.c:61-123 | inside quotes, spaces, tabs and the other quote character are stored as they are, and the quotes themselves are not stored |
| Tokenizer.DoubleBackslash | hexview/tokenizer.c:124-128 | two backslashes store one backslash, in any quote state |
| Tokenizer.EscapedQuote | hexview/tokenizer.c:91-123 | an escaped quote character is stored and leaves the quote state unchanged |
| Tokenizer.EscapedQuoteInOtherQuote | hexview/tokenizer.c:91-123 | inside the other kind of quote an escaped quote is stored, and the escape survives it to act on the next character |
| Tokenizer.EscapedOrdinary | hexview/tokenizer.c:124-133 | an escaped ordinary character is dropped |
| Tokenizer.TokensClean | hexview/tokenizer.c:57-159 | no token holds a NUL, and with no quotes in the input no token holds a space or tab |
| Tokenizer.AppendList | hexview/tokenizer.c:212-226 | the new node is empty, links back to `back`, and becomes `back`'s successor; no other node changes |
| Tokenizer.AppendKeepsLinks | hexview/tokenizer.c:212-226 | appending after the last node keeps every prev/next link consistent |
| Tokenizer.BuildList | hexview/tokenizer.c:69-81 | one node per token text, in order, well linked, each holding its text and strtol's reading of it |
| Tokenizer.Tokenize | hexview/tokenizer.c:41-164 | no list (NULL) exactly when the line has no tokens; otherwise a well-linked list of the tokens in input order, front first, each holding its text and strtol's reading of it |
| Tokenizer.FrontToken | hexview/tokenizer.c:166-172 | NULL gives NULL; any node gives the first node, which has no predecessor |
| Tokenizer.OffsetToken | hexview/tokenizer.c:174-202 | NULL gives NULL; otherwise the node k places away (k = 0 gives the node itself), or NULL when that is off either end |

## Left out

- File access, the command loop, command dispatch and printing (`file.c`, `main.c`, `control.c`), and `readline`: these are I/O.
- Allocation failure is not modelled: `malloc`, `calloc` and `realloc` are taken to succeed.
  - So `append_entry` never silently drops an entry.
  - The NULL returns of `tokenize` and `pattern_generate` on allocation failure are not modelled.
  - Storage capacity and its doubling are not modelled.
- The string builder is modelled by the text it holds. Its growth bug, where it reallocates `nlen` bytes but records a doubled capacity (`hexview/tokenizer.c:280-285`), is memory layout and is not modelled.
- The C library's number parsing (`strtol`, `strtoll`, `strtoull`, `atof`): whitespace, sign, base prefixes, partial parses and overflow belong to the C library. They are abstract parameters, so no property depends on them.
- Floating point: `f32`/`f64` tokens append the 4 or 8 bytes of the bit pattern `atof` yields, and the decoder's float fields are their bit patterns.
- The unimplemented big-endian-host branch of `to_native_endianess` (`hexview/util.c:58-60`), its unused `toread`, and the empty `append_bytes` stub: none of them affects a result.
- Pattern.Valid: the pattern's `count` is an `unsigned int` in C. The model's counter is unbounded, so a wrap-around after 2^32 entries is not modelled. The wildcard counter is likewise unbounded.
- Tokenizer.OffsetToken: negating an `offset` of INT_MIN overflows in C. The model's offset is unbounded.
- Tokenizer.BuildList: `token.integer` is an `int`, so the `long` that `strtol` returns may be narrowed on assignment. The model stores whatever the `strtol` parameter yields for the token, and that parameter includes any narrowing.
- `free_token_list` and `pattern_free` only release memory.
- Pattern.Generate: a C string cannot hold a NUL, and a C `char` has 256 values. The model's token texts are any Dafny strings. A text with an embedded NUL or a character from 256 up has no C counterpart, and the model promises nothing about how the C code would treat it. For example, C would read `"i8\0"` as `i8` and take the error exit, but the model does not. Tokenizer.TokensClean proves that the tokenizer never produces a token holding a NUL.
