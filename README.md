# Byte-string codecs of BitcoinToolkit, in Dafny

This project models the codec library `src/codec/base.c`: the positional
codecs for base 6 and base 58, Base58Check, Base64 and the four word-width
converters between 8-, 16- and 32-bit elements. It also models the three
alphabet tables. The model proves what these functions compute.

Every C function follows the same two-phase protocol. A call with a NULL
output buffer returns the output length. A call with a buffer fills it and
returns 0. An error returns `(size_t)-1`. In the model, each C function
becomes a method that takes an `array?` (where `null` is the query call) and
returns a `Status`: `Len(n)`, `Ok` or `Err`. Each method is proved against a
pure specification function. The round trips, alphabets, lengths and error
cases are then proved about those functions.

Modules:

- `Common`: the element types (`byte`, `u16`, `u32`), `Status`, table lookup and validation.
- `Tables`: the three alphabets.
- `BigNum`: the OpenSSL big number as a `nat`. The bytes→hex→BIGNUM bridge is `BeValue`; the BIGNUM→hex→bytes bridge is `MinimalBytes`. Digit expansion is `Digits` and accumulation is `Value`.
- `Positional` and `PositionalLaws`: base 6 and base 58.
- `Base58Check`.
- `Base64` and `Base64Laws`.
- `WordWidth` and `WordWidthLaws`: the converters.

SHA-256 (FIPS 180-4) is a function parameter `hash: seq<byte> -> Digest`, where `Digest` is 32 bytes. Every Base58Check property holds for any such function.

## Model

| member | source | states |
|---|---|---|
| Tables.Base6TableFacts | src/codec/base.c:7-8 | the base-6 table has 6 distinct symbols, `'0'` first |
| Tables.Base58TableFacts | src/codec/base.c:9-13 | the base-58 table has 58 distinct symbols, `'1'` first (the value 0) |
| Tables.Base64TableFacts | src/codec/base.c:14-19 | the base-64 table has 64 distinct symbols, `'A'` first, and does not contain `'='` |
| Tables.Base64SymbolIsEntry | src/codec/base.c:14-19 | entry `d` of the base-64 table is the RFC 4648 symbol of `d` (`A`-`Z`, `a`-`z`, `0`-`9`, `+`, `/`) |
| Tables.Base64ValueIsIndex | src/codec/base.c:14-19 | a symbol's base-64 value is its position in the table, or none when it is absent |
| Common.Lookup | src/codec/base.c:76-84 | the table scan stops at the first matching entry, and reaches the end exactly when the symbol is not in the table |
| Common.Validate | src/codec/base.c:74-87 | validation fails exactly when some symbol is outside the table; otherwise it yields every symbol's table position |
| BigNum.MinimalBytes | src/codec/base.c:117-132 | the bytes written from a big number have that value, are empty exactly for zero and have a nonzero first byte |
| BigNum.HexDigitsHalf | src/codec/base.c:120 | `strlen(BN_bn2hex(n)) / 2` is the number of minimal bytes of `n`; it is 0 for zero, whose hex string is `"0"` |
| BigNum.MinimalBytesStripsZeros | src/codec/base.c:117-132 | bytes→number→bytes drops exactly the leading zero bytes |
| BigNum.ValueOfDigits | src/codec/base.c:41-47 | the remainders of repeated division by the base, most significant first, denote the number |
| BigNum.DigitsOfValue | src/codec/base.c:104-113 | a digit string with no leading zero digit is the digit expansion of the value it accumulates to |
| Positional.DivideOut | src/codec/base.c:37-47 | the `while (dv > 0)` division loop emits, least significant first, the symbols of the digits of `n`; it runs at least once, so zero gives one digit |
| Positional.Accumulate | src/codec/base.c:104-113 | the accumulation loop computes the sum of dᵢ·baseⁿ⁻¹⁻ⁱ |
| Positional.CountLeading | src/codec/base.c:155-161 | the count of leading zero bytes (or leading `'1'`s) is the length of the longest run of them at the front |
| Positional.InvalidAfterOnes | src/codec/base.c:213-241 | validating only the symbols after the leading `'1'`s rejects exactly the strings that hold some symbol outside the table |
| Positional.WriteReversed | src/codec/base.c:58-59 | the reversal loop writes the division loop's symbols last-first into the cells from `at` on and leaves every other cell unchanged; `base58encode` uses it at src/codec/base.c:197-198, after the `'1'`s |
| Positional.Fill | src/codec/base.c:194-195 | the loop writing `'1'` into the first `k` cells sets exactly those cells; `base58decode` uses it for the zero bytes at src/codec/base.c:291-292 |
| Positional.CopyFront | src/codec/base.c:286 | `hexstr_to_bytearr` as the decoders use it puts the magnitude bytes at the front of the buffer and nothing past them; `base58check_decode` uses it for its copy-out at src/codec/base.c:356-358 |
| Positional.ShiftRight | src/codec/base.c:289-290 | the last-first shift moves the first `m` cells `gap` places right, so every moved byte is read before it is overwritten, and leaves the cells past them unchanged |
| Positional.WriteDecoded | src/codec/base.c:286-292 | copy, shift and zero fill together leave one zero byte per leading `'1'`, then the magnitude bytes, at the front of the buffer |
| Positional.Base6EncodeCall | src/codec/base.c:21-67 | a query answers the length of the encoding; a fill writes the digit symbols of the payload's value and nothing past them |
| Positional.Base6DecodeCall | src/codec/base.c:69-141 | both modes return the sentinel on an invalid symbol and write nothing; otherwise a query answers the decoded length and a fill writes the minimal bytes of the value |
| Positional.Base58EncodeCall | src/codec/base.c:143-206 | a query answers the length; a fill writes one `'1'` per leading zero byte, then the base-58 digits |
| Positional.Base58DecodeCall | src/codec/base.c:208-301 | both modes reject an invalid symbol and write nothing; otherwise it writes one zero byte per leading `'1'`, then the minimal bytes of the value |
| PositionalLaws.Base6RoundTrip | src/codec/base.c:21-132 | decoding an encoding gives the payload without its leading zero bytes, so the payload itself when its first byte is not zero |
| PositionalLaws.Base6EncodeAlphabet | src/codec/base.c:41-59 | a base-6 encoding has at least one symbol, and all of them are from the table |
| PositionalLaws.Base6DecodeRejects | src/codec/base.c:74-87 | decoding fails exactly when some symbol is not in the table; a decoding never starts with a zero byte |
| PositionalLaws.Base6ZeroPayload | src/codec/base.c:37-47 | an empty or all-zero payload encodes to `"0"`, and `"0"` decodes to no bytes |
| PositionalLaws.Base6Reencode | src/codec/base.c:21-141 | a valid encoding with no leading `'0'` (or just `"0"`) is the encoding of its decoding |
| PositionalLaws.Base58EncodeAlphabet | src/codec/base.c:155-199 | a base-58 encoding is longer than the run of leading zero bytes, starts with one `'1'` per zero byte and uses only table symbols |
| PositionalLaws.Base58DecodeRejects | src/codec/base.c:210-292 | decoding fails exactly when some symbol is not in the table; a decoding starts with one zero byte per leading `'1'` |
| PositionalLaws.Base58EncodeLeadingOnes | src/codec/base.c:155-199 | for a payload with a nonzero byte, the encoding's leading `'1'`s are exactly its leading zero bytes |
| PositionalLaws.Base58RoundTrip | src/codec/base.c:143-292 | decoding the encoding of a payload that holds a nonzero byte gives the payload |
| PositionalLaws.Base58ZeroPayload | src/codec/base.c:155-199 | `k` zero bytes encode to `k + 1` `'1'`s, which decode to `k + 1` zero bytes |
| PositionalLaws.Base58DecodeValid | src/codec/base.c:210-292 | a successful decoding, read as a big-endian number, is the number the symbols after the leading `'1'`s denote; its leading zero bytes are exactly the leading `'1'`s; its length is their count plus the value's significant bytes; and it has a byte past the zeros exactly when some symbol is not `'1'` |
| PositionalLaws.Base58Reencode | src/codec/base.c:143-292 | a valid string that is not all `'1'`s is the encoding of its decoding |
| Base58Check.Base58CheckDecodeExactly | src/codec/base.c:326-363 | decoding yields `p` exactly when the base-58 decoding is `p` followed by the checksum of `p` |
| Base58Check.Base58CheckRoundTrip | src/codec/base.c:303-363 | decoding the encoding gives the payload back whenever payload plus checksum holds a nonzero byte |
| Base58Check.Base58CheckReencode | src/codec/base.c:303-363 | a string that decodes and is not all `'1'`s is the encoding of its decoding |
| Base58Check.Append4 | src/codec/base.c:305-314 | the buffer passed to base 58 is the payload followed by the first four digest bytes |
| Base58Check.SameFour | src/codec/base.c:347-351 | the checksum comparison succeeds exactly when the four bytes equal the digest's first four |
| Base58Check.Base58CheckEncodeCall | src/codec/base.c:303-324 | both modes are those of `base58encode` applied to the payload followed by its double-SHA-256 checksum |
| Base58Check.Base58CheckDecodeCall | src/codec/base.c:326-363 | both modes return the sentinel for an invalid symbol, a short decoding or a checksum mismatch; otherwise a query answers the length minus 4 and a fill copies those leading bytes |
| Base64.Base64EncodeLength | src/codec/base.c:368-381 | the query answer 4·⌈n/3⌉ is the length of the encoding, whatever the content |
| Base64.Base64DecodeLength | src/codec/base.c:412-423 | the part before the padded group is whole groups, and a successful decoding has the length a query answers |
| Base64.EncodeGroup | src/codec/base.c:385-389 | one pass of the full-group loop appends at `num = i + i/3` the four table symbols of the 6-bit slices of bytes `i`..`i+2`, and changes no other cell |
| Base64.EncodeGroups | src/codec/base.c:383-390 | the full-group loop writes the table symbols of the 6-bit slices of each 3-byte group |
| Base64.EncodeTail | src/codec/base.c:392-403 | the final group is written with `'='` in place of the first, third and fourth symbols whose value is 0 |
| Base64.TailBuffer | src/codec/base.c:394-397 | the zero-initialised 3-byte buffer holds the last `ending` payload bytes, then zeros |
| Base64.EncodeFill | src/codec/base.c:383-407 | the fill phase of `base64encode` writes exactly `Base64Encode(p)` and nothing past it |
| Base64.Base64EncodeCall | src/codec/base.c:365-408 | a query answers 4·⌈n/3⌉; a fill writes the encoding and nothing past it |
| Base64.CountTrailing | src/codec/base.c:412-419 | the backward scan counts the trailing `'='` symbols |
| Base64.DecodeGroups | src/codec/base.c:444-450 | the group loop writes the 3 bytes assembled from each group of four 6-bit values |
| Base64.DecodeGroup | src/codec/base.c:446-449 | one pass of the group loop appends at `num = i - i/4` the three bytes assembled from values `i`..`i+3`, and changes no other cell |
| Base64.TailValue | src/codec/base.c:457-465 | the final-group lookup gives a symbol's table position, and leaves 0 (the buffer's initial value) when the symbol is not in the table |
| Base64.DecodeTail | src/codec/base.c:452-469 | the padded final group yields 3 − ending bytes, from its non-padding symbols, with symbols outside the table read as 0 |
| Base64.DecodeFill | src/codec/base.c:444-469 | after validation, the group loop and the final group write the whole groups' bytes followed by the final group's `3 − ending` bytes, and nothing past them |
| Base64.Base64DecodeCall | src/codec/base.c:410-474 | a query answers the length from the size and the padding count, without validating; a fill, on any string whose copy length is not negative, returns the sentinel and writes nothing exactly when a symbol before the padded group is not in the table, and otherwise writes the decoding |
| Base64Laws.GroupRoundTrip | src/codec/base.c:444-450 | the decoder's 4→3 assembly inverts the encoder's 3→4 slicing |
| Base64Laws.FullRoundTrip | src/codec/base.c:444-450 | decoding the values of whole groups gives back the bytes |
| Base64Laws.DecodeWhole | src/codec/base.c:410-450 | the encoding of a payload of whole groups is well formed and decodes to the payload |
| Base64Laws.TailOfOne | src/codec/base.c:392-403 | a final single byte is encoded with two `'='`s at the end and decodes back to that byte |
| Base64Laws.TailOfTwo | src/codec/base.c:392-403 | two final bytes end in one `'='`, or in two when the second byte's low four bits are zero, and then decode to the first byte only |
| Base64Laws.Base64RoundTrip | src/codec/base.c:365-474 | every encoding is well formed. It decodes to the payload, except that when n mod 3 = 2 and the last byte's low four bits are zero, the last byte is lost |
| Base64Laws.Base64LosesZeroTail | src/codec/base.c:392-403 | `[0x41, 0x00]` encodes to `"QQ=="`, which decodes to `[0x41]`, whereas the RFC 4648 encoding `"QQA="` decodes to `[0x41, 0x00]` |
| Base64Laws.Base64DecodesStandardPadding | src/codec/base.c:410-474 | with one `'='`, the RFC 4648 encoding of a payload of length 2 mod 3 decodes back to that payload |
| Base64Laws.DecodeLoneGroup | src/codec/base.c:410-474 | a single padded group decodes to its tail bytes |
| Base64Laws.Base64EncodeAlphabet | src/codec/base.c:383-403 | symbols of whole groups are from the table. In the final group, the 4th symbol is always `'='` and the 2nd never is. The 1st is `'='` exactly when the first byte is below 4. The 3rd is `'='` for one byte, and for two bytes exactly when the second byte's low four bits are zero |
| Base64Laws.Base64DecodeRejects | src/codec/base.c:429-442 | decoding fails exactly when a symbol before the padded group is not in the table |
| Base64Laws.ValidPrefixRejects | src/codec/base.c:425-442 | on every string whose copy length is not negative, well formed or not, the validation fails exactly when a symbol before the padded group is not in the table |
| Base64Laws.OverPaddedRejected | src/codec/base.c:425-442 | `"AAA====="`, with an `'='` inside the copied part, is not well formed, and a fill call rejects it |
| Base64Laws.ShortGroupRejected | src/codec/base.c:425-442 | `"AAAA!"`, of length 5 with a symbol outside the table, is not well formed, and a fill call rejects it |
| Base64Laws.FinalGroupLenient | src/codec/base.c:452-469 | in the padded final group, a non-padding symbol outside the table decodes exactly as `'A'` (the value 0) |
| WordWidth.Packed8LengthScan | src/codec/base.c:478-489 | the sizing step answers one word per started group of four bytes, less one when the partial group is all zero |
| WordWidth.ZeroFill | src/codec/base.c:497-498 | the `memset` sets the first `len` output cells to zero and no others; the other converters use it for src/codec/base.c:532, 579 and 609 |
| WordWidth.Base2p8ToBase2p32Call | src/codec/base.c:476-506 | a query answers the packed length; a fill writes lane j = Σₖ b[4j+k]·256ᵏ for each kept lane and nothing past them |
| WordWidth.StoreOctets | src/codec/base.c:534-552 | one pass writes byte k of the word for every k the last-word guards let through |
| WordWidth.Base2p32ToBase2p8Call | src/codec/base.c:508-555 | a query answers 4m less 4, 3, 2 or 1 as the last word is 0, <2⁸, <2¹⁶ or <2²⁴; a fill writes byte 4i+k = (w[i] >> 8k) & 0xFF up to that length |
| WordWidth.Base2p16ToBase2p32Call | src/codec/base.c:557-587 | a query answers the packed length; a fill writes lane j = h[2j] + h[2j+1]·2¹⁶ for each kept lane |
| WordWidth.StoreHalves | src/codec/base.c:611-621 | one pass writes element k of the word for every k the last-word guards let through |
| WordWidth.Base2p32ToBase2p16Call | src/codec/base.c:589-624 | a query answers 2m less 2 or 1 as the last word is 0 or <2¹⁶; a fill writes element 2i+k = (w[i] >> 16k) & 0xFFFF up to that length |
| WordWidthLaws.OctetsOfLane | src/codec/base.c:536-551 | the unpacking shifts recover the four bytes a lane is packed from |
| WordWidthLaws.LaneOfOctets | src/codec/base.c:500-503 | packing the four bytes of a word gives the word |
| WordWidthLaws.SignificantOctets | src/codec/base.c:516-523 | the bytes the length rule drops from the last word are zero, and the last byte kept is not |
| WordWidthLaws.Pack8Unpack8 | src/codec/base.c:476-555 | packing the unpacking of words gives them back, without a zero last word |
| WordWidthLaws.Unpack8Pack8 | src/codec/base.c:476-555 | unpacking the packing of bytes gives a prefix of them, and every byte it drops is zero |
| WordWidthLaws.Unpack8Pack8Exact | src/codec/base.c:476-555 | bytes whose last byte is not zero survive packing and unpacking |
| WordWidthLaws.Pack8Example | src/codec/base.c:476-506 | `[1, 2, 3, 4]` and `[1, 2, 3, 4, 0]` both pack to `[0x04030201]` |
| WordWidthLaws.HalvesOfLane | src/codec/base.c:613-620 | the unpacking shifts recover the two elements a lane is packed from |
| WordWidthLaws.SignificantHalves | src/codec/base.c:597-600 | the element the length rule drops from the last word is zero, and the last one kept is not |
| WordWidthLaws.Pack16Unpack16 | src/codec/base.c:557-624 | packing the unpacking of words gives them back, without a zero last word |
| WordWidthLaws.Unpack16Pack16 | src/codec/base.c:557-624 | unpacking the packing of 16-bit elements gives a prefix of them, and every element it drops is zero |
| WordWidthLaws.Unpack16Pack16Exact | src/codec/base.c:557-624 | elements whose last one is not zero survive packing and unpacking |
| WordWidthLaws.Pack16Example | src/codec/base.c:557-624 | `[1, 2]` and `[1, 2, 0]` pack to `[0x00020001]`, and `[0x00020001, 0]` unpacks to `[1, 2]` |

## Left out

- Memory management is not modelled. This covers BIGNUM and `BN_CTX` allocation, the frees, and the leak on the early return at src/codec/base.c:31-32 and 164-165.
- The hex-string bridge is not modelled. `bytearr_to_hexstr` and `hexstr_to_bytearr` are declared in `internal/codec/strings.h`; their definitions are not part of this model. The composite bytes→number and number→bytes maps stand in for them.
- The failure return of `bytearr_to_hexstr` (src/codec/base.c:31-32, 164-165) is not modelled: that function is not part of this model, so the encoders are modelled as always succeeding.
- SHA-256 is a parameter, not an implementation.
- The NUL terminators written at `out[len]` (src/codec/base.c:60, 199, 403, 471) are not modelled. A C caller needs one slot more than the length.
- `int32_t` length truncation is not modelled; lengths are unbounded. The `(size_t)-1` sentinel is the `Err` status.
- `|=` into a cleared lane is modelled as `+`. Shifts and masks are modelled as division and remainder by powers of two. Both are exact here because the bits do not overlap.
- Positional.Base6EncodeCall: the scratch buffer `raw_encoded[payload_len*2]` (src/codec/base.c:24) is too small for base 6. The model has no such bound.
- Positional.Base58EncodeCall: for an empty payload the scratch buffer `raw_encoded[payload_len*2]` (src/codec/base.c:146) has no cells, yet the division loop always writes one digit into it. The model has no such bound and encodes the empty payload as `"1"`.
- Positional.Base58DecodeCall: the leading-`'1'` scan (src/codec/base.c:213-218) relies on a terminator. The copy at src/codec/base.c:224-225 is bounded by `payload_len`. The shift at src/codec/base.c:289-290 reads negative indices. The model counts within the string and shifts the magnitude bytes only, which is the evident intent.
- Base58Check.Base58CheckDecodeCall: when fewer than 4 bytes decode, `data_len` is negative (src/codec/base.c:331). The model returns `Err`.
- Base64.Base64DecodeCall: a query requires a length that is a multiple of 4 with at most two trailing `'='`. This excludes queries the C code answers without fault, such as one on a string of length 5 with no `'='` (src/codec/base.c:412-423), and queries whose C answer is negative, such as the one for `"===="`; the model does not give those answers. A fill call requires no `'='` at the end or at least four symbols, because otherwise the C copy length `payload_len - 4` is negative (src/codec/base.c:425-426). It requires the same well-formedness only when every symbol before the padded group is in the table. Strings that fail that check are rejected in the model as in the C. On the other malformed strings, the C code reads or writes outside its buffers.
- Base64.DecodeTail: for two `'='` the C code writes a second tail byte, which the terminator then overwrites (src/codec/base.c:467-471). The model writes only the bytes inside the length.
- WordWidth.Base2p8ToBase2p32Call: when the partial final group is all zero, the C loop ORs zeros into the trimmed lane, one word past the output (src/codec/base.c:500-503). The model skips those writes.
- WordWidth.Base2p16ToBase2p32Call: in the same way, when the odd final element is zero, the C loop ORs it into the trimmed lane one word past the output (src/codec/base.c:581-584). The model skips that write.
- WordWidth.Base2p32ToBase2p8Call: the C `memset` clears `converted_len * sizeof(uint16_t)` bytes, twice the output length (src/codec/base.c:532). The model clears the output only. The model also requires at least one word, because the C code reads `payload[payload_len-1]` (src/codec/base.c:510).
- WordWidth.Base2p32ToBase2p16Call: also requires at least one word (src/codec/base.c:591).
- The converters' shift of a promoted `uint8_t` or `uint16_t` by 24 or 16 bits can overflow a signed `int` (src/codec/base.c:502, 583). The model uses the intended unsigned value.
- `src/script/interpreter.c` is not part of this model. It dispatches to operations defined in files that are not available.

## Notes on the code as written

`base64encode` replaces a final-group symbol with `'='` whenever that symbol is `'A'` (value 0). RFC 4648 instead pads according to the number of input bytes. For a payload of length 1 mod 3, this can only turn the first symbol into `'='`, and the decoder reads that as 0 again, so the round trip survives. For a payload of length 2 mod 3 whose last byte has zero low four bits, the third symbol becomes `'='`. The decoder then counts two padding symbols and drops the last byte. `Base64Laws.Base64RoundTrip` states the exact condition, and `Base64Laws.Base64LosesZeroTail` gives an instance. The model follows the code as written.
