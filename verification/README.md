# cinder utility layer: byte swapping and text conversion

This project models two pieces of cinder's utility layer (`cinder/Utilities.h`)
as pinned down by the unit test `test/unit/src/Utilities.cpp`, and proves
properties of the model with Dafny.

- **`swapEndian`** (module `EndianSwap`, `endian_swap.dfy`) reverses the byte
  order of 8-, 16-, 32- and 64-bit integers, signed and unsigned. Unsigned
  values are the bit-vectors `bv8` … `bv64`, and each swap is the usual
  shift-and-mask formula. A signed value (`Int8` … `Int64`) is kept as its
  two's-complement bit pattern, with `Value()` giving the integer it denotes.
  `ToInt16(-129)` models the cast `(int16_t)-129`. A signed swap permutes the
  pattern the same way the unsigned swap does. The reference meaning of every
  swap is "reverse the little-endian byte sequence" (`BytesN`, `Reversed`).
  The model proves each formula equal to that meaning, proves swapping twice
  is the identity, and checks every vector of the test.
- **`toString` / `fromString`** (module `TextConvert`, `text_convert.dfy`) for
  the types the test converts exactly: C++ `int` (`CInt`, 32-bit), which is
  written as decimal digits; `std::string`, which is the text itself; and the
  test's `CustomType`, whose stream operators write and read its one `int`
  field. The generic template pair is `ToString`/`FromString` over a
  `Conversion<T>`, which holds the writer and reader a type brings. Reading
  returns `Parsed(v)` or `ParseError`.

`cinder/Utilities.h`, where these functions are implemented, is not part of
this model. The test fixes the behaviour on the values it checks. Beyond
those values, the model adopts a strict whole-text policy for
`fromString<int>`: the whole text must be an optional `+`/`-` sign followed by one or
more decimal digits, and the value must fit in an `int`. Anything else is a
`ParseError`. A plain `std::istream >> int` would instead skip leading blanks,
stop at trailing garbage, and return a partial or saturated value.

## Model

| member | source | states |
|---|---|---|
| `EndianSwap.Swap8ReversesBytes` | test/unit/src/Utilities.cpp:36-38 | an 8-bit value has one byte, so reversing its bytes leaves it unchanged: the 8-bit swap is the identity |
| `EndianSwap.Swap16ReversesBytes` | test/unit/src/Utilities.cpp:39-41 | the 16-bit swap's bytes are the input's bytes in reverse order (byte i becomes byte 1-i), and the swap equals reassembling the reversed bytes |
| `EndianSwap.Swap32ReversesBytes` | test/unit/src/Utilities.cpp:42-44 | the 32-bit swap reverses the four bytes (byte i becomes byte 3-i) and equals reassembling them reversed |
| `EndianSwap.Swap64ReversesBytes` | test/unit/src/Utilities.cpp:45-47 | the 64-bit swap reverses the eight bytes (byte i becomes byte 7-i) and equals reassembling them reversed |
| `EndianSwap.Swap64Formula` | test/unit/src/Utilities.cpp:45-47 | the 64-bit shift-and-mask formula is the little-endian assembly of the input's bytes taken from last to first |
| `EndianSwap.Swap8` | test/unit/src/Utilities.cpp:38 | `swapEndian` on uint8_t; it has no contract of its own and is characterised by `Swap8ReversesBytes` and `Swap8IsInvolution` |
| `EndianSwap.Swap16` | test/unit/src/Utilities.cpp:41 | `swapEndian` on uint16_t as a shift-and-mask formula; characterised by `Swap16ReversesBytes` and `Swap16IsInvolution` |
| `EndianSwap.Swap32` | test/unit/src/Utilities.cpp:44 | `swapEndian` on uint32_t; characterised by `Swap32ReversesBytes` and `Swap32IsInvolution` |
| `EndianSwap.Swap64` | test/unit/src/Utilities.cpp:47 | `swapEndian` on uint64_t; characterised by `Swap64Formula`, `Swap64ReversesBytes` and `Swap64IsInvolution` |
| `EndianSwap.FromBytesOfBytes16` | test/unit/src/Utilities.cpp:39-41 | a 16-bit value is recovered from its two bytes |
| `EndianSwap.BytesOfFromBytes16` | test/unit/src/Utilities.cpp:39-41 | two bytes are recovered from the 16-bit value they assemble |
| `EndianSwap.FromBytesOfBytes32` | test/unit/src/Utilities.cpp:42-44 | a 32-bit value is recovered from its four bytes |
| `EndianSwap.BytesOfFromBytes32` | test/unit/src/Utilities.cpp:42-44 | four bytes are recovered from the 32-bit value they assemble |
| `EndianSwap.FromBytesOfBytes64` | test/unit/src/Utilities.cpp:45-47 | a 64-bit value is recovered from its eight bytes |
| `EndianSwap.BytesOfFromBytes64` | test/unit/src/Utilities.cpp:45-47 | eight bytes are recovered from the 64-bit value they assemble |
| `EndianSwap.Swap8IsInvolution` | test/unit/src/Utilities.cpp:36-38 | swapping an 8-bit value twice gives it back |
| `EndianSwap.Swap16IsInvolution` | test/unit/src/Utilities.cpp:39-41 | swapping a 16-bit value twice gives it back |
| `EndianSwap.Swap32IsInvolution` | test/unit/src/Utilities.cpp:42-44 | swapping a 32-bit value twice gives it back |
| `EndianSwap.Swap64IsInvolution` | test/unit/src/Utilities.cpp:45-47 | swapping a 64-bit value twice gives it back |
| `EndianSwap.Int8.Value` | test/unit/src/Utilities.cpp:37 | the integer an 8-bit two's-complement pattern denotes lies in the int8_t range |
| `EndianSwap.Int16.Value` | test/unit/src/Utilities.cpp:40 | the integer a 16-bit two's-complement pattern denotes lies in the int16_t range |
| `EndianSwap.Int32.Value` | test/unit/src/Utilities.cpp:43 | the integer a 32-bit two's-complement pattern denotes lies in the int32_t range |
| `EndianSwap.Int64.Value` | test/unit/src/Utilities.cpp:46 | the integer a 64-bit two's-complement pattern denotes lies in the int64_t range |
| `EndianSwap.ToInt8` | test/unit/src/Utilities.cpp:37 | the cast `(int8_t)-127`: the two's-complement pattern of an integer, defined on integers in the int8_t range; `ValueOfCast8` and `CastOfValue8` prove that it and `Value()` are inverse to each other |
| `EndianSwap.ValueOfCast8` | test/unit/src/Utilities.cpp:37 | casting any in-range integer to int8_t and reading its value back gives the integer |
| `EndianSwap.ToInt16` | test/unit/src/Utilities.cpp:40 | the casts `(int16_t)-129` and `(int16_t)0x7FFF`: the two's-complement pattern of an integer, defined on integers in the int16_t range; `ValueOfCast16` and `CastOfValue16` prove that it and `Value()` are inverse to each other |
| `EndianSwap.ValueOfCast16` | test/unit/src/Utilities.cpp:40 | casting any in-range integer to int16_t and reading its value back gives the integer |
| `EndianSwap.ToInt32` | test/unit/src/Utilities.cpp:43 | the casts `(int32_t)-129` and `(int32_t)0x7FFFFFFF`: the two's-complement pattern of an integer, defined on integers in the int32_t range; `ValueOfCast32` and `CastOfValue32` prove that it and `Value()` are inverse to each other |
| `EndianSwap.ValueOfCast32` | test/unit/src/Utilities.cpp:43 | casting any in-range integer to int32_t and reading its value back gives the integer |
| `EndianSwap.ToInt64` | test/unit/src/Utilities.cpp:46 | the casts `(int64_t)-129` and `(int64_t)0x7FFFFFFFFFFFFFFF`: the two's-complement pattern of an integer, defined on integers in the int64_t range; `ValueOfCast64` and `CastOfValue64` prove that it and `Value()` are inverse to each other |
| `EndianSwap.ValueOfCast64` | test/unit/src/Utilities.cpp:46 | casting any in-range integer to int64_t and reading its value back gives the integer |
| `EndianSwap.CastOfValue8` | test/unit/src/Utilities.cpp:37 | every int8_t is the cast of the integer it denotes |
| `EndianSwap.CastOfValue16` | test/unit/src/Utilities.cpp:40 | every int16_t is the cast of the integer it denotes, so pattern and value determine each other |
| `EndianSwap.CastOfValue32` | test/unit/src/Utilities.cpp:43 | the same for int32_t |
| `EndianSwap.CastOfValue64` | test/unit/src/Utilities.cpp:46 | the same for int64_t |
| `EndianSwap.SwapInt8` | test/unit/src/Utilities.cpp:37 | swapping an int8_t changes nothing and agrees with the unsigned 8-bit swap of its pattern |
| `EndianSwap.SwapInt16` | test/unit/src/Utilities.cpp:40 | a signed 16-bit swap is the unsigned swap of the two's-complement pattern and reverses its bytes |
| `EndianSwap.SwapInt32` | test/unit/src/Utilities.cpp:43 | a signed 32-bit swap is the unsigned swap of the pattern and reverses its four bytes |
| `EndianSwap.SwapInt64` | test/unit/src/Utilities.cpp:46 | a signed 64-bit swap is the unsigned swap of the pattern and reverses its eight bytes |
| `EndianSwap.SwapInt8IsInvolution` | test/unit/src/Utilities.cpp:37 | swapping an int8_t twice gives it back |
| `EndianSwap.SwapInt16IsInvolution` | test/unit/src/Utilities.cpp:40 | swapping an int16_t twice gives it back |
| `EndianSwap.SwapInt32IsInvolution` | test/unit/src/Utilities.cpp:43 | swapping an int32_t twice gives it back |
| `EndianSwap.SwapInt64IsInvolution` | test/unit/src/Utilities.cpp:46 | swapping an int64_t twice gives it back |
| `EndianSwap.Vectors8` | test/unit/src/Utilities.cpp:37-38 | (int8_t)-127 has pattern 0x81, reads back as -127, and swaps to itself; (uint8_t)255 swaps to 255 |
| `EndianSwap.Vectors16` | test/unit/src/Utilities.cpp:40-41 | (int16_t)-129 is 0xFF7F, reads back as -129, and swaps to 0x7FFF; 0xFFEF swaps to 0xEFFF |
| `EndianSwap.Vectors32` | test/unit/src/Utilities.cpp:43-44 | (int32_t)-129 is 0xFFFFFF7F, reads back as -129, and swaps to 0x7FFFFFFF; 0xBBAAFFEF swaps to 0xEFFFAABB |
| `EndianSwap.Vectors64` | test/unit/src/Utilities.cpp:46-47 | (int64_t)-129 is 0xFFFFFFFFFFFFFF7F, reads back as -129, and swaps to 0x7FFFFFFFFFFFFFFF; 0xAABBCCDDEEFFEEEF swaps to 0xEFEEFFEEDDCCBBAA |
| `TextConvert.NatToDigits` | test/unit/src/Utilities.cpp:74 | the decimal digits of a natural number have no leading zero, and the text is "0" exactly for zero |
| `TextConvert.DigitsOfNatRoundTrip` | test/unit/src/Utilities.cpp:80 | reading back the digits written for n gives n |
| `TextConvert.LeadingDigitBound` | test/unit/src/Utilities.cpp:80 | a digit string of two or more digits with no leading zero denotes at least 10 |
| `TextConvert.CanonicalDigitsRoundTrip` | test/unit/src/Utilities.cpp:74 | a digit string without leading zeros is exactly the rendering of the number it denotes |
| `TextConvert.IntToString` | test/unit/src/Utilities.cpp:74 | an int is written as '-' exactly when it is negative, followed by the digits of its magnitude without leading zeros, and that text denotes the int |
| `TextConvert.ParseInt` | test/unit/src/Utilities.cpp:80 | reading an int succeeds exactly on a sign-and-digits text whose value fits in 32 bits, and then yields that value; it fails on everything else |
| `TextConvert.IntRoundTrip` | test/unit/src/Utilities.cpp:74-80 | every int read back from its own text gives that int |
| `TextConvert.CanonicalIntTextRoundTrip` | test/unit/src/Utilities.cpp:74-80 | a canonical int text that parses is exactly the text written for the parsed value |
| `TextConvert.StringToString` | test/unit/src/Utilities.cpp:77 | `toString` of a string; no contract, and `StringConversionIsIdentity` proves it is the identity |
| `TextConvert.ParseString` | test/unit/src/Utilities.cpp:83 | `fromString<string>`; no contract, and `StringConversionIsIdentity` proves it gives back the text unchanged |
| `TextConvert.StringConversionIsIdentity` | test/unit/src/Utilities.cpp:77-83 | writing a string gives the string, and reading a string gives it back unchanged |
| `TextConvert.CustomToString` | test/unit/src/Utilities.cpp:20-24 | CustomType's inserter writes a canonical int text, and that text denotes the int field |
| `TextConvert.ParseCustom` | test/unit/src/Utilities.cpp:26-30 | CustomType's extractor succeeds exactly when reading an int succeeds, and the field holds that int |
| `TextConvert.CustomRoundTrip` | test/unit/src/Utilities.cpp:12-30 | a CustomType read back from its own text equals the original, where `==` compares the field (line 15) |
| `TextConvert.ToString` | test/unit/src/Utilities.cpp:74-78 | the `toString<T>` template: it writes a value with the inserter its type brings; no contract, and `ConversionsRoundTrip` and `LiteralCases` state its behaviour |
| `TextConvert.FromString` | test/unit/src/Utilities.cpp:80-84 | the `fromString<T>` template: it reads a value with the extractor its type brings; no contract, and `ConversionsRoundTrip` and `LiteralCases` state its behaviour |
| `TextConvert.ConversionsRoundTrip` | test/unit/src/Utilities.cpp:72-85 | the generic toString/fromString pair round-trips for int, string and CustomType |
| `TextConvert.LiteralCases` | test/unit/src/Utilities.cpp:74-84 | toString(123) is "123", toString("hello") is "hello", toString(CustomType(123)) is "123"; reading "123" as int gives 123, reading "hello" as a string gives "hello", and reading "123" as CustomType gives CustomType(123) |
| `TextConvert.MalformedIntTexts` | test/unit/src/Utilities.cpp:80 | not a case of the test; it checks the strict policy this model adopts for the read at line 80: reading an int fails on the empty text, on a lone '-', and on trailing garbage ("12a") |
| `TextConvert.RangeEdgeDigits` | test/unit/src/Utilities.cpp:74 | a helper for `IntTextBounds`, not a case of the test: 2^31 is written "2147483648" |
| `TextConvert.IntTextBounds` | test/unit/src/Utilities.cpp:80 | not a case of the test; it checks the strict policy this model adopts for the read at line 80: "2147483648" is out of int range and is refused, while "-2147483648" reads as the smallest int |

## Left out

- `compressBuffer` / `decompressBuffer` (test/unit/src/Utilities.cpp:50-70): these wrap zlib, a foreign library. Its frame format is not visible.
- Floating-point `toString` / `fromString` (test/unit/src/Utilities.cpp:75-76, 81-82): these depend on float formatting and parsing, and the test checks them only approximately.
- `fromString<Url>` (test/unit/src/Utilities.cpp:86-87): `Url` is an external type that is not part of this model.
- `loadString`, `writeString`, `loadFile`, `app::loadAsset`, `app::getAppPath` (test/unit/src/Utilities.cpp:90-104): file and asset I/O.
- `swapEndian` for `float` and `double`: the test does not exercise them.
- `ParseCustom`: what C++ yields for a failed read depends on the implementation of `fromString`, which is not part of this model. It may be 0, a saturated value, a field left untouched (line 13 does not initialise it), or an exception. The model returns `ParseError`.
- `ParseInt`: the whitespace skipping and partial reads of `std::istream` are not modelled. The strict whole-text grammar described above is modelled instead.
