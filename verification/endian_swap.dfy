/**
  Byte-order reversal of fixed-width integers (`swapEndian` in cinder's
  utility layer, exercised by test/unit/src/Utilities.cpp).

  Unsigned values of width 8, 16, 32 and 64 bits are the bit-vectors bv8,
  bv16, bv32 and bv64, and each swap is the shift-and-mask formula a C++
  byte swap is written with.  A signed value (int8_t, ..., int64_t) is kept
  as what the machine stores, its two's-complement bit pattern, with
  `Value()` giving the integer it denotes; a signed swap permutes that
  pattern exactly as the unsigned swap of the same width does.

  Bytes are numbered from the least significant one: `BytesN(x)[0]` is the
  low byte.  The reference meaning of every swap is "reverse the byte
  sequence", `Reversed(BytesN(x))`.
 */
module EndianSwap {

  /* ---------- Byte sequences ---------- */

  /** `s` read back to front. */
  function Reversed(s: seq<bv8>): (r: seq<bv8>)
    ensures |r| == |s|
    ensures forall i :: 0 <= i < |s| ==> r[i] == s[|s| - 1 - i]
  {
    seq(|s|, i requires 0 <= i < |s| => s[|s| - 1 - i])
  }

  function Bytes8(x: bv8): seq<bv8> {
    [x]
  }

  function Bytes16(x: bv16): seq<bv8> {
    [(x & 0xFF) as bv8, ((x >> 8) & 0xFF) as bv8]
  }

  function FromBytes16(s: seq<bv8>): bv16
    requires |s| == 2
  {
    (s[0] as bv16) | ((s[1] as bv16) << 8)
  }

  function Bytes32(x: bv32): seq<bv8> {
    [(x & 0xFF) as bv8, ((x >> 8) & 0xFF) as bv8,
     ((x >> 16) & 0xFF) as bv8, ((x >> 24) & 0xFF) as bv8]
  }

  function FromBytes32(s: seq<bv8>): bv32
    requires |s| == 4
  {
    (s[0] as bv32) | ((s[1] as bv32) << 8) |
    ((s[2] as bv32) << 16) | ((s[3] as bv32) << 24)
  }

  function Bytes64(x: bv64): seq<bv8> {
    [(x & 0xFF) as bv8, ((x >> 8) & 0xFF) as bv8,
     ((x >> 16) & 0xFF) as bv8, ((x >> 24) & 0xFF) as bv8,
     ((x >> 32) & 0xFF) as bv8, ((x >> 40) & 0xFF) as bv8,
     ((x >> 48) & 0xFF) as bv8, ((x >> 56) & 0xFF) as bv8]
  }

  function FromBytes64(s: seq<bv8>): bv64
    requires |s| == 8
  {
    (s[0] as bv64) | ((s[1] as bv64) << 8) |
    ((s[2] as bv64) << 16) | ((s[3] as bv64) << 24) |
    ((s[4] as bv64) << 32) | ((s[5] as bv64) << 40) |
    ((s[6] as bv64) << 48) | ((s[7] as bv64) << 56)
  }

  /** A 16-bit value is recovered from its bytes. */
  lemma FromBytesOfBytes16(x: bv16)
    ensures FromBytes16(Bytes16(x)) == x
  {
  }

  /** A sequence of 2 bytes is recovered from the value it assembles. */
  lemma BytesOfFromBytes16(s: seq<bv8>)
    requires |s| == 2
    ensures Bytes16(FromBytes16(s)) == s
  {
  }

  /** A 32-bit value is recovered from its bytes. */
  lemma FromBytesOfBytes32(x: bv32)
    ensures FromBytes32(Bytes32(x)) == x
  {
  }

  /** A sequence of 4 bytes is recovered from the value it assembles. */
  lemma BytesOfFromBytes32(s: seq<bv8>)
    requires |s| == 4
    ensures Bytes32(FromBytes32(s)) == s
  {
  }

  /** A 64-bit value is recovered from its bytes. */
  lemma FromBytesOfBytes64(x: bv64)
    ensures FromBytes64(Bytes64(x)) == x
  {
  }

  /** A sequence of 8 bytes is recovered from the value it assembles. */
  lemma BytesOfFromBytes64(s: seq<bv8>)
    requires |s| == 8
    ensures Bytes64(FromBytes64(s)) == s
  {
  }

  /* ---------- Unsigned swaps ---------- */

  /** A single byte: there is nothing to reverse. */
  function Swap8(x: bv8): bv8 {
    x
  }

  function Swap16(x: bv16): bv16 {
    ((x >> 8) & 0x00FF) | ((x << 8) & 0xFF00)
  }

  function Swap32(x: bv32): bv32 {
    ((x >> 24) & 0x0000_00FF) |
    ((x >> 8) & 0x0000_FF00) |
    ((x << 8) & 0x00FF_0000) |
    ((x << 24) & 0xFF00_0000)
  }

  function Swap64(x: bv64): bv64 {
    ((x >> 56) & 0x0000_0000_0000_00FF) |
    ((x >> 40) & 0x0000_0000_0000_FF00) |
    ((x >> 24) & 0x0000_0000_00FF_0000) |
    ((x >> 8) & 0x0000_0000_FF00_0000) |
    ((x << 8) & 0x0000_00FF_0000_0000) |
    ((x << 24) & 0x0000_FF00_0000_0000) |
    ((x << 40) & 0x00FF_0000_0000_0000) |
    ((x << 56) & 0xFF00_0000_0000_0000)
  }

  /* ---------- Swaps reverse the byte order ---------- */

  lemma Swap8ReversesBytes(x: bv8)
    ensures Bytes8(Swap8(x)) == Reversed(Bytes8(x))
    ensures Swap8(x) == x
  {
  }

  lemma Swap16ReversesBytes(x: bv16)
    ensures Bytes16(Swap16(x)) == Reversed(Bytes16(x))
    ensures Swap16(x) == FromBytes16(Reversed(Bytes16(x)))
  {
    var b := Bytes16(x);
    assert Swap16(x) == FromBytes16([b[1], b[0]]);
    BytesOfFromBytes16([b[1], b[0]]);
  }

  lemma Swap32ReversesBytes(x: bv32)
    ensures Bytes32(Swap32(x)) == Reversed(Bytes32(x))
    ensures Swap32(x) == FromBytes32(Reversed(Bytes32(x)))
  {
    var b := Bytes32(x);
    assert Swap32(x) == FromBytes32([b[3], b[2], b[1], b[0]]);
    BytesOfFromBytes32([b[3], b[2], b[1], b[0]]);
  }

  /** The shift-and-mask formula reassembles the bytes in reverse order. */
  lemma Swap64Formula(x: bv64)
    ensures var b := Bytes64(x);
      Swap64(x) == FromBytes64([b[7], b[6], b[5], b[4], b[3], b[2], b[1], b[0]])
  {
  }

  lemma Swap64ReversesBytes(x: bv64)
    ensures Bytes64(Swap64(x)) == Reversed(Bytes64(x))
    ensures Swap64(x) == FromBytes64(Reversed(Bytes64(x)))
  {
    var b := Bytes64(x);
    var r := [b[7], b[6], b[5], b[4], b[3], b[2], b[1], b[0]];
    Swap64Formula(x);
    BytesOfFromBytes64(r);
    assert r == Reversed(b);
  }

  /** Swapping twice gives back the original value, at every width. */
  lemma Swap8IsInvolution(x: bv8)
    ensures Swap8(Swap8(x)) == x
  {
  }

  lemma Swap16IsInvolution(x: bv16)
    ensures Swap16(Swap16(x)) == x
  {
  }

  lemma Swap32IsInvolution(x: bv32)
    ensures Swap32(Swap32(x)) == x
  {
  }

  lemma Swap64IsInvolution(x: bv64)
    ensures Swap64(Swap64(x)) == x
  {
  }

  /* ---------- Signed values ---------- */

  /** int8_t, kept as its two's-complement bit pattern. */
  datatype Int8 = Int8(bits: bv8) {
    /** The integer the pattern denotes. */
    function Value(): (v: int)
      ensures -0x80 <= v < 0x80
    {
      var n := bits as int;
      if n < 0x80 then n else n - 0x100
    }
  }

  datatype Int16 = Int16(bits: bv16) {
    function Value(): (v: int)
      ensures -0x8000 <= v < 0x8000
    {
      var n := bits as int;
      if n < 0x8000 then n else n - 0x1_0000
    }
  }

  datatype Int32 = Int32(bits: bv32) {
    function Value(): (v: int)
      ensures -0x8000_0000 <= v < 0x8000_0000
    {
      var n := bits as int;
      if n < 0x8000_0000 then n else n - 0x1_0000_0000
    }
  }

  datatype Int64 = Int64(bits: bv64) {
    function Value(): (v: int)
      ensures -0x8000_0000_0000_0000 <= v < 0x8000_0000_0000_0000
    {
      var n := bits as int;
      if n < 0x8000_0000_0000_0000 then n else n - 0x1_0000_0000_0000_0000
    }
  }

  /** The C++ cast of an in-range integer to a signed type: its pattern. */
  function ToInt8(n: int): Int8
    requires -0x80 <= n < 0x80
  {
    Int8((if n < 0 then n + 0x100 else n) as bv8)
  }

  function ToInt16(n: int): Int16
    requires -0x8000 <= n < 0x8000
  {
    Int16((if n < 0 then n + 0x1_0000 else n) as bv16)
  }

  function ToInt32(n: int): Int32
    requires -0x8000_0000 <= n < 0x8000_0000
  {
    Int32((if n < 0 then n + 0x1_0000_0000 else n) as bv32)
  }

  function ToInt64(n: int): Int64
    requires -0x8000_0000_0000_0000 <= n < 0x8000_0000_0000_0000
  {
    Int64((if n < 0 then n + 0x1_0000_0000_0000_0000 else n) as bv64)
  }

  /** Converting a bit pattern to its numeral and back gives the pattern. */
  lemma NumeralOfBits16(b: bv16)
    ensures (b as int) as bv16 == b
  {
  }

  lemma NumeralOfBits32(b: bv32)
    ensures (b as int) as bv32 == b
  {
  }

  lemma NumeralOfBits64(b: bv64)
    ensures (b as int) as bv64 == b
  {
  }

  /** Every signed value is the cast of the integer it denotes, so two
      signed values are equal exactly when their integers are. */
  lemma CastOfValue8(x: Int8)
    ensures ToInt8(x.Value()) == x
  {
  }

  lemma CastOfValue16(x: Int16)
    ensures ToInt16(x.Value()) == x
  {
    var m := if x.Value() < 0 then x.Value() + 0x1_0000 else x.Value();
    assert m == x.bits as int;
    NumeralOfBits16(x.bits);
  }

  lemma CastOfValue32(x: Int32)
    ensures ToInt32(x.Value()) == x
  {
    var m := if x.Value() < 0 then x.Value() + 0x1_0000_0000 else x.Value();
    assert m == x.bits as int;
    NumeralOfBits32(x.bits);
  }

  lemma CastOfValue64(x: Int64)
    ensures ToInt64(x.Value()) == x
  {
    var m := if x.Value() < 0 then x.Value() + 0x1_0000_0000_0000_0000 else x.Value();
    assert m == x.bits as int;
    NumeralOfBits64(x.bits);
  }

  /* ---------- Casting an integer and reading it back ---------- */

  /** Casting an in-range integer to int8_t and reading the value back
      gives the integer. */
  lemma ValueOfCast8(n: int)
    requires -0x80 <= n < 0x80
    ensures ToInt8(n).Value() == n
  {
  }

  /** The bit-vector whose numeral is `m`, built up from nibbles: converting
      an integer to a wide bit-vector is reasoned about half by half. */
  lemma BitsOf4(m: int) returns (b: bv4)
    requires 0 <= m < 0x10
    ensures b as int == m
  {
    b := m as bv4;
  }

  /** Placing `hi` above `lo` gives the numeral hi * 2^k + lo. */
  lemma Join8(hi: bv4, lo: bv4)
    ensures (((hi as bv8) << 4) | (lo as bv8)) as int == hi as int * 0x10 + lo as int
  {
  }

  lemma BitsOf8(m: int) returns (b: bv8)
    requires 0 <= m < 0x100
    ensures b as int == m
  {
    var hi := BitsOf4(m / 0x10);
    var lo := BitsOf4(m % 0x10);
    Join8(hi, lo);
    b := ((hi as bv8) << 4) | (lo as bv8);
  }

  lemma Join16(hi: bv8, lo: bv8)
    ensures (((hi as bv16) << 8) | (lo as bv16)) as int == hi as int * 0x100 + lo as int
  {
  }

  lemma BitsOf16(m: int) returns (b: bv16)
    requires 0 <= m < 0x1_0000
    ensures b as int == m
  {
    var hi := BitsOf8(m / 0x100);
    var lo := BitsOf8(m % 0x100);
    Join16(hi, lo);
    b := ((hi as bv16) << 8) | (lo as bv16);
  }

  /** Casting an in-range integer to int16_t and reading it back gives the
      integer. */
  lemma ValueOfCast16(n: int)
    requires -0x8000 <= n < 0x8000
    ensures ToInt16(n).Value() == n
  {
    var b := BitsOf16(if n < 0 then n + 0x1_0000 else n);
    NumeralOfBits16(b);
  }

  lemma Join32(hi: bv16, lo: bv16)
    ensures (((hi as bv32) << 16) | (lo as bv32)) as int == hi as int * 0x1_0000 + lo as int
  {
  }

  lemma BitsOf32(m: int) returns (b: bv32)
    requires 0 <= m < 0x1_0000_0000
    ensures b as int == m
  {
    var hi := BitsOf16(m / 0x1_0000);
    var lo := BitsOf16(m % 0x1_0000);
    Join32(hi, lo);
    b := ((hi as bv32) << 16) | (lo as bv32);
  }

  /** The same for int32_t. */
  lemma ValueOfCast32(n: int)
    requires -0x8000_0000 <= n < 0x8000_0000
    ensures ToInt32(n).Value() == n
  {
    var b := BitsOf32(if n < 0 then n + 0x1_0000_0000 else n);
    NumeralOfBits32(b);
  }

  lemma Join64(hi: bv32, lo: bv32)
    ensures (((hi as bv64) << 32) | (lo as bv64)) as int == hi as int * 0x1_0000_0000 + lo as int
  {
  }

  lemma BitsOf64(m: int) returns (b: bv64)
    requires 0 <= m < 0x1_0000_0000_0000_0000
    ensures b as int == m
  {
    var hi := BitsOf32(m / 0x1_0000_0000);
    var lo := BitsOf32(m % 0x1_0000_0000);
    Join64(hi, lo);
    b := ((hi as bv64) << 32) | (lo as bv64);
  }

  /** The same for int64_t. */
  lemma ValueOfCast64(n: int)
    requires -0x8000_0000_0000_0000 <= n < 0x8000_0000_0000_0000
    ensures ToInt64(n).Value() == n
  {
    var b := BitsOf64(if n < 0 then n + 0x1_0000_0000_0000_0000 else n);
    NumeralOfBits64(b);
  }

  /* ---------- Signed swaps ---------- */

  /** Signed swaps permute the bit pattern exactly as the unsigned swap of
      the same width does; signedness plays no part. */
  function SwapInt8(x: Int8): (r: Int8)
    ensures r.bits == Swap8(x.bits)
    ensures r == x
  {
    x
  }

  function SwapInt16(x: Int16): (r: Int16)
    ensures r.bits == Swap16(x.bits)
    ensures Bytes16(r.bits) == Reversed(Bytes16(x.bits))
  {
    Swap16ReversesBytes(x.bits);
    Int16(Swap16(x.bits))
  }

  function SwapInt32(x: Int32): (r: Int32)
    ensures r.bits == Swap32(x.bits)
    ensures Bytes32(r.bits) == Reversed(Bytes32(x.bits))
  {
    Swap32ReversesBytes(x.bits);
    Int32(Swap32(x.bits))
  }

  function SwapInt64(x: Int64): (r: Int64)
    ensures r.bits == Swap64(x.bits)
    ensures Bytes64(r.bits) == Reversed(Bytes64(x.bits))
  {
    Swap64ReversesBytes(x.bits);
    Int64(Swap64(x.bits))
  }

  /** A signed swap applied twice gives back the original value. */
  lemma SwapInt8IsInvolution(x: Int8)
    ensures SwapInt8(SwapInt8(x)) == x
  {
  }

  lemma SwapInt16IsInvolution(x: Int16)
    ensures SwapInt16(SwapInt16(x)) == x
  {
    Swap16IsInvolution(x.bits);
  }

  lemma SwapInt32IsInvolution(x: Int32)
    ensures SwapInt32(SwapInt32(x)) == x
  {
    Swap32IsInvolution(x.bits);
  }

  lemma SwapInt64IsInvolution(x: Int64)
    ensures SwapInt64(SwapInt64(x)) == x
  {
    Swap64IsInvolution(x.bits);
  }

  /* ---------- The vectors of the unit test ---------- */

  /** 8 bits: a no-op for signed -127 and unsigned 255. */
  lemma Vectors8()
    ensures ToInt8(-127).bits == 0x81 && ToInt8(-127).Value() == -127
    ensures SwapInt8(ToInt8(-127)) == ToInt8(-127)
    ensures Swap8(255) == 255
  {
  }

  /** 16 bits: -129 is the pattern 0xFF7F, whose swap is 0x7FFF. */
  lemma Vectors16()
    ensures ToInt16(-129).bits == 0xFF7F && ToInt16(-129).Value() == -129
    ensures SwapInt16(ToInt16(-129)) == ToInt16(0x7FFF)
    ensures SwapInt16(ToInt16(-129)).Value() == 0x7FFF
    ensures Swap16(0xFFEF) == 0xEFFF
  {
  }

  lemma Vectors32()
    ensures ToInt32(-129).bits == 0xFFFF_FF7F && ToInt32(-129).Value() == -129
    ensures SwapInt32(ToInt32(-129)) == ToInt32(0x7FFF_FFFF)
    ensures SwapInt32(ToInt32(-129)).Value() == 0x7FFF_FFFF
    ensures Swap32(0xBBAA_FFEF) == 0xEFFF_AABB
  {
  }

  lemma Vectors64()
    ensures ToInt64(-129).bits == 0xFFFF_FFFF_FFFF_FF7F && ToInt64(-129).Value() == -129
    ensures SwapInt64(ToInt64(-129)) == ToInt64(0x7FFF_FFFF_FFFF_FFFF)
    ensures SwapInt64(ToInt64(-129)).Value() == 0x7FFF_FFFF_FFFF_FFFF
    ensures Swap64(0xAABB_CCDD_EEFF_EEEF) == 0xEFEE_FFEE_DDCC_BBAA
  {
  }
}
