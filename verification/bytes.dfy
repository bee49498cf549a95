/**
 * Byte-order helpers: the `htole16`/`htobe16`/`htobe32`/`le32toh` conversions of the
 * source, stated as explicit encodings into and out of byte strings, and the C integer
 * conversions that truncate an `int` to an unsigned field.
 */
module Bytes {

  type u16 = x: int | 0 <= x < 0x1_0000
  type u32 = x: int | 0 <= x < 0x1_0000_0000

  /** Little-endian bytes of a 16-bit value (`htole16` then a byte copy). */
  function LE16(v: u16): (s: seq<bv8>)
    ensures |s| == 2
  {
    [(v % 0x100) as bv8, (v / 0x100) as bv8]
  }

  function FromLE16(s: seq<bv8>): u16
    requires |s| == 2
  {
    s[0] as int + 0x100 * s[1] as int
  }

  /** Big-endian (network order) bytes of a 16-bit value (`htobe16`). */
  function BE16(v: u16): (s: seq<bv8>)
    ensures |s| == 2
  {
    [(v / 0x100) as bv8, (v % 0x100) as bv8]
  }

  function FromBE16(s: seq<bv8>): u16
    requires |s| == 2
  {
    0x100 * s[0] as int + s[1] as int
  }

  /** Big-endian (network order) bytes of a 32-bit address held as a bit-vector. */
  function BE32(v: bv32): (s: seq<bv8>)
    ensures |s| == 4
  {
    [(v >> 24) as bv8, ((v >> 16) & 0xFF) as bv8, ((v >> 8) & 0xFF) as bv8, (v & 0xFF) as bv8]
  }

  function FromBE32(s: seq<bv8>): bv32
    requires |s| == 4
  {
    ((s[0] as bv32) << 24) | ((s[1] as bv32) << 16) | ((s[2] as bv32) << 8) | (s[3] as bv32)
  }

  /** Little-endian bytes of a 32-bit value (`htole32`, the inverse of `le32toh`). */
  function LE32(v: u32): (s: seq<bv8>)
    ensures |s| == 4
  {
    LE16(v % 0x1_0000) + LE16(v / 0x1_0000)
  }

  function FromLE32(s: seq<bv8>): u32
    requires |s| == 4
  {
    FromLE16(s[..2]) + 0x1_0000 * FromLE16(s[2..])
  }

  /** Converting a value below 2^8 to a byte and back is the identity. */
  lemma ByteRoundTrip(x: int)
    requires 0 <= x < 0x100
    ensures (x as bv8) as int == x
  {
    if x < 0x80 {
      if x < 0x40 {} else {}
    } else {
      if x < 0xC0 {} else {}
    }
  }

  lemma LE16RoundTrip(v: u16)
    ensures FromLE16(LE16(v)) == v
  {
    ByteRoundTrip(v % 0x100);
    ByteRoundTrip(v / 0x100);
  }

  lemma BE16RoundTrip(v: u16)
    ensures FromBE16(BE16(v)) == v
  {
    ByteRoundTrip(v % 0x100);
    ByteRoundTrip(v / 0x100);
  }

  lemma BE32RoundTrip(v: bv32)
    ensures FromBE32(BE32(v)) == v
  {
  }

  lemma LE32RoundTrip(v: u32)
    ensures FromLE32(LE32(v)) == v
  {
    var s := LE32(v);
    assert s[..2] == LE16(v % 0x1_0000);
    assert s[2..] == LE16(v / 0x1_0000);
    LE16RoundTrip(v % 0x1_0000);
    LE16RoundTrip(v / 0x1_0000);
  }

  /** C conversion of an `int` to `uint16_t`: keep the value modulo 2^16. */
  function Trunc16(x: int): (r: u16)
    ensures 0 <= x < 0x1_0000 ==> r == x
  {
    x % 0x1_0000
  }

  /** C conversion of an `int` to `uint32_t`: keep the value modulo 2^32. */
  function Trunc32(x: int): (r: u32)
    ensures 0 <= x < 0x1_0000_0000 ==> r == x
  {
    x % 0x1_0000_0000
  }

  /** C conversion of an `int` to `uint8_t`: keep the value modulo 2^8. */
  function Trunc8(x: int): (r: bv8)
    ensures 0 <= x < 0x100 ==> r as int == x
  {
    var v := x % 0x100;
    ByteRoundTrip(v);
    v as bv8
  }

  /** C conversion of a `uint32_t` to `int` on a two's complement host. */
  function ToInt32(v: u32): (r: int)
    ensures -0x8000_0000 <= r < 0x8000_0000
    ensures (r - v) % 0x1_0000_0000 == 0
    ensures r == 0 <==> v == 0
  {
    if v < 0x8000_0000 then v else v - 0x1_0000_0000
  }

  /** A signed 32-bit value stored as its two's complement word reads back unchanged. */
  lemma ToInt32Wrap(x: int)
    requires -0x8000_0000 <= x < 0x8000_0000
    ensures ToInt32(x % 0x1_0000_0000) == x
  {
    if x < 0 {
      assert x % 0x1_0000_0000 == x + 0x1_0000_0000;
    }
  }
}
