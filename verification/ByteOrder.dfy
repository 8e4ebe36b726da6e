/** Bytes and the two TIFF byte orders. */
module ByteOrder {
  type byte = b: int | 0 <= b < 256
  type bytes = seq<byte>

  datatype Endian = Little | Big

  function U16(en: Endian, s: bytes, p: nat): (v: nat)
    requires p + 2 <= |s|
    ensures v < 0x1_0000
  {
    var a: int, b: int := s[p], s[p + 1];
    match en
    case Little => a + 256 * b
    case Big => 256 * a + b
  }

  function U32(en: Endian, s: bytes, p: nat): (v: nat)
    requires p + 4 <= |s|
    ensures v < 0x1_0000_0000
  {
    var a: int, b: int, c: int, d: int := s[p], s[p + 1], s[p + 2], s[p + 3];
    match en
    case Little => a + 256 * b + 65536 * c + 16777216 * d
    case Big => 16777216 * a + 65536 * b + 256 * c + d
  }

  /** The bytes `push_u16` appends; reading them back yields `v`. */
  function PutU16(en: Endian, v: nat): (s: bytes)
    requires v < 0x1_0000
    ensures |s| == 2 && U16(en, s, 0) == v
  {
    match en
    case Little => [v % 256, v / 256]
    case Big => [v / 256, v % 256]
  }

  /** The bytes `push_u32` appends; reading them back yields `v`. */
  function PutU32(en: Endian, v: nat): (s: bytes)
    requires v < 0x1_0000_0000
    ensures |s| == 4 && U32(en, s, 0) == v
  {
    var v1 := v / 256;
    var v2 := v1 / 256;
    var v3 := v2 / 256;
    match en
    case Little => [v % 256, v1 % 256, v2 % 256, v3]
    case Big => [v3, v2 % 256, v1 % 256, v % 256]
  }

  /** Sixteen bits have one encoding, so writing back what was read changes nothing. */
  lemma PutReadU16(en: Endian, s: bytes, p: nat)
    requires p + 2 <= |s|
    ensures PutU16(en, U16(en, s, p)) == s[p..p + 2]
  {
    var w := PutU16(en, U16(en, s, p));
    assert w[0] == s[p] && w[1] == s[p + 1];
  }

  /** Big-endian words are little-endian words read backwards, and the first byte of a little-endian word weighs 1. */
  lemma OrdersMirror(a: byte, b: byte, c: byte, d: byte)
    ensures U32(Big, [a, b, c, d], 0) == U32(Little, [d, c, b, a], 0) && U16(Big, [a, b], 0) == U16(Little, [b, a], 0)
    ensures U32(Little, [a, 0, 0, 0], 0) == a && U16(Little, [a, 0], 0) == a
    ensures U32(Little, [a, b, c, d], 0) == U16(Little, [a, b], 0) + 0x1_0000 * U16(Little, [c, d], 0)
  {
  }
}
