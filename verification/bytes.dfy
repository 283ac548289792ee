/**
 Bytes, optional values and the little-endian integer fields of the packed
 bitmap header. The header struct is declared under `#pragma pack(1)`, so its
 fields sit back to back in memory in x86 (little-endian) byte order; `LE16`
 and `LE32` give those bytes and `U16At` / `U32At` read them back.
 */
module Bytes {

  type byte = b: int | 0 <= b < 256

  datatype Option<+T> = None | Some(value: T)

  const TWO_16: nat := 0x1_0000
  const TWO_32: nat := 0x1_0000_0000

  /** The two bytes of a `uint16_t` field, least significant first. */
  function LE16(v: nat): (r: seq<byte>)
    requires v < TWO_16
    ensures |r| == 2
  {
    [v % 256, v / 256]
  }

  /** The four bytes of a `uint32_t` field, least significant first. */
  function LE32(v: nat): (r: seq<byte>)
    requires v < TWO_32
    ensures |r| == 4
  {
    LE16(v % TWO_16) + LE16(v / TWO_16)
  }

  /** The `uint16_t` stored little-endian at `s[off]`, `s[off + 1]`. */
  function U16At(s: seq<byte>, off: nat): (r: nat)
    requires off + 2 <= |s|
    ensures r < TWO_16
  {
    s[off] as int + 256 * (s[off + 1] as int)
  }

  /** The `uint32_t` stored little-endian at `s[off]` .. `s[off + 3]`. */
  function U32At(s: seq<byte>, off: nat): (r: nat)
    requires off + 4 <= |s|
    ensures r < TWO_32
  {
    U16At(s, off) + TWO_16 * U16At(s, off + 2)
  }

  /** Reading a field only looks at its own bytes. */
  lemma U32AtSlice(s: seq<byte>, lo: nat, hi: nat, off: nat)
    requires lo <= hi <= |s|
    requires off + 4 <= hi - lo
    ensures U32At(s[lo..hi], off) == U32At(s, lo + off)
  {
  }

  lemma U16AtSlice(s: seq<byte>, lo: nat, hi: nat, off: nat)
    requires lo <= hi <= |s|
    requires off + 2 <= hi - lo
    ensures U16At(s[lo..hi], off) == U16At(s, lo + off)
  {
  }

  /** Writing a 16-bit field and reading it back gives the value written. */
  lemma U16RoundTrip(v: nat)
    requires v < TWO_16
    ensures U16At(LE16(v), 0) == v
  {
  }

  /** Writing a 32-bit field and reading it back gives the value written. */
  lemma U32RoundTrip(v: nat)
    requires v < TWO_32
    ensures U32At(LE32(v), 0) == v
  {
    var lo, hi := LE16(v % TWO_16), LE16(v / TWO_16);
    assert LE32(v)[..2] == lo && LE32(v)[2..] == hi;
    U16RoundTrip(v % TWO_16);
    U16RoundTrip(v / TWO_16);
  }

  /** Reading two bytes as a field and writing the field gives the same two bytes. */
  lemma LE16OfU16(s: seq<byte>, off: nat)
    requires off + 2 <= |s|
    ensures LE16(U16At(s, off)) == s[off..off + 2]
  {
    var v := U16At(s, off);
    assert v % 256 == s[off] && v / 256 == s[off + 1];
  }

  /** Reading four bytes as a field and writing the field gives the same four bytes. */
  lemma LE32OfU32(s: seq<byte>, off: nat)
    requires off + 4 <= |s|
    ensures LE32(U32At(s, off)) == s[off..off + 4]
  {
    var v := U32At(s, off);
    var lo, hi := U16At(s, off), U16At(s, off + 2);
    assert v % TWO_16 == lo && v / TWO_16 == hi;
    LE16OfU16(s, off);
    LE16OfU16(s, off + 2);
  }
}
