/** Optional results, bytes, machine words and the little-endian byte order used by every on-disk and in-image format. */
module Bytes {

  datatype Option<+T> = None | Some(value: T)

  type byte = x: int | 0 <= x < 0x100
  type u16 = x: int | 0 <= x < 0x1_0000
  type u32 = x: int | 0 <= x < 0x1_0000_0000
  type u64 = x: int | 0 <= x < 0x1_0000_0000_0000_0000

  const U32_MAX: u32 := 0xFFFF_FFFF
  const U64_MAX: u64 := 0xFFFF_FFFF_FFFF_FFFF

  function Le16(v: u16): (s: seq<byte>)
    ensures |s| == 2
  {
    [v % 0x100, v / 0x100]
  }

  function Le32(v: u32): (s: seq<byte>)
    ensures |s| == 4
  {
    Le16(v % 0x1_0000) + Le16(v / 0x1_0000)
  }

  function ReadU16(s: seq<byte>, offset: nat): u16
    requires offset + 2 <= |s|
  {
    (s[offset] as int) + 0x100 * (s[offset + 1] as int)
  }

  function ReadU32(s: seq<byte>, offset: nat): u32
    requires offset + 4 <= |s|
  {
    (ReadU16(s, offset) as int) + 0x1_0000 * (ReadU16(s, offset + 2) as int)
  }

  /** The two halves of a little-endian word determine it, and conversely. */
  lemma Le16RoundTrip(s: seq<byte>, offset: nat, v: u16)
    requires offset + 2 <= |s|
    ensures ReadU16(s, offset) == v <==> s[offset..offset + 2] == Le16(v)
  {
    assert s[offset..offset + 2] == [s[offset], s[offset + 1]];
  }

  lemma Le32RoundTrip(s: seq<byte>, offset: nat, v: u32)
    requires offset + 4 <= |s|
    ensures ReadU32(s, offset) == v <==> s[offset..offset + 4] == Le32(v)
  {
    assert s[offset..offset + 4] == s[offset..offset + 2] + s[offset + 2..offset + 4];
    Le16RoundTrip(s, offset, v % 0x1_0000);
    Le16RoundTrip(s, offset + 2, v / 0x1_0000);
    assert s[offset..offset + 4][..2] == s[offset..offset + 2];
    assert s[offset..offset + 4][2..] == s[offset + 2..offset + 4];
    assert Le32(v)[..2] == Le16(v % 0x1_0000);
    assert Le32(v)[2..] == Le16(v / 0x1_0000);
  }

  function Zeros(n: nat): (s: seq<byte>)
    ensures |s| == n && forall i :: 0 <= i < n ==> s[i] == 0
  {
    seq(n, _ => 0)
  }

  predicate AllZero(s: seq<byte>) {
    forall i :: 0 <= i < |s| ==> s[i] == 0
  }
}
