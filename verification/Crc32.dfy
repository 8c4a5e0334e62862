/**
 * The reflected CRC-32 of section 8 of RFC 1952, one bit at a time, as the journal computes it.
 * The polynomial's top bit is set, so a shift step loses nothing: this is what makes a single changed
 * byte visible in the final value.
 */
module Crc32 {
  import opened Binary
  import opened Bytes

  const POLYNOMIAL: u32 := 0xEDB8_8320
  const INITIAL: u32 := 0xFFFF_FFFF

  function Shift(crc: u32): u32 {
    XorWord(crc / 2, if crc % 2 == 1 then POLYNOMIAL else 0)
  }

  function Shifts(crc: u32, n: nat): u32 {
    if n == 0 then crc else Shift(Shifts(crc, n - 1))
  }

  function Absorb(crc: u32, b: byte): u32 {
    Shifts(XorWord(crc, b), 8)
  }

  function Update(crc: u32, data: seq<byte>): u32 {
    if data == [] then crc else Absorb(Update(crc, data[..|data| - 1]), data[|data| - 1])
  }

  /** The finished checksum of a byte string: the complement of the running value. */
  function Checksum(data: seq<byte>): u32 {
    U32_MAX - Update(INITIAL, data)
  }

  method ComputeUpdate(crc: u32, data: seq<byte>) returns (r: u32)
    ensures r == Update(crc, data)
  {
    r := crc;
    for index := 0 to |data|
      invariant r == Update(crc, data[..index])
    {
      r := XorWord(r, data[index]);
      ghost var start := r;
      for bit := 0 to 8
        invariant r == Shifts(start, bit)
      {
        r := XorWord(r / 2, if r % 2 == 1 then 0xEDB8_8320 else 0);
      }
      assert data[..index + 1][..index] == data[..index];
    }
    assert data[..|data|] == data;
  }

  lemma ShiftInjective(x: u32, y: u32)
    requires Shift(x) == Shift(y)
    ensures x == y
  {
    WordPow();
    XorTopBit(x / 2, POLYNOMIAL, 31);
    XorTopBit(y / 2, POLYNOMIAL, 31);
    XorCancel(x / 2, y / 2, POLYNOMIAL);
  }

  lemma {:induction false} ShiftsInjective(x: u32, y: u32, n: nat)
    requires Shifts(x, n) == Shifts(y, n)
    ensures x == y
  {
    if n != 0 {
      ShiftInjective(Shifts(x, n - 1), Shifts(y, n - 1));
      ShiftsInjective(x, y, n - 1);
    }
  }

  /** With equal results, equal registers mean equal bytes and conversely. */
  lemma AbsorbInjective(x: u32, b: byte, y: u32, c: byte)
    requires Absorb(x, b) == Absorb(y, c)
    ensures x == y <==> b == c
  {
    ShiftsInjective(XorWord(x, b), XorWord(y, c), 8);
    XorCancel(x, y, b);
    XorCancel(b, c, y);
    XorCancel(y, y, b);
    XorCancel(y, y, c);
  }

  /** A change of exactly one byte always changes the running value. */
  lemma {:induction false} UpdateSeesOneByte(crc: u32, data: seq<byte>, i: nat, b: byte)
    requires i < |data| && data[i] != b
    ensures Update(crc, data[i := b]) != Update(crc, data)
    decreases |data|
  {
    var last := |data| - 1;
    var changed := data[i := b];
    assert i == last ==> changed[..last] == data[..last];
    assert i < last ==> changed[..last] == data[..last][i := b];
    if i < last {
      UpdateSeesOneByte(crc, data[..last], i, b);
    }
    if Update(crc, changed) == Update(crc, data) {
      AbsorbInjective(Update(crc, changed[..last]), changed[last], Update(crc, data[..last]), data[last]);
    }
  }

  /** A change of exactly one byte always changes the checksum. */
  lemma ChecksumSeesOneByte(data: seq<byte>, i: nat, b: byte)
    requires i < |data| && data[i] != b
    ensures Checksum(data[i := b]) != Checksum(data)
  {
    UpdateSeesOneByte(INITIAL, data, i, b);
  }

  /** Two update calls in a row are one call on the concatenation. */
  lemma {:induction false} UpdateAppend(crc: u32, s: seq<byte>, t: seq<byte>)
    ensures Update(Update(crc, s), t) == Update(crc, s + t)
  {
    if t == [] {
      assert s + t == s;
    } else {
      UpdateAppend(crc, s, t[..|t| - 1]);
      assert (s + t)[..|s + t| - 1] == s + t[..|t| - 1];
    }
  }
}
