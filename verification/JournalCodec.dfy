/** The one-sector journal record and the journal superblock: layout, encoding and decoding. */
module JournalCodec {
  import opened Bytes
  import Crc32

  const SECTOR_SIZE: nat := 512
  const NAME_MAX: nat := 32
  const CONTENT_MAX: nat := 256
  const MAX_DATA_SECTORS: nat := 1024
  const MAGIC: u32 := 0x314A_5346
  const COMMIT: u32 := 0xC0DE_17ED
  const HEADER_SIZE: nat := 20
  const PAYLOAD_SIZE: nat := NAME_MAX + CONTENT_MAX
  const COMMIT_OFFSET: nat := SECTOR_SIZE - 4

  type Sector = s: seq<byte> | |s| == SECTOR_SIZE witness Zeros(SECTOR_SIZE)

  datatype Operation = Write | Remove {
    function Code(): u16 {
      if Write? then 1 else 2
    }
  }

  datatype Entry = Entry(operation: Operation, sequence: u32, name: seq<byte>, content: seq<byte>)

  predicate ValidNameByte(b: byte) {
    b >= 0x21 && b != 0x2F && b != 0x5C
  }

  predicate ValidName(name: seq<byte>) {
    0 < |name| < NAME_MAX && forall i :: 0 <= i < |name| ==> ValidNameByte(name[i])
  }

  predicate ValidEntry(e: Entry) {
    && e.sequence != 0
    && ValidName(e.name)
    && |e.content| <= CONTENT_MAX
    && (e.operation.Remove? ==> e.content == [])
  }

  // ---------- Layout ----------

  function Pad(s: seq<byte>, n: nat): (r: seq<byte>)
    requires |s| <= n
    ensures |r| == n
  {
    s + Zeros(n - |s|)
  }

  /** A word followed by two half words. */
  function Words(a: u32, b: u16, c: u16): (s: seq<byte>)
    ensures |s| == 8
  {
    Le32(a) + Le16(b) + Le16(c)
  }

  function Header(e: Entry): (s: seq<byte>)
    requires ValidEntry(e)
    ensures |s| == 16
  {
    Words(MAGIC, 1, e.operation.Code()) + Words(e.sequence, |e.name|, |e.content|)
  }

  function Payload(e: Entry): (s: seq<byte>)
    requires ValidEntry(e)
    ensures |s| == PAYLOAD_SIZE
  {
    Pad(e.name, NAME_MAX) + Pad(e.content, CONTENT_MAX)
  }

  function Marker(committed: bool): u32 {
    if committed then COMMIT else 0
  }

  /** The sector of a record: prepared when the marker is clear, replayable when it is set. */
  function EncodeSector(e: Entry, committed: bool): Sector
    requires ValidEntry(e)
  {
    Header(e) + Le32(Crc32.Checksum(Header(e) + Payload(e))) + Payload(e) + Zeros(200) + Le32(Marker(committed))
  }

  /** The bytes the record checksum covers. */
  function Covered(s: Sector): seq<byte> {
    s[..16] + s[HEADER_SIZE..HEADER_SIZE + PAYLOAD_SIZE]
  }

  function DecodeSector(s: Sector, committed: bool): Option<Entry> {
    if ReadU32(s, 0) != MAGIC || ReadU16(s, 4) != 1 || ReadU32(s, 8) == 0 ||
       ReadU32(s, COMMIT_OFFSET) != Marker(committed) || (ReadU16(s, 6) != 1 && ReadU16(s, 6) != 2)
    then None
    else
      var nameLength, contentLength := ReadU16(s, 12), ReadU16(s, 14);
      if nameLength >= NAME_MAX || contentLength > CONTENT_MAX then None
      else
        var name, content := s[20..20 + nameLength], s[52..52 + contentLength];
        if !ValidName(name) || (ReadU16(s, 6) == 2 && contentLength != 0) ||
           ReadU32(s, 16) != Crc32.Checksum(Covered(s)) ||
           !AllZero(s[20 + nameLength..52]) || !AllZero(s[52 + contentLength..308]) || !AllZero(s[308..508])
        then None
        else Some(Entry(if ReadU16(s, 6) == 1 then Write else Remove, ReadU32(s, 8), name, content))
  }

  // ---------- The two directions of the codec ----------

  lemma AllZeroIsZeros(s: seq<byte>)
    ensures AllZero(s) <==> s == Zeros(|s|)
  {
  }

  /** The parts of a sector that is laid out as a record. */
  lemma Parts(h: seq<byte>, crc: seq<byte>, p: seq<byte>, z: seq<byte>, m: seq<byte>, s: seq<byte>)
    requires |h| == 16 && |crc| == 4 && |p| == PAYLOAD_SIZE && |z| == 200 && |m| == 4 && |s| == SECTOR_SIZE
    ensures s == h + crc + p + z + m <==>
            s[..16] == h && s[16..20] == crc && s[20..308] == p && s[308..508] == z && s[508..512] == m
  {
    assert s == s[..16] + s[16..20] + s[20..308] + s[308..508] + s[508..512];
  }

  lemma Split(s: seq<byte>, x: seq<byte>, y: seq<byte>)
    requires |s| == |x| + |y|
    ensures s == x + y <==> s[..|x|] == x && s[|x|..] == y
  {
    assert s == s[..|x|] + s[|x|..];
  }

  lemma WordsParts(s: seq<byte>, offset: nat, a: u32, b: u16, c: u16)
    requires offset + 8 <= |s|
    ensures s[offset..offset + 8] == Words(a, b, c) <==>
            ReadU32(s, offset) == a && ReadU16(s, offset + 4) == b && ReadU16(s, offset + 6) == c
  {
    Le32RoundTrip(s, offset, a);
    Le16RoundTrip(s, offset + 4, b);
    Le16RoundTrip(s, offset + 6, c);
    var t := s[offset..offset + 8];
    Split(t, Le32(a) + Le16(b), Le16(c));
    Split(t[..6], Le32(a), Le16(b));
    assert t[..6][..4] == s[offset..offset + 4] && t[..6][4..] == s[offset + 4..offset + 6];
    assert t[6..] == s[offset + 6..offset + 8];
  }

  lemma HeaderParts(s: seq<byte>, e: Entry)
    requires |s| >= 16 && ValidEntry(e)
    ensures s[..16] == Header(e) <==>
            ReadU32(s, 0) == MAGIC && ReadU16(s, 4) == 1 && ReadU16(s, 6) == e.operation.Code() &&
            ReadU32(s, 8) == e.sequence && ReadU16(s, 12) == |e.name| && ReadU16(s, 14) == |e.content|
  {
    WordsParts(s, 0, MAGIC, 1, e.operation.Code());
    WordsParts(s, 8, e.sequence, |e.name|, |e.content|);
    Split(s[..16], Words(MAGIC, 1, e.operation.Code()), Words(e.sequence, |e.name|, |e.content|));
    assert s[..16][..8] == s[0..8] && s[..16][8..] == s[8..16];
  }

  lemma PadParts(s: seq<byte>, v: seq<byte>)
    requires |v| <= |s|
    ensures s == Pad(v, |s|) <==> s[..|v|] == v && AllZero(s[|v|..])
  {
    AllZeroIsZeros(s[|v|..]);
    assert s == s[..|v|] + s[|v|..];
    assert Pad(v, |s|)[..|v|] == v && Pad(v, |s|)[|v|..] == Zeros(|s| - |v|);
  }

  lemma PayloadParts(s: Sector, e: Entry)
    requires ValidEntry(e)
    ensures s[20..308] == Payload(e) <==>
            s[20..20 + |e.name|] == e.name && AllZero(s[20 + |e.name|..52]) &&
            s[52..52 + |e.content|] == e.content && AllZero(s[52 + |e.content|..308])
  {
    PadParts(s[20..52], e.name);
    PadParts(s[52..308], e.content);
    assert s[20..308] == s[20..52] + s[52..308];
    assert s[20..52][..|e.name|] == s[20..20 + |e.name|] && s[20..52][|e.name|..] == s[20 + |e.name|..52];
    assert s[52..308][..|e.content|] == s[52..52 + |e.content|] && s[52..308][|e.content|..] == s[52 + |e.content|..308];
    assert Payload(e)[..32] == Pad(e.name, NAME_MAX) && Payload(e)[32..] == Pad(e.content, CONTENT_MAX);
  }

  /** What decoding checks, field by field, for a sector to hold the entry e. */
  predicate Holds(s: Sector, committed: bool, e: Entry)
    requires ValidEntry(e)
  {
    && ReadU32(s, 0) == MAGIC && ReadU16(s, 4) == 1 && ReadU16(s, 6) == e.operation.Code()
    && ReadU32(s, 8) == e.sequence && ReadU16(s, 12) == |e.name| && ReadU16(s, 14) == |e.content|
    && ReadU32(s, 16) == Crc32.Checksum(Covered(s)) && ReadU32(s, COMMIT_OFFSET) == Marker(committed)
    && s[20..20 + |e.name|] == e.name && AllZero(s[20 + |e.name|..52])
    && s[52..52 + |e.content|] == e.content && AllZero(s[52 + |e.content|..308]) && AllZero(s[308..508])
  }

  lemma HoldsIffEncoded(s: Sector, committed: bool, e: Entry)
    requires ValidEntry(e)
    ensures Holds(s, committed, e) <==> s == EncodeSector(e, committed)
  {
    var crc := Crc32.Checksum(Header(e) + Payload(e));
    Parts(Header(e), Le32(crc), Payload(e), Zeros(200), Le32(Marker(committed)), s);
    HeaderParts(s, e);
    PayloadParts(s, e);
    Le32RoundTrip(s, 16, crc);
    Le32RoundTrip(s, COMMIT_OFFSET, Marker(committed));
    AllZeroIsZeros(s[308..508]);
  }

  /**
   * Encoding and decoding are two-sided inverses: a sector decodes to an entry exactly when it is,
   * byte for byte, the encoding of that valid entry.
   */
  lemma DecodeIffEncoded(s: Sector, committed: bool, e: Entry)
    ensures DecodeSector(s, committed) == Some(e) <==> ValidEntry(e) && s == EncodeSector(e, committed)
  {
    if ValidEntry(e) {
      HoldsIffEncoded(s, committed, e);
    }
  }

  /** Every record is found again after encoding, and prepared and committed records never pass for each other. */
  lemma RoundTrip(e: Entry, committed: bool)
    requires ValidEntry(e)
    ensures DecodeSector(EncodeSector(e, committed), committed) == Some(e)
    ensures DecodeSector(EncodeSector(e, committed), !committed) == None
  {
    var s := EncodeSector(e, committed);
    DecodeIffEncoded(s, committed, e);
    assert s[508..512] == Le32(Marker(committed));
    Le32RoundTrip(s, 508, Marker(committed));
  }

  /** Writing the marker into a prepared record is exactly what turns it into the committed one. */
  lemma CommitMarkerOnly(e: Entry, s: Sector)
    requires ValidEntry(e)
    ensures s == EncodeSector(e, true) <==> s[..COMMIT_OFFSET] == EncodeSector(e, false)[..COMMIT_OFFSET] && ReadU32(s, COMMIT_OFFSET) == COMMIT
  {
    Le32RoundTrip(s, COMMIT_OFFSET, COMMIT);
    var body := EncodeSector(e, false)[..COMMIT_OFFSET];
    assert EncodeSector(e, true) == body + Le32(COMMIT);
    Split(s, body, Le32(COMMIT));
    assert s[COMMIT_OFFSET..] == s[COMMIT_OFFSET..COMMIT_OFFSET + 4];
  }

  /** What every accepted sector satisfies, whatever entry it holds. */
  predicate Sealed(s: Sector) {
    s[16..20] == Le32(Crc32.Checksum(Covered(s))) && AllZero(s[308..508]) && s[508..512] == Le32(COMMIT)
  }

  lemma DecodedIsSealed(s: Sector)
    requires DecodeSector(s, true).Some?
    ensures Sealed(s)
  {
    Le32RoundTrip(s, 16, ReadU32(s, 16));
    Le32RoundTrip(s, 508, COMMIT);
  }

  /** No two sealed sectors are one byte apart. */
  lemma SealBreaks(s: Sector, i: nat, b: byte)
    requires i < SECTOR_SIZE && s[i] != b && Sealed(s)
    ensures !Sealed(s[i := b])
  {
    var t: Sector := s[i := b];
    if i < 16 || 20 <= i < 308 {
      var k := if i < 16 then i else i - 4;
      assert Covered(t) == Covered(s)[k := b];
      Crc32.ChecksumSeesOneByte(Covered(s), k, b);
      Le32RoundTrip(s, 16, Crc32.Checksum(Covered(s)));
      Le32RoundTrip(s, 16, Crc32.Checksum(Covered(t)));
      assert t[16..20] == s[16..20];
    } else if i < 20 {
      assert Covered(t) == Covered(s);
      assert t[16..20][i - 16] != s[16..20][i - 16];
    } else if i < 508 {
      assert t[308..508][i - 308] == b && s[308..508][i - 308] == s[i];
    } else {
      assert t[508..512][i - 508] != s[508..512][i - 508];
    }
  }

  /** Any change of one byte, anywhere in a committed record and to any value, is rejected. */
  lemma OneByteChangeRejected(e: Entry, i: nat, b: byte)
    requires ValidEntry(e) && i < SECTOR_SIZE
    requires b != EncodeSector(e, true)[i]
    ensures DecodeSector(EncodeSector(e, true)[i := b], true) == None
  {
    var s := EncodeSector(e, true);
    RoundTrip(e, true);
    DecodedIsSealed(s);
    SealBreaks(s, i, b);
    if DecodeSector(s[i := b], true).Some? {
      DecodedIsSealed(s[i := b]);
    }
  }

  /** Where a record keeps what: the numbers in the header, then name and content, each followed by zeros. */
  lemma RecordLayout(e: Entry, committed: bool)
    requires ValidEntry(e)
    ensures var s := EncodeSector(e, committed);
            && ReadU32(s, 0) == 0x314A_5346 && ReadU16(s, 4) == 1 && ReadU16(s, 6) == (if e.operation.Write? then 1 else 2)
            && ReadU32(s, 8) == e.sequence && ReadU16(s, 12) == |e.name| && ReadU16(s, 14) == |e.content|
            && ReadU32(s, 16) == Crc32.Checksum(s[..16] + s[20..308])
            && s[20..20 + |e.name|] == e.name && s[52..52 + |e.content|] == e.content
            && AllZero(s[20 + |e.name|..52]) && AllZero(s[52 + |e.content|..508])
            && ReadU32(s, 508) == if committed then 0xC0DE_17ED else 0
  {
    hide EncodeSector, ReadU16, ReadU32, ValidName;
    var s := EncodeSector(e, committed);
    DecodeIffEncoded(s, committed, e);
    assert s[52 + |e.content|..508] == s[52 + |e.content|..308] + s[308..508];
  }

  // ---------- Superblock ----------

  function EncodeSuperblock(dataSectors: nat): Sector
    requires 0 < dataSectors <= MAX_DATA_SECTORS
  {
    var h := Words(MAGIC, 1, dataSectors) + Le32(0);
    h + Le32(Crc32.Checksum(h)) + Zeros(492) + Le32(COMMIT)
  }

  function DecodeSuperblock(s: Sector): Option<nat> {
    if ReadU32(s, 0) != MAGIC || ReadU16(s, 4) != 1 || ReadU32(s, COMMIT_OFFSET) != COMMIT ||
       ReadU16(s, 6) == 0 || ReadU16(s, 6) > MAX_DATA_SECTORS ||
       ReadU32(s, 8) != 0 || ReadU32(s, 12) != Crc32.Checksum(s[..12]) || !AllZero(s[16..508])
    then None
    else Some(ReadU16(s, 6))
  }

  /** A sector is read as a superblock of n sectors exactly when it is the encoding of n. */
  lemma SuperblockDecodeIffEncoded(s: Sector, n: nat)
    ensures DecodeSuperblock(s) == Some(n) <==> 0 < n <= MAX_DATA_SECTORS && s == EncodeSuperblock(n)
  {
    if 0 < n <= MAX_DATA_SECTORS {
      var h := Words(MAGIC, 1, n) + Le32(0);
      var c := Le32(Crc32.Checksum(h));
      WordsParts(s, 0, MAGIC, 1, n);
      Le32RoundTrip(s, 8, 0);
      Le32RoundTrip(s, 12, Crc32.Checksum(h));
      Le32RoundTrip(s, 508, COMMIT);
      AllZeroIsZeros(s[16..508]);
      Split(s, h + c + Zeros(492), Le32(COMMIT));
      Split(s[..508], h + c, Zeros(492));
      Split(s[..16], h, c);
      Split(s[..12], Words(MAGIC, 1, n), Le32(0));
      assert s[..508][..16] == s[..16] && s[..508][16..] == s[16..508] && s[508..] == s[508..512];
      assert s[..16][..12] == s[..12] && s[..16][12..] == s[12..16];
      assert s[..12][..8] == s[0..8] && s[..12][8..] == s[8..12];
    }
  }

  // ---------- The buffer-filling form ----------

  method WriteU16(a: array<byte>, offset: nat, v: u16)
    requires offset + 2 <= a.Length
    modifies a
    ensures ReadU16(a[..], offset) == v
    ensures forall i :: 0 <= i < a.Length && !(offset <= i < offset + 2) ==> a[i] == old(a[i])
  {
    a[offset] := v % 0x100;
    a[offset + 1] := v / 0x100;
  }

  method WriteU32(a: array<byte>, offset: nat, v: u32)
    requires offset + 4 <= a.Length
    modifies a
    ensures ReadU32(a[..], offset) == v
    ensures forall i :: 0 <= i < a.Length && !(offset <= i < offset + 4) ==> a[i] == old(a[i])
  {
    WriteU16(a, offset, v % 0x1_0000);
    WriteU16(a, offset + 2, v / 0x1_0000);
  }

  method WriteWords(sector: array<byte>, offset: nat, a: u32, b: u16, c: u16)
    requires offset + 8 <= sector.Length
    modifies sector
    ensures ReadU32(sector[..], offset) == a
    ensures ReadU16(sector[..], offset + 4) == b && ReadU16(sector[..], offset + 6) == c
    ensures forall i :: 0 <= i < sector.Length && !(offset <= i < offset + 8) ==> sector[i] == old(sector[i])
  {
    WriteU32(sector, offset, a);
    WriteU16(sector, offset + 4, b);
    WriteU16(sector, offset + 6, c);
  }

  method CopyBytes(a: array<byte>, offset: nat, data: seq<byte>)
    requires offset + |data| <= a.Length
    modifies a
    ensures a[offset..offset + |data|] == data
    ensures forall i :: 0 <= i < a.Length && !(offset <= i < offset + |data|) ==> a[i] == old(a[i])
  {
    for index := 0 to |data|
      invariant forall k :: 0 <= k < index ==> a[offset + k] == data[k]
      invariant forall i :: 0 <= i < a.Length && !(offset <= i < offset + index) ==> a[i] == old(a[i])
    {
      a[offset + index] := data[index];
    }
  }

  method IsValidName(name: seq<byte>) returns (ok: bool)
    ensures ok == ValidName(name)
  {
    if |name| == 0 || |name| >= NAME_MAX {
      return false;
    }
    for index := 0 to |name|
      invariant forall i :: 0 <= i < index ==> ValidNameByte(name[i])
    {
      if name[index] < 0x21 || name[index] == 0x2F || name[index] == 0x5C {
        return false;
      }
    }
    return true;
  }

  method RecordCrc(s: Sector) returns (crc: u32)
    ensures crc == Crc32.Checksum(Covered(s))
  {
    var c := Crc32.ComputeUpdate(Crc32.INITIAL, s[..16]);
    c := Crc32.ComputeUpdate(c, s[HEADER_SIZE..HEADER_SIZE + PAYLOAD_SIZE]);
    Crc32.UpdateAppend(Crc32.INITIAL, s[..16], s[HEADER_SIZE..HEADER_SIZE + PAYLOAD_SIZE]);
    crc := U32_MAX - c;
  }

  /** Arguments accepted by the encoder, with the operation still a number. */
  predicate Encodable(operation: u32, sequence: u32, name: seq<byte>, content: seq<byte>) {
    && sequence != 0 && (operation == 1 || operation == 2) && |content| <= CONTENT_MAX
    && ValidName(name) && (operation == 2 ==> content == [])
  }

  function EntryOf(operation: u32, sequence: u32, name: seq<byte>, content: seq<byte>): Entry {
    Entry(if operation == 1 then Write else Remove, sequence, name, content)
  }

  method Encode(sector: array<byte>, operation: u32, sequence: u32, name: seq<byte>, content: seq<byte>,
                committed: bool)
    returns (ok: bool)
    requires sector.Length == SECTOR_SIZE
    modifies sector
    ensures ok == Encodable(operation, sequence, name, content)
    ensures ok ==> sector[..] == EncodeSector(EntryOf(operation, sequence, name, content), committed)
    ensures !ok ==> sector[..] == old(sector[..])
  {
    var named := IsValidName(name);
    if sequence == 0 || (operation != 1 && operation != 2) || |content| > CONTENT_MAX ||
       !named || (operation == 2 && |content| != 0) {
      return false;
    }
    ghost var e := EntryOf(operation, sequence, name, content);
    FillRecord(sector, operation, sequence, name, content);
    ghost var before: Sector := sector[..];
    var crc := RecordCrc(sector[..]);
    WriteU32(sector, 16, crc);
    if committed {
      WriteU32(sector, COMMIT_OFFSET, COMMIT);
    }
    FilledThenSealed(before, sector[..], e, committed);
    return true;
  }

  /** A record without its checksum and marker. */
  predicate Filled(s: Sector, e: Entry)
    requires ValidEntry(e)
  {
    && ReadU32(s, 0) == MAGIC && ReadU16(s, 4) == 1 && ReadU16(s, 6) == e.operation.Code()
    && ReadU32(s, 8) == e.sequence && ReadU16(s, 12) == |e.name| && ReadU16(s, 14) == |e.content|
    && s[20..20 + |e.name|] == e.name && s[52..52 + |e.content|] == e.content
    && forall i :: 16 <= i < SECTOR_SIZE && !(20 <= i < 20 + |e.name|) && !(52 <= i < 52 + |e.content|) ==> s[i] == 0
  }

  lemma FilledThenSealed(before: Sector, s: Sector, e: Entry, committed: bool)
    requires ValidEntry(e) && Filled(before, e)
    requires forall i :: 0 <= i < SECTOR_SIZE && !(16 <= i < 20) && !(508 <= i < 512) ==> s[i] == before[i]
    requires ReadU32(s, 16) == Crc32.Checksum(Covered(before)) && ReadU32(s, 508) == Marker(committed)
    ensures s == EncodeSector(e, committed)
  {
    hide ReadU16, ReadU32, ValidNameByte;
    assert |e.name| < 32 && |e.content| <= 256;
    assert Covered(s) == Covered(before);
    assert s[20..20 + |e.name|] == before[20..20 + |e.name|];
    assert s[52..52 + |e.content|] == before[52..52 + |e.content|];
    SameNumbers(s, before, 0);
    SameNumbers(s, before, 4);
    SameNumbers(s, before, 8);
    SameNumbers(s, before, 12);
    assert AllZero(s[20 + |e.name|..52]) && AllZero(s[52 + |e.content|..308]) && AllZero(s[308..508]);
    assert Holds(s, committed, e);
    HoldsIffEncoded(s, committed, e);
  }

  lemma SameNumbers(s: Sector, t: Sector, o: nat)
    requires o + 4 <= SECTOR_SIZE && forall i :: o <= i < o + 4 ==> s[i] == t[i]
    ensures ReadU32(s, o) == ReadU32(t, o) && ReadU16(s, o) == ReadU16(t, o) && ReadU16(s, o + 2) == ReadU16(t, o + 2)
  {
  }

  method FillRecord(sector: array<byte>, operation: u32, sequence: u32, name: seq<byte>, content: seq<byte>)
    requires sector.Length == SECTOR_SIZE && Encodable(operation, sequence, name, content)
    modifies sector
    ensures Filled(sector[..], EntryOf(operation, sequence, name, content))
  {
    for index := 0 to SECTOR_SIZE
      invariant forall i :: 0 <= i < index ==> sector[i] == 0
    {
      sector[index] := 0;
    }
    WriteWords(sector, 0, MAGIC, 1, operation);
    WriteWords(sector, 8, sequence, |name|, |content|);
    CopyBytes(sector, 20, name);
    CopyBytes(sector, 52, content);
    assert sector[20..20 + |name|] == name;
  }

  method IsAllZero(s: seq<byte>) returns (ok: bool)
    ensures ok == AllZero(s)
  {
    for index := 0 to |s|
      invariant AllZero(s[..index])
    {
      if s[index] != 0 {
        return false;
      }
    }
    return true;
  }

  method Decode(s: Sector, committed: bool) returns (r: Option<Entry>)
    ensures r == DecodeSector(s, committed)
  {
    if ReadU32(s, 0) != MAGIC || ReadU16(s, 4) != 1 || ReadU32(s, 8) == 0 ||
       ReadU32(s, COMMIT_OFFSET) != Marker(committed) || (ReadU16(s, 6) != 1 && ReadU16(s, 6) != 2) {
      return None;
    }
    var nameLength, contentLength := ReadU16(s, 12), ReadU16(s, 14);
    if nameLength >= NAME_MAX || contentLength > CONTENT_MAX {
      return None;
    }
    var name, content := s[20..20 + nameLength], s[52..52 + contentLength];
    var named := IsValidName(name);
    var crc := RecordCrc(s);
    var nameTail := IsAllZero(s[20 + nameLength..52]);
    var contentTail := IsAllZero(s[52 + contentLength..308]);
    var unused := IsAllZero(s[308..508]);
    if !named || (ReadU16(s, 6) == 2 && contentLength != 0) || ReadU32(s, 16) != crc ||
       !nameTail || !contentTail || !unused {
      return None;
    }
    return Some(Entry(if ReadU16(s, 6) == 1 then Write else Remove, ReadU32(s, 8), name, content));
  }
}
