/** 32-bit ELF images as the loader accepts them. */
module ElfImage {
  import opened Bytes

  const HEADER_SIZE: nat := 52
  const PROGRAM_HEADER_SIZE: nat := 32
  const MAX_PROGRAM_HEADERS: nat := 32
  const MAX_IMAGE_PAGES: nat := 1024
  const PAGE: nat := 0x1000
  const USER_MIN: nat := 0x40_0000
  const USER_MAX: nat := 0x4000_0000
  const STACK_BASE: nat := 0x80_0000
  const STACK_END: nat := 0x180_0000
  const PT_LOAD: u32 := 1
  const PT_DYNAMIC: u32 := 2
  const ET_EXEC: u16 := 2
  const ET_DYN: u16 := 3

  type Image = s: seq<byte> | |s| <= U32_MAX witness []

  datatype Segment = Segment(kind: u32, offset: u32, address: u32, fileSize: u32, memorySize: u32, flags: u32, alignment: u32) {
    predicate Writable() {
      flags / 2 % 2 == 1
    }
    predicate Executable() {
      flags % 2 == 1
    }
    /** A segment that occupies memory. */
    predicate Loads() {
      kind == PT_LOAD && memorySize != 0
    }
    function FirstPage(bias: nat): nat {
      (address + bias) / PAGE
    }
    function EndPage(bias: nat): nat {
      (address + bias + memorySize + PAGE - 1) / PAGE
    }
  }

  function SegmentAt(image: Image, o: nat): Segment
    requires o + PROGRAM_HEADER_SIZE <= |image|
  {
    Segment(ReadU32(image, o), ReadU32(image, o + 4), ReadU32(image, o + 8), ReadU32(image, o + 16), ReadU32(image, o + 20),
            ReadU32(image, o + 24), ReadU32(image, o + 28))
  }

  predicate RangeIsInside(offset: nat, length: nat, size: nat) {
    offset <= size && length <= size - offset
  }

  predicate OverlapsStack(address: nat, length: nat) {
    length != 0 && address < STACK_END && (length > U32_MAX - address || address + length > STACK_BASE)
  }

  predicate HeaderOk(image: Image) {
    && |image| >= HEADER_SIZE && image[..7] == [0x7F, 0x45, 0x4C, 0x46, 1, 1, 1]
    && (ReadU16(image, 16) == ET_EXEC || ReadU16(image, 16) == ET_DYN) && ReadU16(image, 18) == 3 && ReadU32(image, 20) == 1
    && ReadU16(image, 40) == HEADER_SIZE && ReadU16(image, 42) == PROGRAM_HEADER_SIZE
    && 0 < ReadU16(image, 44) <= MAX_PROGRAM_HEADERS
    && RangeIsInside(ReadU32(image, 28), ReadU16(image, 44) * PROGRAM_HEADER_SIZE, |image|)
  }

  function Segments(image: Image): (r: seq<Segment>)
    requires HeaderOk(image)
    ensures |r| == ReadU16(image, 44) && forall i :: 0 <= i < |r| ==> r[i] == SegmentAt(image, ReadU32(image, 28) + i * PROGRAM_HEADER_SIZE)
  {
    seq(ReadU16(image, 44), i requires 0 <= i < ReadU16(image, 44) => SegmentAt(image, ReadU32(image, 28) + i * PROGRAM_HEADER_SIZE))
  }

  predicate SegmentOk(s: Segment, size: nat, dynamic: bool) {
    && (dynamic ==> s.kind != PT_DYNAMIC)
    && (s.kind == PT_LOAD ==>
          && s.fileSize <= s.memorySize && RangeIsInside(s.offset, s.fileSize, size)
          && s.address < USER_MAX && s.memorySize <= USER_MAX - s.address
          && (!dynamic ==> s.address >= USER_MIN && !OverlapsStack(s.address, s.memorySize))
          && !(s.Writable() && s.Executable()) && (s.alignment == 0 || s.alignment == 1 || s.alignment == 0x1000) && s.flags < 8
          && (s.memorySize != 0 && s.alignment == 0x1000 ==> s.offset % PAGE == s.address % PAGE))
  }

  function PageCount(s: Segment): nat {
    if s.Loads() then s.EndPage(0) - s.FirstPage(0) else 0
  }

  function TotalPages(segments: seq<Segment>): nat {
    if segments == [] then 0 else TotalPages(segments[..|segments| - 1]) + PageCount(segments[|segments| - 1])
  }

  predicate HasEntry(s: Segment, entry: u32) {
    s.Loads() && s.Executable() && s.address <= entry < s.address + s.memorySize
  }

  /** What validation promises the loader. */
  predicate ValidImage(image: Image) {
    HeaderOk(image) && ValidSegments(Segments(image), |image|, ImageType(image) == ET_DYN, EntryPoint(image))
  }

  lemma {:induction false} TotalPagesPrefix(segments: seq<Segment>, k: nat)
    requires k <= |segments|
    ensures TotalPages(segments[..k]) <= TotalPages(segments)
    decreases |segments|
  {
    if k == |segments| {
      assert segments[..k] == segments;
    } else {
      var front := segments[..|segments| - 1];
      TotalPagesPrefix(front, k);
      assert front[..k] == segments[..k];
    }
  }

  /** In a page-aligned segment of a valid image, bytes of one page of memory come from one page of the file, at the same place in it. */
  lemma OneFilePage(image: Image, i: nat, j: nat, k: nat)
    requires ValidImage(image) && i < |Segments(image)| && Segments(image)[i].Loads() && Segments(image)[i].alignment == PAGE
    requires j < Segments(image)[i].fileSize && k < Segments(image)[i].fileSize
    ensures var s := Segments(image)[i];
            && (s.offset + k) % PAGE == (s.address + k) % PAGE
            && ((s.offset + j) / PAGE == (s.offset + k) / PAGE <==> (s.address + j) / PAGE == (s.address + k) / PAGE)
  {
    hide HeaderOk;
    var s := Segments(image)[i];
    assert SegmentOk(s, |image|, ImageType(image) == ET_DYN);
    SameWithin(s.offset, s.address, j);
    SameWithin(s.offset, s.address, k);
  }

  lemma SameWithin(a: nat, b: nat, k: nat)
    requires a % PAGE == b % PAGE
    ensures (a + k) % PAGE == (b + k) % PAGE && (a + k) / PAGE - a / PAGE == (b + k) / PAGE - b / PAGE
  {
    var rest := a % PAGE + k;
    assert a + k == a / PAGE * PAGE + rest && b + k == b / PAGE * PAGE + rest;
  }

  /** One pass over the program headers with running totals, stopping at the first fault. */
  method Validate(image: Image) returns (ok: bool)
    ensures ok == ValidImage(image)
  {
    hide HeaderOk, SegmentOk, HasEntry;
    if !HeaderOk(image) {
      return false;
    }
    ok := ValidateSegments(Segments(image), |image|, ImageType(image) == ET_DYN, EntryPoint(image));
  }

  function ImageType(image: Image): u16
    requires HeaderOk(image)
  {
    ReadU16(image, 16)
  }

  function EntryPoint(image: Image): u32
    requires HeaderOk(image)
  {
    ReadU32(image, 24)
  }

  predicate ValidSegments(segments: seq<Segment>, size: nat, dynamic: bool, entry: u32) {
    && (forall i :: 0 <= i < |segments| ==> SegmentOk(segments[i], size, dynamic))
    && TotalPages(segments) <= MAX_IMAGE_PAGES
    && (exists i :: 0 <= i < |segments| && segments[i].Loads() && segments[i].fileSize != 0)
    && (exists i :: 0 <= i < |segments| && HasEntry(segments[i], entry))
  }

  method ValidateSegments(segments: seq<Segment>, size: nat, dynamic: bool, entry: u32) returns (ok: bool)
    ensures ok == ValidSegments(segments, size, dynamic, entry)
  {
    hide SegmentOk;
    var loadSegments, loadPages, entryExecutable := 0, 0, false;
    for index := 0 to |segments|
      invariant forall i :: 0 <= i < index ==> SegmentOk(segments[i], size, dynamic)
      invariant loadPages == TotalPages(segments[..index]) <= MAX_IMAGE_PAGES
      invariant loadSegments != 0 <==> exists i :: 0 <= i < index && segments[i].Loads() && segments[i].fileSize != 0
      invariant entryExecutable <==> exists i :: 0 <= i < index && HasEntry(segments[i], entry)
    {
      var s := segments[index];
      assert segments[..index + 1][..index] == segments[..index];
      if !SegmentOk(s, size, dynamic) {
        return false;
      }
      if s.Loads() {
        var pages := PageCount(s);
        if pages > MAX_IMAGE_PAGES || loadPages > MAX_IMAGE_PAGES - pages {
          TotalPagesPrefix(segments, index + 1);
          return false;
        }
        loadPages := loadPages + pages;
        if s.fileSize != 0 {
          loadSegments := loadSegments + 1;
        }
        if s.Executable() && entry >= s.address && entry - s.address < s.memorySize {
          entryExecutable := true;
        }
      }
    }
    assert segments[..|segments|] == segments;
    return loadSegments != 0 && entryExecutable;
  }
}
