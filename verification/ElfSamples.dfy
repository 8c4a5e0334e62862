/** Concrete images: the kernel's own demo, the one its guard test offers, and one with a gap. */
module ElfSamples {
  import opened Bytes
  import opened AddressSpace
  import opened ElfImage
  import opened ElfLoader

  // ---------- Images given by their words ----------

  function ByteOf(w: u32, j: nat): byte {
    if j == 0 then w % 0x100 else if j == 1 then w / 0x100 % 0x100 else if j == 2 then w / 0x1_0000 % 0x100 else w / 0x100_0000
  }

  lemma HalfWords(w: u32)
    ensures ByteOf(w, 0) + 0x100 * ByteOf(w, 1) == w % 0x1_0000 && ByteOf(w, 2) + 0x100 * ByteOf(w, 3) == w / 0x1_0000
  {
  }

  /** The first words of an image, in little-endian order. */
  predicate Spells(image: Image, word: nat -> u32, n: nat) {
    4 * n <= |image| && forall i :: 0 <= i < 4 * n ==> image[i] == ByteOf(word(i / 4), i % 4)
  }

  lemma WordAt(image: Image, word: nat -> u32, n: nat, k: nat)
    requires Spells(image, word, n) && k < n
    ensures ReadU32(image, 4 * k) == word(k)
    ensures ReadU16(image, 4 * k) == word(k) % 0x1_0000 && ReadU16(image, 4 * k + 2) == word(k) / 0x1_0000
  {
    hide ByteOf;
    var w := word(k);
    HalfWords(w);
    assert (4 * k) / 4 == (4 * k + 1) / 4 == (4 * k + 2) / 4 == (4 * k + 3) / 4 == k;
    assert image[4 * k] == ByteOf(w, 0) && image[4 * k + 1] == ByteOf(w, 1) && image[4 * k + 2] == ByteOf(w, 2) && image[4 * k + 3] == ByteOf(w, 3);
  }

  lemma Magic(image: Image, word: nat -> u32, n: nat)
    requires Spells(image, word, n) && n >= 2 && word(0) == 0x464C_457F && word(1) == 0x1_0101
    ensures image[..7] == [0x7F, 0x45, 0x4C, 0x46, 1, 1, 1]
  {
    assert ByteOf(0x464C_457F, 0) == 0x7F && ByteOf(0x464C_457F, 1) == 0x45 && ByteOf(0x464C_457F, 2) == 0x4C && ByteOf(0x464C_457F, 3) == 0x46;
    assert image[0] == 0x7F && image[1] == 0x45 && image[2] == 0x4C && image[3] == 0x46;
    assert image[4] == 1 && image[5] == 1 && image[6] == 1;
  }

  /** A 32-bit little-endian executable for this machine, whose program headers follow the header. */
  predicate HeaderWords(word: nat -> u32, kind: u32, entry: u32, headers: nat) {
    && word(0) == 0x464C_457F && word(1) == 0x1_0101 && word(4) == 0x3_0000 + kind && word(5) == 1 && word(6) == entry && word(7) == 52
    && word(10) == 0x20_0034 && word(11) == headers
  }

  lemma HeaderIs(image: Image, word: nat -> u32, n: nat, kind: u32, entry: u32, headers: nat)
    requires Spells(image, word, n) && HeaderWords(word, kind, entry, headers) && (kind == 2 || kind == 3) && 0 < headers <= 32 && 13 + 8 * headers <= n
    ensures HeaderOk(image) && ImageType(image) == kind && EntryPoint(image) == entry && |Segments(image)| == headers && ReadU32(image, 28) == 52
  {
    hide Spells, ReadU16, ReadU32;
    Magic(image, word, n);
    SpelledLength(image, word, n);
    WordAt(image, word, n, 4);
    WordAt(image, word, n, 5);
    WordAt(image, word, n, 6);
    WordAt(image, word, n, 7);
    WordAt(image, word, n, 10);
    WordAt(image, word, n, 11);
  }

  lemma SpelledLength(image: Image, word: nat -> u32, n: nat)
    requires Spells(image, word, n)
    ensures |image| >= 4 * n
  {
  }

  lemma SegmentWords(image: Image, word: nat -> u32, n: nat, k: nat)
    requires Spells(image, word, n) && k + 8 <= n
    ensures 4 * k + 32 <= |image|
    ensures SegmentAt(image, 4 * k) == Segment(word(k), word(k + 1), word(k + 2), word(k + 4), word(k + 5), word(k + 6), word(k + 7))
  {
    hide Spells, ReadU16, ReadU32;
    SpelledLength(image, word, n);
    WordAt(image, word, n, k);
    WordAt(image, word, n, k + 1);
    WordAt(image, word, n, k + 2);
    WordAt(image, word, n, k + 4);
    WordAt(image, word, n, k + 5);
    WordAt(image, word, n, k + 6);
    WordAt(image, word, n, k + 7);
  }

  // ---------- An image with a gap ----------

  /**
   * Two program headers, for a page of code at the bottom of the user range and a page of data two pages above:
   * a valid image whose pages leave a gap.
   */
  function GappedWord(k: nat): u32 {
    match k
    case 0 => 0x464C_457F case 1 => 0x1_0101 case 4 => 0x3_0002 case 5 => 1 case 6 => 0x40_0000 case 7 => 52
    case 10 => 0x20_0034 case 11 => 2
    case 13 => 1 case 15 => 0x40_0000 case 17 => 1 case 18 => 1 case 19 => 5
    case 21 => 1 case 23 => 0x40_2000 case 26 => 1 case 27 => 6
    case _ => 0
  }

  function GappedImage(): (r: Image)
    ensures |r| == 116 && Spells(r, GappedWord, 29)
  {
    seq(116, i requires 0 <= i < 116 => ByteOf(GappedWord(i / 4), i % 4))
  }

  const GAPPED_CODE: Segment := Segment(PT_LOAD, 0, 0x40_0000, 1, 1, 5, 0)
  const GAPPED_DATA: Segment := Segment(PT_LOAD, 0, 0x40_2000, 0, 1, 6, 0)

  lemma GappedIsValid()
    ensures ValidImage(GappedImage()) && !Contiguous(LoadedPages(Segments(GappedImage()), 0))
  {
    hide GappedImage, HeaderOk, SegmentAt, ValidSegments, LoadedPages, Contiguous, Spells;
    HeaderIs(GappedImage(), GappedWord, 29, 2, 0x40_0000, 2);
    SegmentWords(GappedImage(), GappedWord, 29, 13);
    SegmentWords(GappedImage(), GappedWord, 29, 21);
    GappedSegments();
    assert Segments(GappedImage()) == [GAPPED_CODE, GAPPED_DATA];
  }

  lemma GappedSegments()
    ensures ValidSegments([GAPPED_CODE, GAPPED_DATA], 116, false, 0x40_0000)
    ensures !Contiguous(LoadedPages([GAPPED_CODE, GAPPED_DATA], 0))
  {
    hide LoadedPages, Contiguous;
    var segments := [GAPPED_CODE, GAPPED_DATA];
    assert segments[..1] == [GAPPED_CODE] && [GAPPED_CODE][..0] == [];
    assert TotalPages([GAPPED_CODE]) == 1;
    assert TotalPages(segments) == 2;
    assert HasEntry(segments[0], 0x40_0000) && segments[0].fileSize != 0;
    GappedPages();
  }

  lemma GappedPages()
    ensures !Contiguous(LoadedPages([GAPPED_CODE, GAPPED_DATA], 0))
  {
    hide Contiguous;
    var segments := [GAPPED_CODE, GAPPED_DATA];
    assert segments[..1] == [GAPPED_CODE] && [GAPPED_CODE][..0] == [];
    assert LoadedPages([GAPPED_CODE], 0) == [0x400];
    assert LoadedPages(segments, 0) == [0x400, 0x402];
    Gap([0x400, 0x402], 0x400, 0x401, 0x402);
  }

  lemma Gap(pages: seq<nat>, u: nat, v: nat, w: nat)
    requires u in pages && w in pages && u <= v <= w && v !in pages
    ensures !Contiguous(pages)
  {
  }

  // ---------- The demo program ----------

  /** The image the kernel builds around its demo code: one executable page, wherever it is loaded. */
  predicate IsDemo(image: Image, code: seq<byte>) {
    && 0 < |code| <= 0x1000 && |image| == 116 + |code| && Spells(image, (k: nat) => DemoWord(|code|, k), 29) && image[116..] == code
  }

  function DemoWord(size: nat, k: nat): u32 {
    match k
    case 0 => 0x464C_457F case 1 => 0x1_0101 case 4 => 0x3_0003 case 5 => 1 case 7 => 52
    case 10 => 0x20_0034 case 11 => 1
    case 13 => 1 case 14 => 116 case 17 => (if size <= 0x1000 then size else 0) case 18 => 0x1000 case 19 => 1 case 20 => 1
    case _ => 0
  }

  function DemoSegment(size: nat): Segment
    requires size <= 0x1000
  {
    Segment(PT_LOAD, 116, 0, size, 0x1000, 1, 1)
  }

  lemma DemoSegments(image: Image, code: seq<byte>)
    requires IsDemo(image, code)
    ensures HeaderOk(image) && ImageType(image) == ET_DYN && EntryPoint(image) == 0 && Segments(image) == [DemoSegment(|code|)]
  {
    hide Spells, HeaderOk, SegmentAt;
    var word := (k: nat) => DemoWord(|code|, k);
    HeaderIs(image, word, 29, 3, 0, 1);
    SegmentWords(image, word, 29, 13);
  }

  /** The demo is a valid image of one page. */
  lemma DemoIsValid(image: Image, code: seq<byte>)
    requires IsDemo(image, code)
    ensures ValidImage(image) && LoadedPages(Segments(image), 0) == [0] && Contiguous(LoadedPages(Segments(image), 0))
  {
    hide Spells, HeaderOk;
    DemoSegments(image, code);
    var s := DemoSegment(|code|);
    assert [s][..0] == [];
    assert TotalPages([s]) == 1;
    assert HasEntry([s][0], 0) && [s][0].fileSize != 0;
    assert PageList(0, 1) == [0];
  }

  /** Every aligned base of the range for such images suits the demo, as long as its page there is free. */
  lemma DemoSuits(vm: Vm, image: Image, code: seq<byte>, candidate: u32)
    requires IsDemo(image, code) && candidate % 0x1000 == 0 && 0x200_0000 <= candidate < 0x3000_0000
    requires Lookup(vm, vm.current, candidate / 0x1000).Absent?
    ensures HeaderOk(image) && Suits(vm, Segments(image), candidate)
  {
    hide Spells, HeaderOk, Lookup;
    DemoSegments(image, code);
    var s := DemoSegment(|code|);
    assert [s][..0] == [];
    assert LowPage([s]) == 0 && HighPage([s]) == 1;
  }

  // ---------- The image of the guard test ----------

  /** An executable that claims the first stack region's guard page. */
  function GuardWord(k: nat): u32 {
    match k
    case 0 => 0x464C_457F case 1 => 0x1_0101 case 4 => 0x3_0002 case 5 => 1 case 6 => 0x80_0000 case 7 => 52
    case 10 => 0x20_0034 case 11 => 1
    case 13 => 1 case 14 => 116 case 15 => 0x80_0000 case 17 => 1 case 18 => 0x1000 case 19 => 1 case 20 => 1
    case _ => 0
  }

  /** It is refused, and for its address alone: one page lower the same image is valid. */
  lemma GuardImageRefused(image: Image)
    requires |image| == 128 && Spells(image, GuardWord, 29)
    ensures !ValidImage(image) && ValidSegments([Segment(PT_LOAD, 116, 0x7F_F000, 1, 0x1000, 1, 1)], 128, false, 0x7F_F000)
  {
    hide Spells, HeaderOk, SegmentAt;
    HeaderIs(image, GuardWord, 29, 2, 0x80_0000, 1);
    SegmentWords(image, GuardWord, 29, 13);
    var s := Segments(image)[0];
    assert s == Segment(PT_LOAD, 116, 0x80_0000, 1, 0x1000, 1, 1);
    assert !SegmentOk(s, |image|, false);
    var lower := Segment(PT_LOAD, 116, 0x7F_F000, 1, 0x1000, 1, 1);
    assert [lower][..0] == [];
    assert TotalPages([lower]) == 1;
    assert HasEntry([lower][0], 0x7F_F000) && [lower][0].fileSize != 0;
  }
}
