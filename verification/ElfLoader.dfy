/** Loading and unloading an image in the current address space. */
module ElfLoader {
  import opened Arithmetic
  import opened Bytes
  import opened AddressSpace
  import opened PageSets
  import opened ElfImage

  const DYN_BASE_MIN: nat := 0x200_0000
  const DYN_BASE_MAX: nat := 0x3000_0000

  /** Contents of a physical frame. */
  function PageOf(ram: map<nat, seq<byte>>, f: nat): (r: seq<byte>)
    ensures |r| == PAGE_SIZE
  {
    if f in ram && |ram[f]| == PAGE_SIZE then ram[f] else Zeros(PAGE_SIZE)
  }

  /** The byte that user address a reads in the current space. */
  function ByteAt(vm: Vm, ram: map<nat, seq<byte>>, a: nat): byte {
    PageOf(ram, FrameAt(vm, a / PAGE_SIZE))[a % PAGE_SIZE]
  }

  /** What a segment puts at address a of its pages: its file bytes, zeros everywhere else. */
  function Expected(image: Image, s: Segment, bias: nat, a: nat): byte {
    var from := s.address + bias;
    if from <= a < from + s.fileSize && s.offset + (a - from) < |image| then image[s.offset + (a - from)] else 0
  }

  function SegmentFlags(s: Segment): Flags {
    Flags(s.Writable(), true, false, s.Executable())
  }

  /** The pages from first up to end, in order. */
  function PageList(first: nat, end: nat): (r: seq<nat>)
    ensures first <= end ==> |r| == end - first && forall i :: 0 <= i < |r| ==> r[i] == first + i
    decreases end - first
  {
    if first >= end then [] else PageList(first, end - 1) + [end - 1]
  }

  function AsSet(pages: seq<nat>): (r: set<nat>)
    ensures forall v :: v in r <==> v in pages
  {
    set v | v in pages
  }

  /** Every user page of an earlier state still maps the same frame with the same flags and contents. */
  ghost predicate Kept(vm1: Vm, ram1: map<nat, seq<byte>>, vm2: Vm, ram2: map<nat, seq<byte>>) {
    && vm2.current == vm1.current
    && (forall v :: IsUserPage(vm1, v) ==> Lookup(vm2, vm1.current, v) == Lookup(vm1, vm1.current, v))
    && (forall b: nat :: IsUserPage(vm1, b / PAGE_SIZE) ==> ByteAt(vm2, ram2, b) == ByteAt(vm1, ram1, b))
  }

  lemma KeptSelf(vm: Vm, ram: map<nat, seq<byte>>)
    ensures Kept(vm, ram, vm, ram)
  {
  }

  lemma KeptTrans(vm1: Vm, ram1: map<nat, seq<byte>>, vm2: Vm, ram2: map<nat, seq<byte>>, vm3: Vm, ram3: map<nat, seq<byte>>)
    requires Kept(vm1, ram1, vm2, ram2) && Kept(vm2, ram2, vm3, ram3)
    ensures Kept(vm1, ram1, vm3, ram3)
  {
    hide ByteAt, Lookup;
    forall v | IsUserPage(vm1, v) ensures IsUserPage(vm2, v) && Lookup(vm3, vm1.current, v) == Lookup(vm1, vm1.current, v) {
    }
  }

  /** The segment's pages hold its bytes followed by zeros, with its final permissions. */
  ghost predicate Placed(vm: Vm, ram: map<nat, seq<byte>>, image: Image, s: Segment, bias: nat) {
    && (forall v :: s.FirstPage(bias) <= v < s.EndPage(bias) ==> IsUserPage(vm, v) && Lookup(vm, vm.current, v).flags == Flags(s.Writable(), true, false, s.Executable()))
    && (forall a: nat :: s.FirstPage(bias) <= a / PAGE_SIZE < s.EndPage(bias) ==> ByteAt(vm, ram, a) == Expected(image, s, bias, a))
  }

  /** A valid image that is in place can be started: its entry point lies in a page that may be executed and not written. */
  lemma EntryRuns(vm: Vm, ram: map<nat, seq<byte>>, image: Image, bias: nat)
    requires ValidImage(image)
    requires forall i :: 0 <= i < |Segments(image)| && Segments(image)[i].Loads() ==> Placed(vm, ram, image, Segments(image)[i], bias)
    ensures var page := (EntryPoint(image) + bias) / PAGE_SIZE;
            && IsUserPage(vm, page) && Lookup(vm, vm.current, page).flags.executable && !Lookup(vm, vm.current, page).flags.writable
  {
    hide HeaderOk, ByteAt, Expected, Lookup, SegmentOk;
    var i :| 0 <= i < |Segments(image)| && HasEntry(Segments(image)[i], EntryPoint(image));
    var s := Segments(image)[i];
    NotBoth(image, i);
    PageOfAddress(s, bias, EntryPoint(image) + bias);
  }

  lemma NotBoth(image: Image, i: nat)
    requires ValidImage(image) && i < |Segments(image)| && Segments(image)[i].Loads()
    ensures !(Segments(image)[i].Writable() && Segments(image)[i].Executable())
  {
    assert SegmentOk(Segments(image)[i], |image|, ImageType(image) == ET_DYN);
  }

  lemma PlacedKept(vm1: Vm, ram1: map<nat, seq<byte>>, vm2: Vm, ram2: map<nat, seq<byte>>, image: Image, s: Segment, bias: nat)
    requires Placed(vm1, ram1, image, s, bias) && Kept(vm1, ram1, vm2, ram2)
    ensures Placed(vm2, ram2, image, s, bias)
  {
    hide ByteAt, Lookup, Expected;
    forall v | s.FirstPage(bias) <= v < s.EndPage(bias) ensures IsUserPage(vm2, v) && Lookup(vm2, vm2.current, v).flags == SegmentFlags(s) {
      assert IsUserPage(vm1, v);
    }
    forall a: nat | s.FirstPage(bias) <= a / PAGE_SIZE < s.EndPage(bias) ensures ByteAt(vm2, ram2, a) == Expected(image, s, bias, a) {
      assert IsUserPage(vm1, a / PAGE_SIZE);
    }
  }

  /** Replacing a page by a user page with the same frame, or filling an empty one, keeps all other user pages. */
  lemma OnlyPageKeeps(vm: Vm, after: Vm, v: nat, ram: map<nat, seq<byte>>)
    requires Inv(vm) && v < PAGES && after.current == vm.current != vm.kernel && OnlyPage(vm, after, v, Lookup(after, vm.current, v))
    ensures forall w: nat :: w < PAGES && w != v ==> Lookup(after, vm.current, w) == Lookup(vm, vm.current, w)
    ensures forall b: nat :: b / PAGE_SIZE != v && IsUserPage(vm, b / PAGE_SIZE) ==> ByteAt(after, ram, b) == ByteAt(vm, ram, b)
  {
    hide Lookup;
    ValidFrames(vm);
    forall w: nat | w < PAGES && w != v ensures Lookup(after, vm.current, w) == Lookup(vm, vm.current, w) {
    }
  }

  // ---------- Why a load stops ----------

  /** With these pages added to vm0, page v cannot be: it is mapped already, or there is no room for it. */
  ghost predicate Stops(vm0: Vm, pages: seq<nat>, v: nat) {
    v < PAGES && (Lookup(vm0, vm0.current, v).Present? || v in pages || exists full :: Extends(vm0, full, AsSet(pages)) && NoRoom(full, v))
  }

  /** Placing a run of pages stops at one of them, with those before it added. */
  ghost predicate StopsWithin(vm0: Vm, mapped: seq<nat>, first: nat, end: nat, pages: seq<nat>) {
    exists v :: first <= v < end && pages == mapped + PageList(first, v) && Stops(vm0, pages, v)
  }

  /** Placing the segments stops at segment k: it does not fit, or one of its pages cannot be added. */
  ghost predicate StopsAt(vm0: Vm, segments: seq<Segment>, bias: nat, pages: seq<nat>, k: nat)
    requires k < |segments|
  {
    var s, before := segments[k], LoadedPages(segments[..k], bias);
    s.Loads() && if !Placeable(s, bias) then pages == before else StopsWithin(vm0, before, s.FirstPage(bias), s.EndPage(bias), pages)
  }

  function Bias(image: Image, candidate: u32): u32 {
    if HeaderOk(image) && ImageType(image) == ET_DYN then candidate else 0
  }

  /** Why an image is not loaded, and the pages it had by then. */
  ghost predicate Refused(vm0: Vm, image: Image, candidate: u32, pages: seq<nat>) {
    if !ValidImage(image) || (ImageType(image) == ET_DYN && !Suits(vm0, Segments(image), candidate)) then pages == []
    else exists k :: 0 <= k < |Segments(image)| && StopsAt(vm0, Segments(image), Bias(image, candidate), pages, k)
  }

  /** The lowest page, and one past the highest, that segments take up unbiased. */
  function LowPage(segments: seq<Segment>): nat {
    if segments == [] then USER_MAX / PAGE_SIZE
    else
      var s, low := segments[|segments| - 1], LowPage(segments[..|segments| - 1]);
      if s.Loads() then Min(s.FirstPage(0), low) else low
  }

  function HighPage(segments: seq<Segment>): nat {
    if segments == [] then 0
    else
      var s, high := segments[|segments| - 1], HighPage(segments[..|segments| - 1]);
      if s.Loads() && s.EndPage(0) > high then s.EndPage(0) else high
  }

  /** A base suits when the image is not too large and, moved there, lies in free user pages clear of the stacks. */
  ghost predicate Suits(vm: Vm, segments: seq<Segment>, candidate: u32) {
    var low, high := LowPage(segments), HighPage(segments);
    && low < high <= low + MAX_IMAGE_PAGES && high * PAGE_SIZE <= USER_MAX - DYN_BASE_MIN
    && candidate % PAGE_SIZE == 0 && DYN_BASE_MIN <= candidate < DYN_BASE_MAX
    && low * PAGE_SIZE <= candidate <= USER_MAX - high * PAGE_SIZE
    && !OverlapsStack(candidate + low * PAGE_SIZE, (high - low) * PAGE_SIZE)
    && Unmapped(vm, candidate / PAGE_SIZE + low, candidate / PAGE_SIZE + high)
  }

  lemma {:induction false} SpanCovers(segments: seq<Segment>, i: nat)
    requires i < |segments| && segments[i].Loads()
    ensures LowPage(segments) <= segments[i].FirstPage(0) && segments[i].EndPage(0) <= HighPage(segments)
  {
    var last := |segments| - 1;
    if i < last {
      assert segments[..last][i] == segments[i];
      SpanCovers(segments[..last], i);
    }
  }

  /** At a base that suits, every segment fits, over pages not yet mapped. */
  lemma SuitsSegment(vm: Vm, segments: seq<Segment>, candidate: u32, i: nat)
    requires Suits(vm, segments, candidate) && i < |segments| && segments[i].Loads()
    ensures Placeable(segments[i], candidate) && Unmapped(vm, segments[i].FirstPage(candidate), segments[i].EndPage(candidate))
  {
    hide Lookup, LowPage, HighPage;
    SpanCovers(segments, i);
    PagesMove(segments[i], candidate);
    Shifted(segments[i], candidate, HighPage(segments));
  }

  /** A valid image with fixed addresses always fits, so it is refused only for want of pages. */
  lemma ValidFits(image: Image, i: nat)
    requires ValidImage(image) && ImageType(image) == ET_EXEC && i < |Segments(image)| && Segments(image)[i].Loads()
    ensures Placeable(Segments(image)[i], 0)
  {
    hide HeaderOk, OverlapsStack, Placeable;
    assert SegmentOk(Segments(image)[i], |image|, false);
    FitsUnmoved(Segments(image)[i]);
  }

  lemma FitsUnmoved(s: Segment)
    requires s.Loads() && USER_MIN <= s.address < USER_MAX && s.memorySize <= USER_MAX - s.address && !OverlapsStack(s.address, s.memorySize)
    ensures Placeable(s, 0)
  {
    hide OverlapsStack;
  }

  class Loader {
    var vm: Vm
    var ram: map<nat, seq<byte>>

    method WriteByte(a: nat, x: byte)
      requires Inv(vm) && IsUserPage(vm, a / PAGE_SIZE)
      modifies this`ram
      ensures forall b: nat :: IsUserPage(vm, b / PAGE_SIZE) ==> ByteAt(vm, ram, b) == if b == a then x else ByteAt(vm, old(ram), b)
    {
      var f := FrameAt(vm, a / PAGE_SIZE);
      ghost var before := ram;
      ram := ram[f := PageOf(ram, f)[a % PAGE_SIZE := x]];
      forall b: nat | IsUserPage(vm, b / PAGE_SIZE) ensures ByteAt(vm, ram, b) == if b == a then x else ByteAt(vm, before, b) {
        if b / PAGE_SIZE != a / PAGE_SIZE {
          FrameUnique(vm, a / PAGE_SIZE, b / PAGE_SIZE);
        }
      }
    }

    /** Writes zeros to [from, end). */
    method ZeroRange(from: nat, end: nat)
      requires Inv(vm) && forall a :: from <= a < end ==> IsUserPage(vm, a / PAGE_SIZE)
      modifies this`ram
      ensures forall b: nat :: IsUserPage(vm, b / PAGE_SIZE) ==> ByteAt(vm, ram, b) == if from <= b < end then 0 else ByteAt(vm, old(ram), b)
    {
      hide Inv, ByteAt, IsUserPage;
      var a := from;
      while a < end
        invariant from <= a && (a <= end || a == from)
        invariant forall b: nat :: IsUserPage(vm, b / PAGE_SIZE) ==> ByteAt(vm, ram, b) == if from <= b < a then 0 else ByteAt(vm, old(ram), b)
      {
        WriteByte(a, 0);
        a := a + 1;
      }
    }

    /** Copies the file bytes of a segment to its place. */
    method CopyIn(image: Image, s: Segment, bias: nat)
      requires Inv(vm) && s.offset + s.fileSize <= |image|
      requires forall a :: s.address + bias <= a < s.address + bias + s.fileSize ==> IsUserPage(vm, a / PAGE_SIZE)
      modifies this`ram
      ensures forall b: nat :: IsUserPage(vm, b / PAGE_SIZE) ==>
                ByteAt(vm, ram, b) == if s.address + bias <= b < s.address + bias + s.fileSize then image[s.offset + (b - s.address - bias)] else ByteAt(vm, old(ram), b)
    {
      hide Inv, ByteAt, IsUserPage;
      var from := s.address + bias;
      for k := 0 to s.fileSize
        invariant forall b: nat :: IsUserPage(vm, b / PAGE_SIZE) ==>
                    ByteAt(vm, ram, b) == if from <= b < from + k then image[s.offset + (b - from)] else ByteAt(vm, old(ram), b)
      {
        WriteByte(from + k, image[s.offset + k]);
      }
    }

    method MapPages(first: nat, end: nat, mapped: seq<nat>, ghost vm0: Vm) returns (ok: bool, all: seq<nat>)
      requires Extends(vm0, vm, AsSet(mapped)) && end <= PAGES && NoRepeats(mapped)
      modifies this
      ensures Extends(vm0, vm, AsSet(all)) && Kept(old(vm), old(ram), vm, ram) && NoRepeats(all)
      ensures ok && first <= end ==> all == mapped + PageList(first, end)
      ensures !ok ==> StopsWithin(vm0, mapped, first, end, all)
      ensures ok ==> NoneOf(old(vm), first, end)
      ensures ok ==> forall b: nat :: first <= b / PAGE_SIZE < end ==> IsUserPage(vm, b / PAGE_SIZE) && ByteAt(vm, ram, b) == 0
    {
      hide Inv, Extends, IsUserPage, ByteAt, Lookup, Stops;
      all := mapped;
      KeptSelf(vm, ram);
      var page := first;
      while page < end
        invariant first <= page && (page <= end || page == first)
        invariant Extends(vm0, vm, AsSet(all)) && all == mapped + PageList(first, page) && Kept(old(vm), old(ram), vm, ram)
        invariant NoneOf(old(vm), first, page) && NoRepeats(all)
        invariant forall b: nat :: first <= b / PAGE_SIZE < page ==> IsUserPage(vm, b / PAGE_SIZE) && ByteAt(vm, ram, b) == 0
      {
        ok, all := MapOne(page, all, vm0, old(vm), old(ram), first);
        if !ok {
          return;
        }
        assert mapped + PageList(first, page) + [page] == mapped + PageList(first, page + 1);
        page := page + 1;
      }
      return true, all;
    }

    method MapOne(page: nat, mapped: seq<nat>, ghost vm0: Vm, ghost vm1: Vm, ghost ram1: map<nat, seq<byte>>, ghost first: nat)
      returns (ok: bool, all: seq<nat>)
      requires Extends(vm0, vm, AsSet(mapped)) && page < PAGES && Kept(vm1, ram1, vm, ram)
      requires forall b: nat :: first <= b / PAGE_SIZE < page ==> IsUserPage(vm, b / PAGE_SIZE) && ByteAt(vm, ram, b) == 0
      modifies this
      ensures Extends(vm0, vm, AsSet(all)) && Kept(vm1, ram1, vm, ram)
      ensures all == if ok then mapped + [page] else mapped
      ensures !ok ==> Stops(vm0, mapped, page)
      ensures ok ==> !IsUserPage(vm1, page) && page !in mapped
      ensures ok ==> forall b: nat :: first <= b / PAGE_SIZE < page + 1 ==> IsUserPage(vm, b / PAGE_SIZE) && ByteAt(vm, ram, b) == 0
    {
      hide Inv, Lookup, AddedTables, AddedFrames, NoneLost, NoRoom;
      ValidFrames(vm0);
      if Lookup(vm, vm.current, page).Present? {
        return false, mapped;
      }
      ghost var before := vm;
      assert page !in AsSet(mapped);
      AddPageEffect(vm0, vm, AsSet(mapped), page);
      AddPageSucceeds(vm, page);
      var (after, added) := AddPage(vm, page);
      vm := after;
      if !added {
        return false, mapped;
      }
      all := mapped + [page];
      assert AsSet(all) == AsSet(mapped) + {page};
      assert IsUserPage(vm, page);
      OnlyPageKeeps(before, vm, page, ram);
      ghost var ram2 := ram;
      ZeroRange(page * PAGE_SIZE, (page + 1) * PAGE_SIZE);
      forall v | IsUserPage(vm1, v) ensures v != page && IsUserPage(before, v) && IsUserPage(vm, v) {
      }
      forall b: nat | first <= b / PAGE_SIZE < page + 1 ensures IsUserPage(vm, b / PAGE_SIZE) && ByteAt(vm, ram, b) == 0 {
        if b / PAGE_SIZE == page {
          assert page * PAGE_SIZE <= b < (page + 1) * PAGE_SIZE;
        } else {
          assert IsUserPage(before, b / PAGE_SIZE) && !(page * PAGE_SIZE <= b < (page + 1) * PAGE_SIZE);
          assert ByteAt(vm, ram2, b) == 0;
        }
      }
      return true, all;
    }

    /** Gives a segment's pages their final permissions. */
    method ProtectPages(first: nat, end: nat, flags: Flags, pages: seq<nat>, ghost vm0: Vm) returns (ok: bool)
      requires Extends(vm0, vm, AsSet(pages)) && end <= PAGES && flags.user && !(flags.writable && flags.executable)
      requires forall v :: first <= v < end ==> v in pages
      modifies this`vm
      ensures ok && Extends(vm0, vm, AsSet(pages)) && vm.current == old(vm).current
      ensures forall v: nat :: v < PAGES && !(first <= v < end) ==> Lookup(vm, vm.current, v) == Lookup(old(vm), vm.current, v)
      ensures forall v: nat :: first <= v < end ==> Lookup(vm, vm.current, v) == Present(FrameAt(old(vm), v), flags)
    {
      hide Inv, Lookup, AddedTables, AddedFrames, FrameAt;
      ghost var start := vm;
      var page := first;
      while page < end
        invariant first <= page && (page <= end || page == first)
        invariant Extends(vm0, vm, AsSet(pages)) && vm.current == start.current
        invariant forall v: nat :: v < PAGES && !(first <= v < page) ==> Lookup(vm, vm.current, v) == Lookup(start, start.current, v)
        invariant forall v: nat :: first <= v < page ==> Lookup(vm, vm.current, v) == Present(FrameAt(start, v), flags)
      {
        ghost var before := vm;
        ProtectAdded(vm0, vm, AsSet(pages), page, flags);
        SameFrame(start, vm, page);
        vm := ProtectPage(vm, page * PAGE_SIZE, flags, false).0;
        OnlyPageKeeps(before, vm, page, map[]);
        page := page + 1;
      }
      return true;
    }

    /** Maps, fills and protects one segment; on failure the pages mapped so far are reported for release. */
    method PlaceSegment(image: Image, s: Segment, bias: nat, mapped: seq<nat>, ghost vm0: Vm) returns (ok: bool, all: seq<nat>)
      requires Extends(vm0, vm, AsSet(mapped)) && NoRepeats(mapped) && s.Loads() && Placeable(s, bias) && s.fileSize <= s.memorySize
      requires s.offset + s.fileSize <= |image| && !(s.Writable() && s.Executable())
      modifies this
      ensures Extends(vm0, vm, AsSet(all)) && Kept(old(vm), old(ram), vm, ram) && NoRepeats(all)
      ensures ok ==> all == mapped + PageList(s.FirstPage(bias), s.EndPage(bias)) && Placed(vm, ram, image, s, bias)
      ensures !ok ==> StopsWithin(vm0, mapped, s.FirstPage(bias), s.EndPage(bias), all)
    {
      hide Inv, Lookup, AddedTables, AddedFrames, AddedPages, ByteAt, FrameAt, Expected, StopsWithin, NoneLost;
      var first, end := s.FirstPage(bias), s.EndPage(bias);
      PageBounds(s, bias);
      ok, all := MapPages(first, end, mapped, vm0);
      if !ok {
        return;
      }
      ghost var vm1, ram1 := vm, ram;
      assert Inv(vm);
      forall a: nat | s.address + bias <= a < end * PAGE_SIZE ensures first <= a / PAGE_SIZE < end && IsUserPage(vm, a / PAGE_SIZE) {
        PageOfAddress(s, bias, a);
      }
      assert s.address + bias + s.fileSize <= end * PAGE_SIZE;
      CopyIn(image, s, bias);
      ghost var ram2 := ram;
      ZeroRange(s.address + bias + s.fileSize, end * PAGE_SIZE);
      assert Filled(vm, ram, image, s, bias) by {
        FilledNow(vm, ram1, ram2, ram, image, s, bias);
      }
      KeptRam(old(vm), old(ram), vm, ram1, ram, first, end);
      forall v | first <= v < end ensures v in all {
        assert PageList(first, end)[v - first] == v;
      }
      ok := ProtectPages(first, end, SegmentFlags(s), all, vm0);
      PlacedNow(vm1, vm, ram, image, s, bias);
      KeptVm(old(vm), old(ram), vm1, vm, ram, first, end);
    }

    /** Undoes every mapping of a failed load, in the order they were made. */
    method ReleasePages(pages: seq<nat>, ghost vm0: Vm)
      requires Extends(vm0, vm, AsSet(pages)) && NoRepeats(pages)
      modifies this`vm
      ensures Leaves(vm0, vm, {}) && Emptied(vm0, vm, AsSet(pages), {})
    {
      hide Inv, Lookup, AddedTables, AddedFrames, AddedPages, Emptied, EmptySlot, UsesSlot, LostSlot, NoneLost;
      assert pages[0..] == pages;
      EmptiedNothing(vm0, vm, AsSet(pages));
      for index := 0 to |pages|
        invariant Leaves(vm0, vm, AsSet(pages[index..])) && Emptied(vm0, vm, AsSet(pages), AsSet(pages[index..]))
      {
        ghost var rest := pages[index..];
        assert rest[0] == pages[index] && rest[1..] == pages[index + 1..] && rest[0] !in rest[1..];
        AddedBelow(vm0, vm, AsSet(rest), pages[index]);
        RemovePageEffect(vm0, vm, AsSet(rest), pages[index]);
        EmptiedNext(vm0, vm, RemovePage(vm, pages[index]).0, AsSet(pages), AsSet(rest), pages[index]);
        vm := RemovePage(vm, pages[index]).0;
        assert AsSet(rest) - {pages[index]} == AsSet(pages[index + 1..]);
      }
      assert AsSet(pages[|pages|..]) == {};
    }

    /** Places the segments one after the other; stops at the first that does not fit. */
    method PlaceAll(image: Image, bias: nat, ghost vm0: Vm, ghost ram0: map<nat, seq<byte>>)
      returns (ok: bool, mapped: seq<nat>, base: nat, end: nat)
      requires ValidImage(image) && Extends(vm0, vm, {}) && Kept(vm0, ram0, vm, ram)
      modifies this
      ensures Extends(vm0, vm, AsSet(mapped)) && NoRepeats(mapped) && Kept(vm0, ram0, vm, ram)
      ensures ok ==> && mapped == LoadedPages(Segments(image), bias) && Bounds(mapped, base, end) && InUserRange(mapped)
                     && (forall i :: 0 <= i < |Segments(image)| && Segments(image)[i].Loads() ==> Placed(vm, ram, image, Segments(image)[i], bias))
      ensures !ok ==> exists k :: 0 <= k < |Segments(image)| && StopsAt(vm0, Segments(image), bias, mapped, k)
    {
      hide ValidImage, HeaderOk, Placed, Kept, Extends, Bounds, InUserRange, NoRepeats, Placeable, PageList,
           SegmentFlags, StopsWithin;
      var segments := AllSegments(image);
      mapped, base, end := [], USER_MAX, USER_MIN;
      NothingLoaded();
      for index := 0 to |segments|
        invariant Extends(vm0, vm, AsSet(mapped)) && Kept(vm0, ram0, vm, ram) && NoRepeats(mapped)
        invariant mapped == LoadedPages(segments[..index], bias) && Bounds(mapped, base, end) && InUserRange(mapped)
        invariant forall i :: 0 <= i < index && segments[i].Loads() ==> Placed(vm, ram, image, segments[i], bias)
      {
        var s := segments[index];
        LoadedPagesNext(segments, index, bias);
        if s.Loads() {
          SegmentFacts(image, index);
          if !Placeable(s, bias) {
            assert StopsAt(vm0, segments, bias, mapped, index);
            return false, mapped, base, end;
          }
          BoundsMore(mapped, base, end, s, bias);
          RangeMore(mapped, s, bias);
          base := if s.FirstPage(bias) * PAGE_SIZE < base then s.FirstPage(bias) * PAGE_SIZE else base;
          end := if s.EndPage(bias) * PAGE_SIZE > end then s.EndPage(bias) * PAGE_SIZE else end;
          ghost var vm1, ram1 := vm, ram;
          ok, mapped := PlaceSegment(image, s, bias, mapped, vm0);
          KeptTrans(vm0, ram0, vm1, ram1, vm, ram);
          if !ok {
            assert StopsAt(vm0, segments, bias, mapped, index);
            return;
          }
          forall i | 0 <= i < index && segments[i].Loads() ensures Placed(vm, ram, image, segments[i], bias) {
            PlacedKept(vm1, ram1, vm, ram, image, segments[i], bias);
          }
        }
      }
      assert segments[..|segments|] == segments;
      return true, mapped, base, end;
    }

    /**
     * Loads every segment, or none at all. `candidate` is the base the kernel picked for a position-independent
     * image, and `pages` are those added, for good or until the load stopped. A failed load restores every
     * translation, and every frame exactly when none of the slots it added pages to held an empty table before.
     */
    method Load(image: Image, candidate: u32) returns (ok: bool, entry: u32, base: nat, end: nat, ghost pages: seq<nat>)
      requires Inv(vm) && vm.current != vm.kernel
      modifies this
      ensures Kept(old(vm), old(ram), vm, ram) && NoRepeats(pages)
      ensures !ok ==> && Refused(old(vm), image, candidate, pages) && SameLookups(old(vm), vm)
                      && Leaves(old(vm), vm, {}) && Emptied(old(vm), vm, AsSet(pages), {})
                      && (vm.frames == old(vm).frames <==> forall v :: v in pages && v < PAGES ==> !EmptySlot(old(vm), v / ENTRIES))
      ensures ok ==> && ValidImage(image) && (ImageType(image) == ET_DYN ==> Suits(old(vm), Segments(image), candidate))
                     && var bias := Bias(image, candidate);
                        && Extends(old(vm), vm, AsSet(pages)) && entry == EntryPoint(image) + bias
                        && pages == LoadedPages(Segments(image), bias) && Bounds(pages, base, end) && InUserRange(pages)
                        && (forall i :: 0 <= i < |Segments(image)| && Segments(image)[i].Loads() ==> Placed(vm, ram, image, Segments(image)[i], bias))
    {
      hide Inv, Lookup, AddedTables, AddedFrames, AddedPages, ByteAt, ValidSegments, HeaderOk, Placed, Kept,
           EmptySlot, UsesSlot, LostSlot, StopsAt, Suits, NoneLost;
      KeptSelf(vm, ram);
      SameSelf(vm);
      ExtendsNothing(vm);
      ok, entry, base, end, pages := false, 0, 0, 0, [];
      NoneEmptied(vm);
      var valid := Validate(image);
      if !valid {
        return;
      }
      if ImageType(image) == ET_DYN {
        var accepted := BiasAccepted(Segments(image), candidate);
        if !accepted {
          return;
        }
      }
      var bias := Bias(image, candidate);
      var mapped: seq<nat>;
      ok, mapped, base, end := PlaceAll(image, bias, vm, ram);
      pages := mapped;
      EntryFits(old(vm), image, candidate);
      if !ok || EntryPoint(image) > U32_MAX - bias {
        ghost var mid := vm;
        ReleasePages(mapped, old(vm));
        NothingAdded(old(vm), vm);
        ReleasedKeeps(old(vm), old(ram), mid, vm, ram);
        FramesBack(old(vm), vm, pages);
        ok := false;
        return;
      }
      entry := EntryPoint(image) + bias;
    }

    /** Whether a base suits a position-independent image: then every segment fits there, over pages not yet mapped. */
    method BiasAccepted(segments: seq<Segment>, candidate: u32) returns (ok: bool)
      ensures ok <==> Suits(vm, segments, candidate)
      ensures ok ==> forall i :: 0 <= i < |segments| && segments[i].Loads() ==>
                       Placeable(segments[i], candidate) && Unmapped(vm, segments[i].FirstPage(candidate), segments[i].EndPage(candidate))
    {
      var low: nat, high: nat := USER_MAX / PAGE_SIZE, 0;
      for index := 0 to |segments|
        invariant low == LowPage(segments[..index]) && high == HighPage(segments[..index])
      {
        var s := segments[index];
        assert segments[..index + 1][..index] == segments[..index];
        if s.Loads() {
          low := if s.FirstPage(0) < low then s.FirstPage(0) else low;
          high := if s.EndPage(0) > high then s.EndPage(0) else high;
        }
      }
      assert segments[..|segments|] == segments;
      if high <= low || high - low > MAX_IMAGE_PAGES || high * PAGE_SIZE > USER_MAX - DYN_BASE_MIN ||
         candidate % PAGE_SIZE != 0 || candidate < DYN_BASE_MIN || candidate >= DYN_BASE_MAX ||
         candidate < low * PAGE_SIZE || candidate > USER_MAX - high * PAGE_SIZE ||
         OverlapsStack(candidate + low * PAGE_SIZE, (high - low) * PAGE_SIZE) {
        return false;
      }
      for page := low to high
        invariant Unmapped(vm, candidate / PAGE_SIZE + low, candidate / PAGE_SIZE + page)
      {
        if Lookup(vm, vm.current, candidate / PAGE_SIZE + page).Present? {
          return false;
        }
      }
      forall i | 0 <= i < |segments| && segments[i].Loads()
        ensures Placeable(segments[i], candidate) && Unmapped(vm, segments[i].FirstPage(candidate), segments[i].EndPage(candidate))
      {
        SuitsSegment(vm, segments, candidate, i);
      }
      return true;
    }

    /**
     * Unloads a span. Given that a page from before the load lies in the span only along with a hole, it succeeds
     * exactly when every page of the span was loaded, and then takes away exactly those pages; otherwise it changes
     * nothing.
     */
    method Unload(base: nat, end: nat, ghost vm0: Vm, ghost pages: set<nat>) returns (ok: bool)
      requires Extends(vm0, vm, pages)
      requires (forall v :: base <= v * PAGE_SIZE < end ==> v < PAGES ==> Lookup(vm0, vm0.current, v).Absent?)
            || (exists v :: base <= v * PAGE_SIZE < end && v < PAGES && Lookup(vm, vm.current, v).Absent?)
      modifies this`vm
      ensures ok == (SpanOk(base, end) && forall v :: base <= v * PAGE_SIZE < end ==> v in pages)
      ensures ok ==> var rest := Outside(pages, base, end); Leaves(vm0, vm, rest) && Emptied(vm0, vm, pages, rest)
      ensures !ok ==> vm == old(vm)
    {
      hide Inv, Lookup, AddedTables, AddedFrames, Emptied, EmptySlot, UsesSlot, LostSlot, NoneLost;
      if base < USER_MIN || base >= end || base % PAGE_SIZE != 0 || end > USER_MAX || end % PAGE_SIZE != 0 {
        return false;
      }
      var first, last := base / PAGE_SIZE, end / PAGE_SIZE;
      for page := first to last
        invariant vm == old(vm) && forall v :: first <= v < page ==> Lookup(vm, vm.current, v).Present?
      {
        if Lookup(vm, vm.current, page).Absent? {
          assert base <= page * PAGE_SIZE < end && page !in pages;
          return false;
        }
      }
      forall v | first <= v < last ensures v in pages {
        assert base <= v * PAGE_SIZE < end;
        AddedHere(vm0, vm, pages, v);
      }
      assert Without(pages, first, first) == pages;
      EmptiedNothing(vm0, vm, pages);
      for page := first to last
        invariant Leaves(vm0, vm, Without(pages, first, page)) && Emptied(vm0, vm, pages, Without(pages, first, page))
      {
        assert page in Without(pages, first, page);
        RemovePageEffect(vm0, vm, Without(pages, first, page), page);
        EmptiedNext(vm0, vm, RemovePage(vm, page).0, pages, Without(pages, first, page), page);
        vm := RemovePage(vm, page).0;
        assert Without(pages, first, page) - {page} == Without(pages, first, page + 1);
      }
      assert Without(pages, first, last) == Outside(pages, base, end);
      return true;
    }
  }

  /** The pages that do not start in [base, end). */
  ghost function Outside(pages: set<nat>, base: nat, end: nat): set<nat> {
    set v | v in pages && !(base <= v * PAGE_SIZE < end)
  }

  /** Before anything is added nothing can be lost. */
  lemma NoneEmptied(vm: Vm)
    requires Extends(vm, vm, {})
    ensures Emptied(vm, vm, {}, {}) && AsSet([]) == {}
  {
    EmptiedNothing(vm, vm, {});
  }

  /** The entry point of a valid image stays a 32-bit address wherever the image is loaded. */
  lemma EntryFits(vm: Vm, image: Image, candidate: u32)
    requires ValidImage(image) && (ImageType(image) == ET_DYN ==> Suits(vm, Segments(image), candidate))
    ensures EntryPoint(image) + Bias(image, candidate) <= U32_MAX
  {
    var i :| 0 <= i < |Segments(image)| && HasEntry(Segments(image)[i], EntryPoint(image));
    assert SegmentOk(Segments(image)[i], |image|, ImageType(image) == ET_DYN);
  }

  /** With every page gone again, the frames are back exactly when no page went through an empty table. */
  lemma FramesBack(vm0: Vm, vm: Vm, pages: seq<nat>)
    requires Emptied(vm0, vm, AsSet(pages), {}) && (vm.frames == vm0.frames <==> NoneLost(vm0, vm))
    ensures vm.frames == vm0.frames <==> forall v :: v in pages && v < PAGES ==> !EmptySlot(vm0, v / ENTRIES)
  {
    hide EmptySlot, LostSlot;
    if NoneLost(vm0, vm) {
      forall v | v in pages && v < PAGES ensures !EmptySlot(vm0, v / ENTRIES) {
        assert !LostSlot(vm0, vm, v / ENTRIES) && UsesSlot(AsSet(pages), v / ENTRIES);
      }
    }
    forall i | 0 <= i < ENTRIES && LostSlot(vm0, vm, i) ensures exists v :: v in pages && v < PAGES && EmptySlot(vm0, v / ENTRIES) {
      var v :| v in AsSet(pages) && v / ENTRIES == i;
      assert v in pages && v < PAGES;
    }
  }

  predicate SpanOk(base: nat, end: nat) {
    USER_MIN <= base < end <= USER_MAX && base % PAGE_SIZE == 0 && end % PAGE_SIZE == 0
  }

  ghost function Without(pages: set<nat>, first: nat, end: nat): set<nat> {
    set v | v in pages && !(first <= v < end)
  }

  lemma AddedHere(vm0: Vm, vm: Vm, P: set<nat>, v: nat)
    requires Extends(vm0, vm, P) && v < PAGES && Lookup(vm0, vm0.current, v).Absent?
    ensures Lookup(vm, vm.current, v).Present? ==> v in P
  {
    hide Inv, Lookup;
    ValidFrames(vm0);
  }

  /** The pages of all segments, in program-header order. */
  function LoadedPages(segments: seq<Segment>, bias: nat): seq<nat> {
    if segments == [] then []
    else
      var s := segments[|segments| - 1];
      var older := LoadedPages(segments[..|segments| - 1], bias);
      if s.Loads() then older + PageList(s.FirstPage(bias), s.EndPage(bias)) else older
  }

  lemma SegmentFacts(image: Image, i: nat)
    requires ValidImage(image) && i < |Segments(image)| && Segments(image)[i].Loads()
    ensures var s := Segments(image)[i];
            s.fileSize <= s.memorySize && s.offset + s.fileSize <= |image| && !(s.Writable() && s.Executable())
  {
    assert SegmentOk(Segments(image)[i], |image|, ImageType(image) == ET_DYN);
  }

  lemma SameSelf(vm: Vm)
    ensures SameLookups(vm, vm)
  {
  }

  lemma AddedBelow(vm0: Vm, vm: Vm, P: set<nat>, v: nat)
    requires Leaves(vm0, vm, P) && v in P
    ensures v < PAGES
  {
  }

  lemma ReleasedKeeps(vm0: Vm, ram0: map<nat, seq<byte>>, mid: Vm, vm: Vm, ram: map<nat, seq<byte>>)
    requires Inv(vm0) && Kept(vm0, ram0, mid, ram) && SameLookups(vm0, vm) && vm.current == vm0.current
    ensures Kept(vm0, ram0, vm, ram)
  {
    hide Lookup;
    ValidFrames(vm0);
    forall v | IsUserPage(vm0, v) ensures Lookup(vm, vm0.current, v) == Lookup(vm0, vm0.current, v) == Lookup(mid, vm0.current, v) {
    }
    forall b: nat | IsUserPage(vm0, b / PAGE_SIZE) ensures ByteAt(vm, ram, b) == ByteAt(vm0, ram0, b) {
      assert FrameAt(vm, b / PAGE_SIZE) == FrameAt(mid, b / PAGE_SIZE);
    }
  }

  function AllSegments(image: Image): (r: seq<Segment>)
    requires ValidImage(image)
    ensures r == Segments(image)
  {
    Segments(image)
  }

  lemma NothingLoaded()
    ensures AsSet([]) == {} && Bounds([], USER_MAX, USER_MIN) && NoRepeats([]) && InUserRange([])
  {
  }

  lemma LoadedPagesNext(segments: seq<Segment>, k: nat, bias: nat)
    requires k < |segments|
    ensures LoadedPages(segments[..k + 1], bias) ==
              if segments[k].Loads() then LoadedPages(segments[..k], bias) + PageList(segments[k].FirstPage(bias), segments[k].EndPage(bias))
              else LoadedPages(segments[..k], bias)
  {
    assert segments[..k + 1][..k] == segments[..k];
  }

  /** The lowest and one past the highest byte of a set of pages. */
  ghost predicate Bounds(pages: seq<nat>, base: nat, end: nat) {
    && (forall v :: v in pages ==> base <= v * PAGE_SIZE && (v + 1) * PAGE_SIZE <= end)
    && (pages != [] ==> base % PAGE_SIZE == 0 && end % PAGE_SIZE == 0 && base / PAGE_SIZE in pages && end / PAGE_SIZE > 0 && end / PAGE_SIZE - 1 in pages)
    && (pages == [] ==> base == USER_MAX && end == USER_MIN)
  }

  /** Every page lies in the user range and clear of the stacks. */
  predicate InUserRange(pages: seq<nat>) {
    forall v :: v in pages ==> USER_MIN <= v * PAGE_SIZE && (v + 1) * PAGE_SIZE <= USER_MAX && !(STACK_BASE <= v * PAGE_SIZE < STACK_END)
  }

  lemma RangeMore(pages: seq<nat>, s: Segment, bias: nat)
    requires InUserRange(pages) && s.Loads() && Placeable(s, bias)
    ensures InUserRange(pages + PageList(s.FirstPage(bias), s.EndPage(bias)))
  {
    PageBounds(s, bias);
    var list := PageList(s.FirstPage(bias), s.EndPage(bias));
    forall v | v in pages + list
      ensures USER_MIN <= v * PAGE_SIZE && (v + 1) * PAGE_SIZE <= USER_MAX && !(STACK_BASE <= v * PAGE_SIZE < STACK_END)
    {
      if v !in pages {
        assert v in list;
        PageClear(s, bias, v);
      }
    }
  }

  lemma PageClear(s: Segment, bias: nat, v: nat)
    requires s.Loads() && Placeable(s, bias) && s.FirstPage(bias) <= v < s.EndPage(bias)
    ensures USER_MIN <= v * PAGE_SIZE && (v + 1) * PAGE_SIZE <= USER_MAX && !(STACK_BASE <= v * PAGE_SIZE < STACK_END)
  {
  }

  lemma BoundsMore(pages: seq<nat>, base: nat, end: nat, s: Segment, bias: nat)
    requires Bounds(pages, base, end) && InUserRange(pages) && s.Loads() && Placeable(s, bias)
    ensures var first, last := s.FirstPage(bias) * PAGE_SIZE, s.EndPage(bias) * PAGE_SIZE;
            Bounds(pages + PageList(s.FirstPage(bias), s.EndPage(bias)), if first < base then first else base, if last > end then last else end)
  {
    PageBounds(s, bias);
    var first, end' := s.FirstPage(bias), s.EndPage(bias);
    var list := PageList(first, end');
    var all := pages + list;
    assert list[0] == first && list[|list| - 1] == end' - 1;
    assert first in all && end' - 1 in all;
    forall v | v in all ensures v in pages || first <= v < end' {
    }
    assert forall v :: v in pages ==> v in all;
  }

  predicate Placeable(s: Segment, bias: nat) {
    && s.address + bias <= U32_MAX && s.address + bias < USER_MAX && s.memorySize <= USER_MAX - (s.address + bias)
    && s.FirstPage(bias) * PAGE_SIZE >= USER_MIN && s.EndPage(bias) * PAGE_SIZE <= USER_MAX
    && !OverlapsStack(s.address + bias, s.memorySize)
  }

  ghost predicate Unmapped(vm: Vm, first: nat, end: nat) {
    forall v: nat :: first <= v < end && v < PAGES ==> Lookup(vm, vm.current, v).Absent?
  }

  /** Every page between two of them is one of them. */
  predicate Contiguous(pages: seq<nat>) {
    forall u, w, v :: u in pages && w in pages && u <= v <= w ==> v in pages
  }

  /** An aligned bias moves every page of an image by the same distance. */
  lemma {:induction false} LoadedPagesMove(segments: seq<Segment>, bias: nat)
    requires bias % PAGE_SIZE == 0
    ensures |LoadedPages(segments, bias)| == |LoadedPages(segments, 0)|
    ensures forall i :: 0 <= i < |LoadedPages(segments, 0)| ==> LoadedPages(segments, bias)[i] == LoadedPages(segments, 0)[i] + bias / PAGE_SIZE
  {
    if segments != [] {
      var s := segments[|segments| - 1];
      LoadedPagesMove(segments[..|segments| - 1], bias);
      if s.Loads() {
        PagesMove(s, bias);
      }
    }
  }

  /** A page-aligned bias moves the pages of a segment as a whole. */
  lemma PagesMove(s: Segment, bias: nat)
    requires bias % PAGE_SIZE == 0 && s.Loads()
    ensures s.FirstPage(bias) == s.FirstPage(0) + bias / PAGE_SIZE && s.EndPage(bias) == s.EndPage(0) + bias / PAGE_SIZE
    ensures s.FirstPage(0) < s.EndPage(0)
  {
  }

  /** So whether the pages are contiguous can be told before the base is chosen. */
  lemma ContiguousAnywhere(segments: seq<Segment>, bias: nat)
    requires bias % PAGE_SIZE == 0
    ensures Contiguous(LoadedPages(segments, bias)) <==> Contiguous(LoadedPages(segments, 0))
  {
    hide LoadedPages;
    LoadedPagesMove(segments, bias);
    MoveKeepsContiguous(LoadedPages(segments, 0), LoadedPages(segments, bias), bias / PAGE_SIZE);
  }

  lemma MoveKeepsContiguous(here: seq<nat>, there: seq<nat>, step: nat)
    requires |there| == |here| && forall i :: 0 <= i < |here| ==> there[i] == here[i] + step
    ensures Contiguous(here) <==> Contiguous(there)
  {
    if Contiguous(here) {
      forall u, v, w | u in there && w in there && u <= v <= w ensures v in there {
        MovedMember(here, there, step, u);
        MovedMember(here, there, step, w);
        MovedMember(here, there, step, v);
        assert u - step in here && w - step in here;
      }
    }
    if Contiguous(there) {
      forall u, v, w | u in here && w in here && u <= v <= w ensures v in here {
        MovedMember(here, there, step, u + step);
        MovedMember(here, there, step, w + step);
        MovedMember(here, there, step, v + step);
      }
    }
  }

  lemma MovedMember(here: seq<nat>, there: seq<nat>, step: nat, v: int)
    requires |there| == |here| && forall i :: 0 <= i < |here| ==> there[i] == here[i] + step
    ensures v in there <==> v - step in here
  {
    if v - step in here {
      var i :| 0 <= i < |here| && here[i] == v - step;
      assert there[i] == v;
    }
    if v in there {
      var i :| 0 <= i < |there| && there[i] == v;
      assert here[i] == v - step;
    }
  }

  /** The pages fill the span they bound exactly when they are contiguous. */
  lemma SpanFilled(pages: seq<nat>, base: nat, end: nat)
    requires pages != [] && Bounds(pages, base, end)
    ensures Contiguous(pages) <==> forall v :: base <= v * PAGE_SIZE < end ==> v in pages
  {
    var low, high := base / PAGE_SIZE, end / PAGE_SIZE;
    assert low in pages && high - 1 in pages;
    forall v ensures base <= v * PAGE_SIZE < end <==> low <= v < high {
    }
    if forall v :: base <= v * PAGE_SIZE < end ==> v in pages {
      forall u, v, w | u in pages && w in pages && u <= v <= w ensures v in pages {
        assert base <= v * PAGE_SIZE < end;
      }
    }
  }

  lemma Shifted(s: Segment, bias: nat, high: nat)
    requires s.Loads() && bias % PAGE_SIZE == 0 && DYN_BASE_MIN <= bias <= USER_MAX - high * PAGE_SIZE && s.EndPage(0) <= high
    ensures Placeable(s, bias)
  {
    PagesMove(s, bias);
  }

  lemma PageBounds(s: Segment, bias: nat)
    requires s.Loads() && Placeable(s, bias)
    ensures s.FirstPage(bias) < s.EndPage(bias) <= PAGES
    ensures s.FirstPage(bias) * PAGE_SIZE <= s.address + bias && s.address + bias + s.memorySize <= s.EndPage(bias) * PAGE_SIZE
  {
  }

  lemma PageOfAddress(s: Segment, bias: nat, a: nat)
    requires s.Loads() && s.address + bias <= a < s.EndPage(bias) * PAGE_SIZE
    ensures s.FirstPage(bias) <= a / PAGE_SIZE < s.EndPage(bias)
  {
  }

  lemma SameFrame(start: Vm, vm: Vm, v: nat)
    requires v < PAGES && vm.current == start.current && Lookup(vm, vm.current, v) == Lookup(start, start.current, v)
    ensures FrameAt(vm, v) == FrameAt(start, v)
  {
  }

  ghost predicate Filled(vm: Vm, ram: map<nat, seq<byte>>, image: Image, s: Segment, bias: nat) {
    forall a: nat :: s.FirstPage(bias) <= a / PAGE_SIZE < s.EndPage(bias) ==> ByteAt(vm, ram, a) == Expected(image, s, bias, a)
  }

  lemma FilledNow(vm: Vm, ram1: map<nat, seq<byte>>, ram2: map<nat, seq<byte>>, ram3: map<nat, seq<byte>>, image: Image, s: Segment, bias: nat)
    requires s.offset + s.fileSize <= |image|
    requires forall b: nat :: s.FirstPage(bias) <= b / PAGE_SIZE < s.EndPage(bias) ==> IsUserPage(vm, b / PAGE_SIZE) && ByteAt(vm, ram1, b) == 0
    requires forall b: nat :: IsUserPage(vm, b / PAGE_SIZE) ==>
               ByteAt(vm, ram2, b) == if s.address + bias <= b < s.address + bias + s.fileSize then image[s.offset + (b - s.address - bias)] else ByteAt(vm, ram1, b)
    requires forall b: nat :: IsUserPage(vm, b / PAGE_SIZE) ==>
               ByteAt(vm, ram3, b) == if s.address + bias + s.fileSize <= b < s.EndPage(bias) * PAGE_SIZE then 0 else ByteAt(vm, ram2, b)
    ensures Filled(vm, ram3, image, s, bias)
  {
    hide ByteAt, IsUserPage;
  }

  ghost predicate NoneOf(vm: Vm, first: nat, end: nat) {
    forall v :: first <= v < end ==> !IsUserPage(vm, v)
  }

  /** Writes confined to new pages leave the older ones as they were. */
  lemma KeptRam(vm0: Vm, ram0: map<nat, seq<byte>>, vm: Vm, ram1: map<nat, seq<byte>>, ram2: map<nat, seq<byte>>, first: nat, end: nat)
    requires Kept(vm0, ram0, vm, ram1) && NoneOf(vm0, first, end)
    requires forall b: nat :: IsUserPage(vm, b / PAGE_SIZE) && !(first <= b / PAGE_SIZE < end) ==> ByteAt(vm, ram2, b) == ByteAt(vm, ram1, b)
    ensures Kept(vm0, ram0, vm, ram2)
  {
    hide ByteAt, Lookup;
    forall b: nat | IsUserPage(vm0, b / PAGE_SIZE) ensures ByteAt(vm, ram2, b) == ByteAt(vm0, ram0, b) {
      assert IsUserPage(vm, b / PAGE_SIZE);
    }
  }

  /** Changing the protection of new pages leaves the older ones as they were. */
  lemma KeptVm(vm0: Vm, ram0: map<nat, seq<byte>>, vm1: Vm, vm2: Vm, ram: map<nat, seq<byte>>, first: nat, end: nat)
    requires Kept(vm0, ram0, vm1, ram) && NoneOf(vm0, first, end) && vm2.current == vm1.current
    requires forall v: nat :: v < PAGES && !(first <= v < end) ==> Lookup(vm2, vm2.current, v) == Lookup(vm1, vm1.current, v)
    ensures Kept(vm0, ram0, vm2, ram)
  {
    hide Lookup;
    forall v | IsUserPage(vm0, v) ensures IsUserPage(vm1, v) && Lookup(vm2, vm2.current, v) == Lookup(vm0, vm0.current, v) {
    }
  }

  lemma PlacedNow(vm1: Vm, vm2: Vm, ram: map<nat, seq<byte>>, image: Image, s: Segment, bias: nat)
    requires Filled(vm1, ram, image, s, bias) && vm2.current == vm1.current && s.EndPage(bias) <= PAGES
    requires forall v: nat :: s.FirstPage(bias) <= v < s.EndPage(bias) ==> Lookup(vm2, vm2.current, v) == Present(FrameAt(vm1, v), SegmentFlags(s))
    ensures Placed(vm2, ram, image, s, bias)
  {
    hide Lookup, Expected;
    forall a: nat | s.FirstPage(bias) <= a / PAGE_SIZE < s.EndPage(bias) ensures ByteAt(vm2, ram, a) == Expected(image, s, bias, a) {
      assert FrameAt(vm2, a / PAGE_SIZE) == FrameAt(vm1, a / PAGE_SIZE);
    }
  }
}
