/** A user process from the creation of its address space to its end. */
module ProcessLife {
  import opened Bytes
  import opened Frames
  import opened AddressSpace
  import opened SpaceRuns
  import opened PageSets
  import opened ElfImage
  import opened ElfLoader

  const STACK_STRIDE: nat := 0x10_0000
  const STACK_REGIONS: nat := 16

  /** A fresh space has only the kernel's tables. */
  lemma FreshSpace(vm: Vm)
    requires Inv(vm) && CreateSpace(vm).1.Some?
    ensures var (created, d) := CreateSpace(vm);
            var entered := created.(current := d.value);
            && Inv(entered) && entered.kernel == vm.kernel && d.value != vm.kernel && d.value != 0 && NoEmptyTables(entered)
            && SwitchSpace(created, d.value) == (entered, true)
            && (forall i :: 0 <= i < ENTRIES && Pde(entered, d.value, i).Present? ==> SharedAt(entered, d.value, i))
  {
    var (created, d) := CreateSpace(vm);
    CreateEffect(vm);
    CreateSlots(vm, d.value);
    assert IsDir(vm, vm.kernel) && IsDir(created, d.value) && StructureFrame(created, d.value);
    SwitchEffect(created, d.value);
    forall i | 0 <= i < ENTRIES && Pde(created, d.value, i).Present? ensures SharedAt(created, d.value, i) {
      assert Pde(created, vm.kernel, i) == Pde(vm, vm.kernel, i);
    }
  }

  /** A space whose every table is the kernel's gives back its directory and nothing else. */
  lemma DestroyBare(vm: Vm, d: nat)
    requires Inv(vm) && d in vm.spaces && d != 0 && vm.current == vm.kernel && d in vm.frames.used
    requires forall i :: 0 <= i < ENTRIES && Pde(vm, d, i).Present? ==> SharedAt(vm, d, i)
    ensures DestroySpace(vm, d) == (vm.(frames := vm.frames.(used := vm.frames.used - {d}), spaces := Unregister(vm.spaces, d)), true)
  {
    assert IsDir(vm, d) && StructureFrame(vm, d);
    assert DestroyAllowed(vm, d);
    assert TablesBelow(vm, d, END_USER_SLOT) == {};
    assert FramesBelow(vm, d, END_USER_SLOT * ENTRIES) == {};
    assert vm.frames.owned - {d} == vm.frames.owned;
    assert PrivateFrames(vm, d) + PrivateTables(vm, d) + {d} == {d};
    assert vm.frames.mapped - PrivateFrames(vm, d) == vm.frames.mapped;
  }

  lemma {:induction false} UnregisterLast(s: seq<nat>, d: nat)
    requires d !in s
    ensures Unregister(s + [d], d) == s
  {
    if s != [] {
      assert (s + [d])[1..] == s[1..] + [d];
      UnregisterLast(s[1..], d);
    }
  }

  /** After the image is gone, leaving and destroying the space restores the state before its creation. */
  lemma LeaveAndDestroy(vm: Vm, entered: Vm, done: Vm)
    requires Inv(vm) && vm.current == vm.kernel && CreateSpace(vm).1.Some?
    requires entered == CreateSpace(vm).0.(current := CreateSpace(vm).1.value) && Extends(entered, done, {})
    ensures var d := CreateSpace(vm).1.value;
            var back := done.(current := vm.kernel);
            && SwitchSpace(done, vm.kernel) == (back, true)
            && var (end, ok) := DestroySpace(back, d);
               ok && end.frames == vm.frames && end.spaces == vm.spaces && end.kernel == vm.kernel && end.current == vm.kernel && Inv(end) && SameLookups(vm, end)
  {
    hide Tree, Users, WriteXorExecute, AddedPages, Lookup, DestroySpace, DestroyAllowed;
    var d := CreateSpace(vm).1.value;
    FreshSpace(vm);
    NothingAdded(entered, done);
    CreateEffect(vm);
    KernelIsUsable(vm);
    SwitchEffect(done, vm.kernel);
    var back := done.(current := vm.kernel);
    forall i | 0 <= i < ENTRIES && Pde(back, d, i).Present? ensures SharedAt(back, d, i) {
      StillShared(entered, done, d, i);
    }
    NewDirectory(vm);
    DestroyBare(back, d);
    UnregisterLast(vm.spaces, d);
    DestroyEffect(back, d);
    var end := DestroySpace(back, d).0;
    assert vm.frames.used + {d} - {d} == vm.frames.used;
    LookupIgnoresCurrent(CreateSpace(vm).0, d);
    LookupIgnoresCurrent(done, vm.kernel);
    SameAgain(vm, entered, done, end, d);
  }

  lemma LookupIgnoresCurrent(vm: Vm, d: nat)
    ensures forall e, v {:trigger Lookup(vm.(current := d), e, v)} :: 0 <= e && 0 <= v < PAGES ==> Lookup(vm.(current := d), e, v) == Lookup(vm, e, v)
  {
  }

  lemma KernelIsUsable(vm: Vm)
    requires Inv(vm)
    ensures vm.kernel != 0
  {
    assert IsDir(vm, vm.kernel) && StructureFrame(vm, vm.kernel);
  }

  lemma NewDirectory(vm: Vm)
    requires Inv(vm) && CreateSpace(vm).1.Some?
    ensures var (created, d) := CreateSpace(vm);
            && d.value !in vm.frames.used && d.value !in vm.spaces && created.spaces == vm.spaces + [d.value]
            && created.frames == vm.frames.(used := vm.frames.used + {d.value})
  {
    ValidFrames(vm);
    AllocBelowValid(vm.frames, LOW_IDENTITY_LIMIT);
    var d := CreateSpace(vm).1.value;
    assert d in vm.spaces ==> IsDir(vm, d);
    assert vm.frames.owned - {d} == vm.frames.owned;
  }

  lemma StillShared(entered: Vm, done: Vm, d: nat, i: nat)
    requires Extends(entered, done, {}) && i < ENTRIES && entered.current == d && Pde(done, d, i).Present?
    requires forall k :: 0 <= k < ENTRIES && Pde(entered, d, k).Present? ==> SharedAt(entered, d, k)
    ensures SharedAt(done, d, i)
  {
    NothingAdded(entered, done);
    assert IsDir(entered, entered.kernel);
    assert Pde(done, entered.kernel, i) == Pde(entered, entered.kernel, i);
    assert SamePointer(Pde(entered, d, i), Pde(done, d, i));
  }

  lemma SameAgain(vm: Vm, entered: Vm, done: Vm, end: Vm, d: nat)
    requires end.spaces == vm.spaces && end.kernel == vm.kernel == entered.kernel && entered.spaces == vm.spaces + [d]
    requires SameLookups(entered, done) && forall e, v :: IsDir(vm, e) && 0 <= v < PAGES ==> Lookup(entered, e, v) == Lookup(vm, e, v)
    requires forall e, v :: IsDir(end, e) && 0 <= v < PAGES ==> Lookup(end, e, v) == Lookup(done, e, v)
    ensures SameLookups(vm, end)
  {
    hide Lookup;
    forall e, v | IsDir(vm, e) && 0 <= v < PAGES ensures Lookup(end, e, v) == Lookup(vm, e, v) {
      assert IsDir(end, e) && IsDir(entered, e);
    }
  }

  datatype Outcome = NoSpace | NoStack | LoadFailed | Finished | UnloadRefused

  /** The kernel itself maps nothing where images are loaded. */
  ghost predicate KernelStaysOut(vm: Vm) {
    forall v: nat :: USER_MIN <= v * PAGE_SIZE < USER_MAX ==> Lookup(vm, vm.kernel, v).Absent?
  }

  /** A fresh space, entered. */
  function Entered(vm: Vm): Vm
    requires CreateSpace(vm).1.Some?
  {
    CreateSpace(vm).0.(current := CreateSpace(vm).1.value)
  }

  /** A stack region begins with a guard page that stays unmapped; the stack is the page after it. */
  function GuardPage(region: nat): nat {
    (STACK_BASE + region * STACK_STRIDE) / PAGE_SIZE
  }

  function StackPage(region: nat): nat {
    GuardPage(region) + 1
  }

  /** A fresh space with a stack. */
  function WithStack(vm: Vm, region: nat): Vm
    requires CreateSpace(vm).1.Some? && region < STACK_REGIONS
  {
    AddPage(Entered(vm), StackPage(region)).0
  }

  /** The stack is all there is in the user range of a fresh space with a stack. */
  lemma StackEffect(vm: Vm, region: nat)
    requires Inv(vm) && KernelStaysOut(vm) && CreateSpace(vm).1.Some? && region < STACK_REGIONS
    ensures var entered, page := Entered(vm), StackPage(region);
            var (stacked, ok) := AddPage(entered, page);
            && (ok <==> !NoRoom(entered, page)) && Extends(entered, stacked, if ok then {page} else {}) && NoEmptyTables(stacked)
            && stacked.current == entered.current != stacked.kernel == vm.kernel && (ok ==> IsUserPage(stacked, page))
            && (forall v :: USER_MIN <= v * PAGE_SIZE < USER_MAX ==> v < PAGES ==>
                  (Lookup(stacked, stacked.current, v).Present? <==> ok && v == page))
  {
    hide Inv, Lookup, CreateSpace, KernelStaysOut, AddPage, NoRoom, NoEmptyTables, AddedTables, AddedFrames, NoneLost;
    var entered, page := Entered(vm), StackPage(region);
    FreshSpace(vm);
    EmptySpan(vm);
    ValidFrames(entered);
    ExtendsNothing(entered);
    AddPageEffect(entered, entered, {}, page);
    AddPageSucceeds(entered, page);
    assert {} + {page} == {page};
    var (stacked, ok) := AddPage(entered, page);
    AddedNoEmpty(entered, stacked, if ok then {page} else {});
  }

  /**
   * A process from spawn to the end: create a space, map a stack, load, unload, unmap the stack, destroy. Whatever
   * the image and whatever fails, every frame and every translation is back at the end, unless the image loads and
   * its pages leave a gap, which the image alone decides. Then the unload refuses and the kernel stops, with the
   * space, its stack and all the loaded pages still there and nothing else changed.
   */
  method WholeLife(loader: Loader, image: Image, candidate: u32, region: nat) returns (outcome: Outcome, ghost pages: seq<nat>)
    requires Inv(loader.vm) && loader.vm.current == loader.vm.kernel && KernelStaysOut(loader.vm) && region < STACK_REGIONS
    modifies loader
    ensures outcome.NoSpace? <==> CreateSpace(old(loader.vm)).1.None?
    ensures outcome.NoStack? <==> CreateSpace(old(loader.vm)).1.Some? && NoRoom(Entered(old(loader.vm)), StackPage(region))
    ensures outcome != UnloadRefused ==>
              loader.vm.frames == old(loader.vm).frames && loader.vm.spaces == old(loader.vm).spaces && SameLookups(old(loader.vm), loader.vm)
    ensures outcome.LoadFailed? ==> Refused(WithStack(old(loader.vm), region), image, candidate, pages)
    ensures outcome.Finished? || outcome.UnloadRefused? ==>
              && ValidImage(image) && pages == LoadedPages(Segments(image), Bias(image, candidate))
              && (ImageType(image) == ET_DYN ==> Suits(WithStack(old(loader.vm), region), Segments(image), candidate))
              && (outcome.UnloadRefused? <==> !Contiguous(LoadedPages(Segments(image), 0)))
    ensures outcome.UnloadRefused? ==> Extends(WithStack(old(loader.vm), region), loader.vm, AsSet(pages))
  {
    hide Inv, Lookup, DestroySpace, SwitchSpace, CreateSpace, ValidImage, NoEmptyTables, AddedPages, AddedTables,
         AddedFrames, LoadedPages, KernelStaysOut, Refused, Suits, Contiguous, NoneLost, Bias, AddPage, RemovePage, NoRoom;
    ghost var vm := loader.vm;
    pages := [];
    CreateEffect(vm);
    var (created, d) := CreateSpace(loader.vm);
    if d.None? {
      return NoSpace, pages;
    }
    FreshSpace(vm);
    StackEffect(vm, region);
    loader.vm := SwitchSpace(created, d.value).0;
    ghost var entered := loader.vm;
    assert entered == Entered(vm);
    var page := StackPage(region);
    var (stacked, added) := AddPage(loader.vm, page);
    loader.vm := stacked;
    if !added {
      outcome := NoStack;
    } else {
      loader.ZeroRange(page * PAGE_SIZE, (page + 1) * PAGE_SIZE);
      outcome, pages := RunImage(loader, image, candidate, region, vm);
      if outcome.UnloadRefused? {
        return;
      }
      BackExtends(entered, stacked, loader.vm, {page});
      RemovePageEffect(entered, loader.vm, {page}, page);
      assert {page} - {page} == {};
      loader.vm := RemovePage(loader.vm, page).0;
      LeavesAll(entered, loader.vm, {});
    }
    LeaveAndDestroy(vm, entered, loader.vm);
    loader.vm := SwitchSpace(loader.vm, loader.vm.kernel).0;
    loader.vm := DestroySpace(loader.vm, d.value).0;
  }

  /** Loads and unloads; the check that the image left the guard page alone never fires. */
  method RunImage(loader: Loader, image: Image, candidate: u32, region: nat, ghost vm: Vm) returns (outcome: Outcome, ghost pages: seq<nat>)
    requires Inv(vm) && KernelStaysOut(vm) && CreateSpace(vm).1.Some? && region < STACK_REGIONS
    requires loader.vm == WithStack(vm, region) && AddPage(Entered(vm), StackPage(region)).1
    modifies loader
    ensures outcome.LoadFailed? || outcome.Finished? || outcome.UnloadRefused?
    ensures outcome.LoadFailed? ==> Refused(old(loader.vm), image, candidate, pages)
    ensures !outcome.UnloadRefused? ==> Extends(old(loader.vm), loader.vm, {})
    ensures !outcome.LoadFailed? ==>
              && ValidImage(image) && pages == LoadedPages(Segments(image), Bias(image, candidate))
              && (ImageType(image) == ET_DYN ==> Suits(old(loader.vm), Segments(image), candidate))
              && (outcome.UnloadRefused? <==> !Contiguous(LoadedPages(Segments(image), 0)))
    ensures outcome.UnloadRefused? ==> Extends(old(loader.vm), loader.vm, AsSet(pages))
  {
    hide Inv, Lookup, CreateSpace, ValidImage, Placed, NoEmptyTables, AddedPages, AddedTables, AddedFrames, Kept,
         LoadedPages, KernelStaysOut, InUserRange, Refused, Suits, Contiguous, Bounds, Emptied, EmptySlot, NoneLost, Bias,
         AddPage, NoRoom, WithStack;
    ghost var stacked := loader.vm;
    StackIs(vm, region);
    var ok, entry, base, end, loaded := loader.Load(image, candidate);
    pages := loaded;
    if !ok {
      LeavesAll(stacked, loader.vm, {});
      return LoadFailed, pages;
    }
    LoadedSpan(vm, region, image, candidate, loaded, base, end, loader.vm);
    assert Lookup(loader.vm, loader.vm.current, GuardPage(region)).Absent?;
    ok := loader.Unload(base, end, stacked, AsSet(loaded));
    if !ok {
      return UnloadRefused, pages;
    }
    LeavesAll(stacked, loader.vm, {});
    return Finished, pages;
  }

  lemma StackIs(vm: Vm, region: nat)
    requires Inv(vm) && KernelStaysOut(vm) && CreateSpace(vm).1.Some? && region < STACK_REGIONS
    ensures var stacked := WithStack(vm, region); Inv(stacked) && stacked.current != stacked.kernel && NoEmptyTables(stacked)
  {
    hide Inv, NoEmptyTables, AddPage, Lookup, CreateSpace, KernelStaysOut;
    StackEffect(vm, region);
  }

  /**
   * A loaded image keeps clear of the guard page and bounds a span of user pages, which it fills unless it has a
   * gap. The span takes in the stack only along with the guard page.
   */
  lemma LoadedSpan(vm: Vm, region: nat, image: Image, candidate: u32, pages: seq<nat>, base: nat, end: nat, after: Vm)
    requires Inv(vm) && KernelStaysOut(vm) && CreateSpace(vm).1.Some? && region < STACK_REGIONS && AddPage(Entered(vm), StackPage(region)).1
    requires ValidImage(image) && pages == LoadedPages(Segments(image), Bias(image, candidate)) && Bounds(pages, base, end) && InUserRange(pages)
    requires ImageType(image) == ET_DYN ==> Suits(WithStack(vm, region), Segments(image), candidate)
    requires Extends(WithStack(vm, region), after, AsSet(pages))
    ensures SpanOk(base, end) && Outside(AsSet(pages), base, end) == {} && Lookup(after, after.current, GuardPage(region)).Absent?
    ensures var stacked := WithStack(vm, region);
            || (forall v :: base <= v * PAGE_SIZE < end ==> v < PAGES ==> Lookup(stacked, stacked.current, v).Absent?)
            || (exists v :: base <= v * PAGE_SIZE < end && v < PAGES && Lookup(after, after.current, v).Absent?)
    ensures (forall v :: base <= v * PAGE_SIZE < end ==> v in AsSet(pages)) <==> Contiguous(LoadedPages(Segments(image), 0))
  {
    hide Inv, Lookup, CreateSpace, ValidSegments, HeaderOk, KernelStaysOut, LoadedPages, Contiguous, Unmapped,
         LowPage, HighPage, AddPage, NoRoom, NoEmptyTables, AddedTables, AddedFrames, NoneLost;
    NonemptyImage(image, Bias(image, candidate));
    SpanIsOk(pages, base, end);
    AllInside(pages, base, end);
    SpanFilled(pages, base, end);
    ContiguousAnywhere(Segments(image), Bias(image, candidate));
    StackEffect(vm, region);
    var stacked := WithStack(vm, region);
    ValidFrames(stacked);
    var guard := GuardPage(region);
    assert guard !in pages && Lookup(stacked, stacked.current, guard).Absent?;
    assert Lookup(after, after.current, guard) == Lookup(stacked, stacked.current, guard);
    GuardInSpan(pages, base, end, region);
  }

  /** A span around pages clear of the stacks takes in a stack page only along with the guard page before it. */
  lemma GuardInSpan(pages: seq<nat>, base: nat, end: nat, region: nat)
    requires pages != [] && Bounds(pages, base, end) && InUserRange(pages) && region < STACK_REGIONS
    ensures base <= StackPage(region) * PAGE_SIZE < end ==> base <= GuardPage(region) * PAGE_SIZE < end
  {
    assert base / PAGE_SIZE in pages;
  }

  lemma {:induction false} LoadedNonempty(segments: seq<Segment>, bias: nat, i: nat)
    requires i < |segments| && segments[i].Loads()
    ensures LoadedPages(segments, bias) != []
  {
    var last := |segments| - 1;
    if i < last {
      assert segments[..last][i] == segments[i];
      LoadedNonempty(segments[..last], bias, i);
    } else {
      var s := segments[last];
      assert s.FirstPage(bias) < s.EndPage(bias);
    }
  }

  lemma NonemptyImage(image: Image, bias: nat)
    requires ValidImage(image)
    ensures LoadedPages(Segments(image), bias) != []
  {
    var i :| 0 <= i < |Segments(image)| && HasEntry(Segments(image)[i], EntryPoint(image));
    LoadedNonempty(Segments(image), bias, i);
  }

  lemma EmptySpan(vm: Vm)
    requires Inv(vm) && KernelStaysOut(vm) && CreateSpace(vm).1.Some?
    ensures forall v :: USER_MIN <= v * PAGE_SIZE < USER_MAX ==> v < PAGES ==> Lookup(Entered(vm), Entered(vm).current, v).Absent?
  {
    hide Lookup, Inv;
    CreateEffect(vm);
    LookupIgnoresCurrent(CreateSpace(vm).0, CreateSpace(vm).1.value);
  }

  lemma SpanIsOk(pages: seq<nat>, base: nat, end: nat)
    requires pages != [] && Bounds(pages, base, end) && InUserRange(pages)
    ensures SpanOk(base, end)
  {
    assert base / PAGE_SIZE in pages && end / PAGE_SIZE - 1 in pages;
  }

  lemma AllInside(pages: seq<nat>, base: nat, end: nat)
    requires Bounds(pages, base, end)
    ensures forall v :: v in pages ==> base <= v * PAGE_SIZE < end
  {
  }
}
