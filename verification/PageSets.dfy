/**
 * Adding and removing whole user pages in the current address space, with the frames and tables they cost.
 * The relations below say that a state differs from an earlier one by exactly a set of user pages, up to tables
 * that were empty before and are gone, so that the empty set means that every translation is back where it was.
 */
module PageSets {
  import opened Arithmetic
  import opened Bytes
  import opened Frames
  import opened AddressSpace

  const USER_DATA: Flags := Flags(true, true, false, false)

  /** The frames that the pages of P hold. */
  ghost function FramesOf(vm: Vm, P: set<nat>): set<nat> {
    set v | v in P :: FrameAt(vm, v)
  }

  function FrameAt(vm: Vm, v: nat): nat {
    if IsUserPage(vm, v) then Lookup(vm, vm.current, v).frame else 0
  }

  /** A directory slot that the earlier state did not use. */
  ghost predicate NewSlot(vm0: Vm, vm: Vm, i: nat)
    requires i < ENTRIES
  {
    Pde(vm0, vm0.current, i).Absent? && Pde(vm, vm.current, i).Present?
  }

  ghost function NewTables(vm0: Vm, vm: Vm): set<nat> {
    set i | 0 <= i < ENTRIES && NewSlot(vm0, vm, i) :: Pde(vm, vm.current, i).frame
  }

  /** A directory slot of the earlier state whose table is gone. */
  ghost predicate LostSlot(vm0: Vm, vm: Vm, i: nat)
    requires i < ENTRIES
  {
    Pde(vm0, vm0.current, i).Present? && Pde(vm, vm.current, i).Absent?
  }

  ghost function LostTables(vm0: Vm, vm: Vm): set<nat> {
    set i | 0 <= i < ENTRIES && LostSlot(vm0, vm, i) :: Pde(vm0, vm0.current, i).frame
  }

  ghost predicate NoneLost(vm0: Vm, vm: Vm) {
    forall i :: 0 <= i < ENTRIES ==> !LostSlot(vm0, vm, i)
  }

  /** The slot holds a table of the space's own without a page in it. */
  ghost predicate EmptySlot(vm: Vm, i: nat)
    requires i < ENTRIES
  {
    var pde := Pde(vm, vm.current, i);
    pde.Present? && !SharedAt(vm, vm.current, i) && IsEmptyTable(At(vm, pde.frame))
  }

  /** Some page of P goes through slot i. */
  ghost predicate UsesSlot(P: set<nat>, i: nat) {
    exists v :: v in P && v / ENTRIES == i
  }

  predicate IsUserPage(vm: Vm, v: nat) {
    v < PAGES && Lookup(vm, vm.current, v).Present? && Lookup(vm, vm.current, v).flags.user
  }

  ghost predicate SameWorld(vm0: Vm, vm: Vm) {
    && Inv(vm0) && Inv(vm) && vm.kernel == vm0.kernel && vm.current == vm0.current && vm.spaces == vm0.spaces
    && vm0.current != vm0.kernel
  }

  /** Translations: those of vm0, and user pages exactly at P where vm0 had nothing. */
  ghost predicate AddedPages(vm0: Vm, vm: Vm, P: set<nat>) {
    && (forall v :: v in P ==> IsUserPage(vm, v) && Lookup(vm0, vm0.current, v).Absent?)
    && (forall d, v :: IsDir(vm0, d) && 0 <= v < PAGES && (d != vm0.current || v !in P) ==> Lookup(vm, d, v) == Lookup(vm0, d, v))
  }

  /** Tables: those of vm0 except some that were empty, and new ones only where P needs them. */
  ghost predicate AddedTables(vm0: Vm, vm: Vm, P: set<nat>) {
    && (forall d, i :: IsDir(vm0, d) && d != vm0.current && 0 <= i < ENTRIES ==> Pde(vm, d, i) == Pde(vm0, d, i))
    && (forall i :: 0 <= i < ENTRIES && Pde(vm0, vm0.current, i).Present? ==>
          (LostSlot(vm0, vm, i) && EmptySlot(vm0, i)) || SamePointer(Pde(vm0, vm0.current, i), Pde(vm, vm.current, i)))
    && (forall i :: 0 <= i < ENTRIES && NewSlot(vm0, vm, i) ==> UsesSlot(P, i))
  }

  /** Frames: those of vm0, one for each page of P and one for each new table, less the tables that are gone. */
  ghost predicate AddedFrames(vm0: Vm, vm: Vm, P: set<nat>) {
    && vm.frames.usable == vm0.frames.usable && vm.frames.detected == vm0.frames.detected
    && vm.frames.used == vm0.frames.used + FramesOf(vm, P) + NewTables(vm0, vm) - LostTables(vm0, vm)
    && vm.frames.owned == vm0.frames.owned + FramesOf(vm, P)
    && vm.frames.mapped == vm0.frames.mapped + FramesOf(vm, P)
    && FramesOf(vm, P) !! vm0.frames.used && NewTables(vm0, vm) !! vm0.frames.used
  }

  /** What remains of vm0 with the pages of P added, after others were added and removed. */
  ghost predicate Leaves(vm0: Vm, vm: Vm, P: set<nat>) {
    SameWorld(vm0, vm) && AddedPages(vm0, vm, P) && AddedTables(vm0, vm, P) && AddedFrames(vm0, vm, P)
  }

  /** What vm0 becomes by adding the pages of P. */
  ghost predicate Extends(vm0: Vm, vm: Vm, P: set<nat>) {
    Leaves(vm0, vm, P) && NoneLost(vm0, vm)
  }

  /** The tables that are gone are the empty ones that only pages of A, and none still in P, went through. */
  ghost predicate Emptied(vm0: Vm, vm: Vm, A: set<nat>, P: set<nat>) {
    forall i :: 0 <= i < ENTRIES ==> (LostSlot(vm0, vm, i) <==> EmptySlot(vm0, i) && UsesSlot(A, i) && !UsesSlot(P, i))
  }

  lemma ExtendsNothing(vm: Vm)
    requires Inv(vm) && vm.current != vm.kernel
    ensures Extends(vm, vm, {})
  {
    assert FramesOf(vm, {}) == {};
    assert NewTables(vm, vm) == {};
    assert LostTables(vm, vm) == {};
  }

  /** With no page left over, every translation is back, and every frame exactly when no table is gone. */
  lemma NothingAdded(vm0: Vm, vm: Vm)
    requires Leaves(vm0, vm, {})
    ensures SameLookups(vm0, vm) && vm.frames == vm0.frames.(used := vm0.frames.used - LostTables(vm0, vm))
    ensures vm.frames == vm0.frames <==> NoneLost(vm0, vm)
    ensures NoneLost(vm0, vm) ==> forall i :: 0 <= i < ENTRIES ==> SamePointer(Pde(vm0, vm0.current, i), Pde(vm, vm.current, i))
  {
    hide Users, WriteXorExecute, Tree, Lookup, IsEmptyTable;
    assert FramesOf(vm, {}) == {};
    assert NewTables(vm0, vm) == {};
    assert IsDir(vm0, vm0.current);
    if NoneLost(vm0, vm) {
      assert LostTables(vm0, vm) == {};
      forall i | 0 <= i < ENTRIES ensures SamePointer(Pde(vm0, vm0.current, i), Pde(vm, vm.current, i)) {
        assert !LostSlot(vm0, vm, i) && !UsesSlot({}, i);
        assert !NewSlot(vm0, vm, i);
      }
    } else {
      var i :| 0 <= i < ENTRIES && LostSlot(vm0, vm, i);
      OwnTableIsUsed(vm0, i);
      assert Pde(vm0, vm0.current, i).frame in LostTables(vm0, vm);
    }
  }

  lemma OwnTableIsUsed(vm: Vm, i: nat)
    requires Inv(vm) && i < ENTRIES && Pde(vm, vm.current, i).Present?
    ensures Pde(vm, vm.current, i).frame in vm.frames.used
  {
    hide Users, WriteXorExecute;
    assert IsDir(vm, vm.current);
  }

  /** No slot of the current directory holds a table of its own without a page in it. */
  ghost predicate NoEmptyTables(vm: Vm) {
    forall i :: 0 <= i < ENTRIES ==> !EmptySlot(vm, i)
  }

  /** Where no table was empty, none is lost. */
  lemma LeavesAll(vm0: Vm, vm: Vm, P: set<nat>)
    requires Leaves(vm0, vm, P) && NoEmptyTables(vm0)
    ensures Extends(vm0, vm, P)
  {
  }

  /** What comes back to a state extends whatever that state extends. */
  lemma BackExtends(vm0: Vm, vm1: Vm, vm2: Vm, P: set<nat>)
    requires Extends(vm0, vm1, P) && Extends(vm1, vm2, {})
    ensures Extends(vm0, vm2, P)
  {
    hide Inv, Lookup, EmptySlot, NewSlot, LostSlot, UsesSlot;
    NothingAdded(vm1, vm2);
    ValidFrames(vm1);
    ValidFrames(vm0);
    assert forall d :: IsDir(vm0, d) ==> IsDir(vm1, d);
    forall v | v in P ensures IsUserPage(vm2, v) && FrameAt(vm2, v) == FrameAt(vm1, v) {
      assert IsUserPage(vm1, v) && Lookup(vm2, vm1.current, v) == Lookup(vm1, vm1.current, v);
    }
    assert FramesOf(vm2, P) == FramesOf(vm1, P);
    SameTables(vm0, vm1, vm2);
    BackTables(vm0, vm1, vm2, P);
  }

  lemma BackTables(vm0: Vm, vm1: Vm, vm2: Vm, P: set<nat>)
    requires AddedTables(vm0, vm1, P) && NoneLost(vm0, vm1) && vm1.current == vm0.current && vm2.current == vm1.current
    requires forall d :: IsDir(vm0, d) ==> IsDir(vm1, d)
    requires forall d, i :: IsDir(vm1, d) && d != vm1.current && 0 <= i < ENTRIES ==> Pde(vm2, d, i) == Pde(vm1, d, i)
    requires forall i :: 0 <= i < ENTRIES ==> SamePointer(Pde(vm1, vm1.current, i), Pde(vm2, vm2.current, i))
    ensures AddedTables(vm0, vm2, P) && NoneLost(vm0, vm2)
  {
    hide EmptySlot, UsesSlot;
    forall i | 0 <= i < ENTRIES
      ensures !LostSlot(vm0, vm2, i) && (Pde(vm0, vm0.current, i).Present? ==> SamePointer(Pde(vm0, vm0.current, i), Pde(vm2, vm2.current, i)))
      ensures NewSlot(vm0, vm2, i) == NewSlot(vm0, vm1, i)
    {
      assert !LostSlot(vm0, vm1, i) && SamePointer(Pde(vm1, vm1.current, i), Pde(vm2, vm2.current, i));
    }
  }

  /** Adding pages leaves no table empty that was not. */
  lemma AddedNoEmpty(vm0: Vm, vm: Vm, P: set<nat>)
    requires Extends(vm0, vm, P) && NoEmptyTables(vm0)
    ensures NoEmptyTables(vm)
  {
    hide Inv, Lookup, EmptySlot, AddedFrames;
    forall i | 0 <= i < ENTRIES ensures !EmptySlot(vm, i) {
      SlotNotEmpty(vm0, vm, P, i);
    }
  }

  lemma SlotNotEmpty(vm0: Vm, vm: Vm, P: set<nat>, i: nat)
    requires Extends(vm0, vm, P) && i < ENTRIES && !EmptySlot(vm0, i)
    ensures !EmptySlot(vm, i)
  {
    hide Inv, Lookup, IsEmptyTable, AddedFrames;
    if Pde(vm, vm.current, i).Present? && !SharedAt(vm, vm.current, i) {
      ValidFrames(vm0);
      EmptyIff(vm, i);
      assert !LostSlot(vm0, vm, i);
      if Pde(vm0, vm0.current, i).Present? {
        OwnTable(vm0, vm, P, i);
        EmptyIff(vm0, i);
        var w :| 0 <= w < PAGES && w / ENTRIES == i && Lookup(vm0, vm0.current, w).Present?;
        assert w !in P && Lookup(vm, vm.current, w) == Lookup(vm0, vm0.current, w);
      } else {
        assert NewSlot(vm0, vm, i);
        var w :| w in P && w / ENTRIES == i;
        assert IsUserPage(vm, w);
      }
    }
  }

  // ---------- Adding a page ----------

  /** Allocate a user frame and map it at page v; on failure give the frame back. */
  function AddPage(vm: Vm, v: nat): (Vm, bool)
    requires v < PAGES
  {
    match AllocUser(vm.frames)
    case (_, None) => (vm, false)
    case (frames, Some(f)) =>
      var (after, ok) := MapPage(vm.(frames := frames), v * PAGE_SIZE, f * PAGE_SIZE, USER_DATA, false);
      if ok then (after, true) else (after.(frames := Free(after.frames, f)), false)
  }

  lemma AllocKeepsInv(vm: Vm)
    requires Inv(vm)
    ensures Inv(vm.(frames := AllocUser(vm.frames).0)) && SameLookups(vm, vm.(frames := AllocUser(vm.frames).0))
    ensures Valid(vm.frames) && AllocUser(vm.frames).1.Some? ==> AllocUser(vm.frames).1.value < USER_MAX_BLOCKS
  {
    var frames := AllocUser(vm.frames).0;
    AllocUserValid(vm.frames);
    InUseIsStructure(vm);
    FramesChanged(vm, frames);
    UsersKept(vm, vm.(frames := frames));
  }

  /** What a mapping of a fresh frame does to the bitmaps and the slot. */
  lemma MapFresh(vm: Vm, v: nat, f: nat)
    requires Inv(vm) && v < PAGES && f < PAGES && UserOwned(vm.frames, f) && f !in vm.frames.mapped && Lookup(vm, vm.current, v).Absent?
    ensures var (after, ok) := MapPage(vm, v * PAGE_SIZE, f * PAGE_SIZE, USER_DATA, false);
            var i := v / ENTRIES;
            && (!ok ==> after == vm)
            && (ok ==> && vm.current != vm.kernel && SlotOnly(vm, after, i) && Pde(after, vm.current, i).Present?
                       && after.kernel == vm.kernel && after.current == vm.current && after.spaces == vm.spaces
                       && (Pde(vm, vm.current, i).Present? ==>
                             SamePointer(Pde(vm, vm.current, i), Pde(after, vm.current, i)) && after.frames == vm.frames.(mapped := vm.frames.mapped + {f}))
                       && (Pde(vm, vm.current, i).Absent? ==>
                             var t := Pde(after, vm.current, i).frame;
                             t !in vm.frames.used && after.frames == vm.frames.(used := vm.frames.used + {t}, mapped := vm.frames.mapped + {f})))
  {
    hide Tree, Users, WriteXorExecute, EnsureTable, IsEmptyTable;
    var va, pa := v * PAGE_SIZE, f * PAGE_SIZE;
    if MapAllowed(vm, va, pa, USER_DATA, false) {
      var (ensured, t) := EnsureTable(vm, v / ENTRIES, true);
      EnsureEffect(vm, v / ENTRIES, true);
      if t.Some? {
        assert IsDir(vm, vm.current);
        assert Lookup(ensured, vm.current, v) == Lookup(vm, vm.current, v);
        var claimed := ensured.(frames := Claim(ensured.frames, f).0);
        assert !IsDir(vm, t.value) by {
          TableIsNoDir(ensured, v / ENTRIES);
        }
      }
    }
  }

  lemma TableIsNoDir(vm: Vm, i: nat)
    requires Structure(vm) && i < ENTRIES && Pde(vm, vm.current, i).Present?
    ensures !IsDir(vm, Pde(vm, vm.current, i).frame)
  {
    assert IsDir(vm, vm.current);
  }

  lemma FramesOfMore(vm: Vm, after: Vm, P: set<nat>, v: nat)
    requires forall w :: w in P ==> FrameAt(after, w) == FrameAt(vm, w)
    ensures FramesOf(after, P + {v}) == FramesOf(vm, P) + {FrameAt(after, v)}
  {
    forall g | g in FramesOf(vm, P) ensures g in FramesOf(after, P + {v}) {
      var w :| w in P && FrameAt(vm, w) == g;
      assert w in P + {v} && FrameAt(after, w) == g;
    }
    assert v in P + {v};
  }

  lemma NewTablesMore(vm0: Vm, vm: Vm, after: Vm, i: nat)
    requires i < ENTRIES && after.current == vm.current && Pde(after, vm.current, i).Present?
    requires forall k :: 0 <= k < ENTRIES && k != i ==> Pde(after, vm.current, k) == Pde(vm, vm.current, k)
    requires Pde(vm, vm.current, i).Present? ==> SamePointer(Pde(vm, vm.current, i), Pde(after, vm.current, i))
    requires Pde(vm, vm.current, i).Absent? ==> Pde(vm0, vm0.current, i).Absent?
    ensures NewTables(vm0, after) == NewTables(vm0, vm) + if Pde(vm, vm.current, i).Absent? then {Pde(after, vm.current, i).frame} else {}
  {
    forall t | t in NewTables(vm0, vm) ensures t in NewTables(vm0, after) {
      var k :| 0 <= k < ENTRIES && NewSlot(vm0, vm, k) && Pde(vm, vm.current, k).frame == t;
      assert NewSlot(vm0, after, k);
    }
    forall t | t in NewTables(vm0, after) && !(Pde(vm, vm.current, i).Absent? && t == Pde(after, vm.current, i).frame) ensures t in NewTables(vm0, vm) {
      var k :| 0 <= k < ENTRIES && NewSlot(vm0, after, k) && Pde(after, vm.current, k).frame == t;
      assert NewSlot(vm0, vm, k);
    }
    if Pde(vm, vm.current, i).Absent? {
      assert NewSlot(vm0, after, i);
    }
  }

  /** Adding a page adds exactly that page with a fresh frame, or changes nothing at all. */
  lemma AddPageEffect(vm0: Vm, vm: Vm, P: set<nat>, v: nat)
    requires Extends(vm0, vm, P) && v < PAGES && v !in P && Lookup(vm, vm.current, v).Absent?
    ensures var (after, ok) := AddPage(vm, v);
            && (!ok ==> after == vm)
            && (ok ==> && Extends(vm0, after, P + {v}) && Lookup(after, vm.current, v).flags == USER_DATA
                       && OnlyPage(vm, after, v, Lookup(after, vm.current, v)))
  {
    hide Tree, Users, WriteXorExecute, Registry, EnsureTable, MapPage, Lookup;
    AllocKeepsInv(vm);
    ValidFrames(vm);
    AllocUserValid(vm.frames);
    AllocThenFree(vm.frames, 0);
    var (frames, r) := AllocUser(vm.frames);
    if r.Some? {
      var f := r.value;
      var taken := vm.(frames := frames);
      LookupIgnoresFrames(vm, frames);
      var (after, ok) := MapPage(taken, v * PAGE_SIZE, f * PAGE_SIZE, USER_DATA, false);
      MapFresh(taken, v, f);
      MapEffect(taken, v * PAGE_SIZE, f * PAGE_SIZE, USER_DATA, false);
      if ok {
        assert v * PAGE_SIZE / PAGE_SIZE == v && f * PAGE_SIZE / PAGE_SIZE == f;
        AddedOne(vm0, vm, taken, after, P, v, f);
      }
    }
  }

  /**
   * Page v cannot have a frame: it lies outside the user range, no user frame is free, its slot holds the kernel's
   * table or a supervisor page, or its slot holds no table and no frame is free for one.
   */
  ghost predicate NoRoom(vm: Vm, v: nat)
    requires v < PAGES
  {
    var pde := Pde(vm, vm.current, v / ENTRIES);
    var (taken, f) := AllocUser(vm.frames);
    || !(USER_MIN_ADDRESS <= v * PAGE_SIZE < USER_ADDRESS_LIMIT)
    || (forall b :: USER_MIN_BLOCK <= b < Min(vm.frames.detected, USER_MAX_BLOCKS) ==> !Available(vm.frames, b, true))
    || SharedAt(vm, vm.current, v / ENTRIES) || (pde.Present? && !AllowsUser(At(vm, pde.frame)))
    || (pde.Absent? && forall b :: LOW_MEMORY_BLOCKS <= b < Min(LOW_IDENTITY_LIMIT / BLOCK_SIZE, taken.detected) ==> !Available(taken, b, false))
  }

  /** An absent page is added exactly when there is room for it. */
  lemma AddPageSucceeds(vm: Vm, v: nat)
    requires Inv(vm) && vm.current != vm.kernel && v < PAGES && Lookup(vm, vm.current, v).Absent?
    ensures AddPage(vm, v).1 <==> !NoRoom(vm, v)
  {
    hide Tree, Users, WriteXorExecute;
    AllocKeepsInv(vm);
    ValidFrames(vm);
    AllocUserValid(vm.frames);
    var (taken, r) := AllocUser(vm.frames);
    if r.Some? {
      var held := vm.(frames := taken);
      EnsureEffect(held, v / ENTRIES, true);
      LookupIgnoresFrames(vm, taken);
      assert Available(vm.frames, r.value, true);
    }
  }

  lemma ValidFrames(vm: Vm)
    requires Inv(vm)
    ensures Valid(vm.frames) && IsDir(vm, vm.current)
  {
  }

  lemma AddedOne(vm0: Vm, vm: Vm, taken: Vm, after: Vm, P: set<nat>, v: nat, f: nat)
    requires Extends(vm0, vm, P) && v < PAGES && v !in P && Lookup(vm, vm.current, v).Absent?
    requires Valid(vm.frames) && AllocUser(vm.frames) == (taken.frames, Some(f)) && taken == vm.(frames := taken.frames)
    requires Inv(after) && OnlyPage(taken, after, v, Present(f, USER_DATA))
    requires after.kernel == vm.kernel && after.current == vm.current && after.spaces == vm.spaces
    requires SlotOnly(taken, after, v / ENTRIES) && Pde(after, vm.current, v / ENTRIES).Present?
    requires Pde(vm, vm.current, v / ENTRIES).Present? ==>
               && SamePointer(Pde(vm, vm.current, v / ENTRIES), Pde(after, vm.current, v / ENTRIES))
               && after.frames == taken.frames.(mapped := taken.frames.mapped + {f})
    requires Pde(vm, vm.current, v / ENTRIES).Absent? ==>
               var t := Pde(after, vm.current, v / ENTRIES).frame;
               t !in taken.frames.used && after.frames == taken.frames.(used := taken.frames.used + {t}, mapped := taken.frames.mapped + {f})
    ensures Extends(vm0, after, P + {v}) && OnlyPage(vm, after, v, Lookup(after, vm.current, v))
    ensures Lookup(after, vm.current, v) == Present(f, USER_DATA)
  {
    hide Inv, Lookup, Valid, AllocUser, AddedFrames, AddedTables, NewSlot, Tree, NoneLost, LostTables;
    var i := v / ENTRIES;
    LookupIgnoresFrames(vm, taken.frames);
    ValidFrames(vm);
    assert IsDir(taken, vm.current) && IsDir(vm0, vm.current);
    assert Lookup(after, vm.current, v) == Present(f, USER_DATA);
    forall d, w | IsDir(vm, d) && 0 <= w < PAGES
      ensures Lookup(after, d, w) == if w == v && d == vm.current then Present(f, USER_DATA) else Lookup(vm, d, w)
    {
      assert IsDir(taken, d) && Lookup(taken, d, w) == Lookup(vm, d, w);
    }
    AddedPagesMore(vm0, vm, after, P, v, f);
    forall k | 0 <= k < ENTRIES && k != i ensures Pde(after, vm.current, k) == Pde(vm, vm.current, k) {
      assert Pde(taken, vm.current, k) == Pde(vm, vm.current, k);
    }
    forall d, k | IsDir(vm0, d) && d != vm0.current && 0 <= k < ENTRIES ensures Pde(after, d, k) == Pde(vm, d, k) {
      assert IsDir(taken, d) && Pde(taken, d, k) == Pde(vm, d, k);
    }
    AddedTablesMore(vm0, vm, after, P, v);
    AddedFramesMore(vm0, vm, taken.frames, after, P, v, f);
  }

  lemma AddedPagesMore(vm0: Vm, vm: Vm, after: Vm, P: set<nat>, v: nat, f: nat)
    requires AddedPages(vm0, vm, P) && SameWorld(vm0, vm) && v < PAGES && v !in P && Lookup(vm, vm.current, v).Absent?
    requires after.current == vm.current && IsDir(vm, vm.current)
    requires forall d, w :: IsDir(vm, d) && 0 <= w < PAGES ==>
               Lookup(after, d, w) == if w == v && d == vm.current then Present(f, USER_DATA) else Lookup(vm, d, w)
    ensures AddedPages(vm0, after, P + {v}) && FrameAt(after, v) == f
    ensures forall w :: w in P ==> FrameAt(after, w) == FrameAt(vm, w)
  {
    hide Inv, Lookup;
    assert IsDir(vm0, vm.current);
    forall d, w | IsDir(vm0, d) && 0 <= w < PAGES && (d != vm0.current || w !in P + {v}) ensures Lookup(after, d, w) == Lookup(vm0, d, w) {
      assert IsDir(vm, d);
    }
  }

  lemma AddedTablesMore(vm0: Vm, vm: Vm, after: Vm, P: set<nat>, v: nat)
    requires AddedTables(vm0, vm, P) && v < PAGES && after.current == vm.current == vm0.current
    requires forall d, k :: IsDir(vm0, d) && d != vm0.current && 0 <= k < ENTRIES ==> Pde(after, d, k) == Pde(vm, d, k)
    requires Pde(after, vm.current, v / ENTRIES).Present?
    requires forall k :: 0 <= k < ENTRIES && k != v / ENTRIES ==> Pde(after, vm.current, k) == Pde(vm, vm.current, k)
    requires Pde(vm, vm.current, v / ENTRIES).Present? ==> SamePointer(Pde(vm, vm.current, v / ENTRIES), Pde(after, vm.current, v / ENTRIES))
    requires NoneLost(vm0, vm)
    ensures AddedTables(vm0, after, P + {v}) && NoneLost(vm0, after) && LostTables(vm0, after) == {} == LostTables(vm0, vm)
    ensures NewTables(vm0, after) == NewTables(vm0, vm) + if Pde(vm, vm.current, v / ENTRIES).Absent? then {Pde(after, vm.current, v / ENTRIES).frame} else {}
  {
    hide EmptySlot;
    assert !LostSlot(vm0, vm, v / ENTRIES);
    NewTablesMore(vm0, vm, after, v / ENTRIES);
    forall k | 0 <= k < ENTRIES ensures !LostSlot(vm0, after, k) {
      assert !LostSlot(vm0, vm, k);
    }
    forall k | 0 <= k < ENTRIES && NewSlot(vm0, after, k) ensures UsesSlot(P + {v}, k) {
      if k == v / ENTRIES {
        assert v in P + {v};
      } else {
        assert NewSlot(vm0, vm, k);
        var w :| w in P && w / ENTRIES == k;
        assert w in P + {v};
      }
    }
  }

  lemma AddedFramesMore(vm0: Vm, vm: Vm, taken: Frames, after: Vm, P: set<nat>, v: nat, f: nat)
    requires AddedFrames(vm0, vm, P) && Valid(vm.frames) && AllocUser(vm.frames) == (taken, Some(f)) && v < PAGES
    requires FrameAt(after, v) == f && forall w :: w in P ==> FrameAt(after, w) == FrameAt(vm, w)
    requires LostTables(vm0, after) == {} == LostTables(vm0, vm)
    requires Pde(after, vm.current, v / ENTRIES).Present?
    requires NewTables(vm0, after) == NewTables(vm0, vm) + if Pde(vm, vm.current, v / ENTRIES).Absent? then {Pde(after, vm.current, v / ENTRIES).frame} else {}
    requires Pde(vm, vm.current, v / ENTRIES).Present? ==> after.frames == taken.(mapped := taken.mapped + {f})
    requires Pde(vm, vm.current, v / ENTRIES).Absent? ==>
               var t := Pde(after, vm.current, v / ENTRIES).frame;
               t !in taken.used && after.frames == taken.(used := taken.used + {t}, mapped := taken.mapped + {f})
    ensures AddedFrames(vm0, after, P + {v})
  {
    hide FrameAt;
    FramesOfMore(vm, after, P, v);
    AllocUserValid(vm.frames);
  }

  // ---------- Removing a page ----------

  /** Unmap page v and give its frame back. */
  function RemovePage(vm: Vm, v: nat): (Vm, bool)
    requires v < PAGES
  {
    match UnmapPage(vm, v * PAGE_SIZE)
    case (_, None) => (vm, false)
    case (after, Some(f)) => (after.(frames := Free(after.frames, f)), true)
  }

  ghost predicate AloneInTable(vm: Vm, v: nat)
    requires v < PAGES
  {
    forall w :: 0 <= w < PAGES && w / ENTRIES == v / ENTRIES && w != v ==> Lookup(vm, vm.current, w).Absent?
  }

  lemma UserSlotIsPrivate(vm: Vm, v: nat)
    requires Inv(vm) && vm.current != vm.kernel && IsUserPage(vm, v)
    ensures Pde(vm, vm.current, v / ENTRIES).Present? && !SharedAt(vm, vm.current, v / ENTRIES) && !StillUsed(vm, v / ENTRIES)
    ensures USER_MIN_ADDRESS <= v * PAGE_SIZE < USER_ADDRESS_LIMIT
  {
    assert IsDir(vm, vm.current) && IsDir(vm, vm.kernel);
    assert Maps(vm, vm.current, v, Lookup(vm, vm.current, v).frame);
    assert SharedAt(vm, vm.current, v / ENTRIES) ==> Maps(vm, vm.kernel, v, Lookup(vm, vm.current, v).frame);
  }

  /** What unmapping a user page does to the slot and the bitmaps. */
  lemma UnmapUser(vm: Vm, v: nat)
    requires Inv(vm) && vm.current != vm.kernel && IsUserPage(vm, v)
    ensures var (after, r) := UnmapPage(vm, v * PAGE_SIZE);
            var i := v / ENTRIES;
            var t := Pde(vm, vm.current, i).frame;
            var released := Release(vm.frames, FrameAt(vm, v));
            && r == Some(FrameAt(vm, v)) && Inv(after) && OnlyPage(vm, after, v, Absent) && SlotOnly(vm, after, i)
            && after.kernel == vm.kernel && after.current == vm.current && after.spaces == vm.spaces
            && (AloneInTable(vm, v) ==> Pde(after, vm.current, i).Absent? && after.frames == released.(used := released.used - {t}))
            && (!AloneInTable(vm, v) ==> Pde(after, vm.current, i) == Pde(vm, vm.current, i) && after.frames == released)
  {
    hide Users, WriteXorExecute;
    UserSlotIsPrivate(vm, v);
    UnmapEffect(vm, v * PAGE_SIZE);
    var i := v / ENTRIES;
    var (after, r) := UnmapPage(vm, v * PAGE_SIZE);
    var t := Pde(vm, vm.current, i).frame;
    assert IsDir(vm, vm.current) && !IsDir(vm, t) && StructureFrame(vm, t);
    var cleared := PutEntry(vm, v, Absent).(frames := Release(vm.frames, FrameAt(vm, v)));
    assert AloneInTable(vm, v) <==> IsEmptyTable(At(cleared, t)) by {
      AloneIffEmpty(vm, cleared, v, t);
    }
    assert v * PAGE_SIZE / PAGE_SIZE == v && v * PAGE_SIZE % PAGE_SIZE == 0;
    ValidFrames(vm);
  }

  lemma AloneIffEmpty(vm: Vm, cleared: Vm, v: nat, t: nat)
    requires v < PAGES && Pde(vm, vm.current, v / ENTRIES).Present? && t == Pde(vm, vm.current, v / ENTRIES).frame
    requires At(cleared, t) == At(vm, t)[v % ENTRIES := Absent]
    ensures AloneInTable(vm, v) <==> IsEmptyTable(At(cleared, t))
  {
    var i := v / ENTRIES;
    if AloneInTable(vm, v) {
      forall j | 0 <= j < ENTRIES ensures At(cleared, t)[j].Absent? {
        assert j != v % ENTRIES ==> Lookup(vm, vm.current, i * ENTRIES + j) == At(vm, t)[j] by {
          assert (i * ENTRIES + j) / ENTRIES == i && (i * ENTRIES + j) % ENTRIES == j;
        }
      }
    }
    if IsEmptyTable(At(cleared, t)) {
      forall w | 0 <= w < PAGES && w / ENTRIES == i && w != v ensures Lookup(vm, vm.current, w).Absent? {
        assert w % ENTRIES != v % ENTRIES;
        assert At(cleared, t)[w % ENTRIES].Absent?;
      }
    }
  }

  /** A page is alone in its table when no other added page is there and the table was absent or empty before. */
  lemma AloneIff(vm0: Vm, vm: Vm, P: set<nat>, v: nat)
    requires Leaves(vm0, vm, P) && v in P
    ensures v < PAGES && Pde(vm, vm.current, v / ENTRIES).Present?
    ensures AloneInTable(vm, v) <==> !UsesSlot(P - {v}, v / ENTRIES) && (Pde(vm0, vm0.current, v / ENTRIES).Absent? || EmptySlot(vm0, v / ENTRIES))
    ensures Pde(vm0, vm0.current, v / ENTRIES).Present? ==> SamePointer(Pde(vm0, vm0.current, v / ENTRIES), Pde(vm, vm.current, v / ENTRIES))
  {
    hide Inv, AddedFrames, IsEmptyTable;
    var i := v / ENTRIES;
    UserSlotIsPrivate(vm, v);
    ValidFrames(vm0);
    assert !LostSlot(vm0, vm, i);
    forall w | 0 <= w < PAGES && w / ENTRIES == i && w != v
      ensures Lookup(vm, vm.current, w).Present? <==> w in P - {v} || Lookup(vm0, vm0.current, w).Present?
    {
      assert w in P ==> IsUserPage(vm, w);
    }
    OwnTable(vm0, vm, P, i);
    if Pde(vm0, vm0.current, i).Present? {
      EmptyIff(vm0, i);
    }
    if AloneInTable(vm, v) {
      forall w | w in P - {v} ensures w / ENTRIES != i {
        assert IsUserPage(vm, w);
      }
      forall w | 0 <= w < PAGES && w / ENTRIES == i ensures Lookup(vm0, vm0.current, w).Absent? {
        assert w == v || Lookup(vm, vm.current, w).Absent?;
      }
    }
  }

  /** The slot of a private table is private in the earlier state as well. */
  lemma OwnTable(vm0: Vm, vm: Vm, P: set<nat>, i: nat)
    requires Leaves(vm0, vm, P) && i < ENTRIES && Pde(vm, vm.current, i).Present? && !SharedAt(vm, vm.current, i)
    ensures !SharedAt(vm0, vm0.current, i)
  {
    hide Users, WriteXorExecute, Tree, AddedFrames, AddedPages, Lookup, IsEmptyTable;
    assert IsDir(vm0, vm0.kernel) && Pde(vm, vm0.kernel, i) == Pde(vm0, vm0.kernel, i);
    assert !LostSlot(vm0, vm, i);
  }

  /** A private slot is empty when no page of it is mapped. */
  lemma EmptyIff(vm: Vm, i: nat)
    requires i < ENTRIES && !SharedAt(vm, vm.current, i) && Pde(vm, vm.current, i).Present?
    ensures EmptySlot(vm, i) <==> forall w :: 0 <= w < PAGES && w / ENTRIES == i ==> Lookup(vm, vm.current, w).Absent?
  {
    var t := Pde(vm, vm.current, i).frame;
    if forall w :: 0 <= w < PAGES && w / ENTRIES == i ==> Lookup(vm, vm.current, w).Absent? {
      forall j | 0 <= j < ENTRIES ensures At(vm, t)[j].Absent? {
        var w := i * ENTRIES + j;
        assert w / ENTRIES == i && w % ENTRIES == j && Lookup(vm, vm.current, w) == At(vm, t)[j];
      }
    }
    if EmptySlot(vm, i) {
      forall w | 0 <= w < PAGES && w / ENTRIES == i ensures Lookup(vm, vm.current, w).Absent? {
        assert At(vm, t)[w % ENTRIES].Absent?;
      }
    }
  }

  lemma FrameUnique(vm: Vm, v: nat, w: nat)
    requires Inv(vm) && IsUserPage(vm, v) && IsUserPage(vm, w) && v != w
    ensures FrameAt(vm, v) != FrameAt(vm, w)
  {
    assert IsDir(vm, vm.current);
    assert Maps(vm, vm.current, v, FrameAt(vm, v)) && Maps(vm, vm.current, w, FrameAt(vm, w));
  }

  lemma FramesOfLess(vm: Vm, after: Vm, P: set<nat>, v: nat)
    requires Inv(vm) && v in P && forall w :: w in P ==> IsUserPage(vm, w)
    requires forall w :: w in P && w != v ==> FrameAt(after, w) == FrameAt(vm, w)
    ensures FramesOf(after, P - {v}) == FramesOf(vm, P) - {FrameAt(vm, v)}
  {
    hide Inv, FrameAt;
    forall g | g in FramesOf(vm, P) && g != FrameAt(vm, v) ensures g in FramesOf(after, P - {v}) {
      var w :| w in P && FrameAt(vm, w) == g;
      assert w in P - {v};
    }
    forall g | g in FramesOf(after, P - {v}) ensures g in FramesOf(vm, P) && g != FrameAt(vm, v) {
      var w :| w in P - {v} && FrameAt(after, w) == g;
      FrameUnique(vm, v, w);
    }
  }

  lemma NewTablesLess(vm0: Vm, vm: Vm, after: Vm, i: nat)
    requires Structure(vm) && i < ENTRIES && after.current == vm.current && NewSlot(vm0, vm, i) && Pde(after, vm.current, i).Absent?
    requires forall k :: 0 <= k < ENTRIES && k != i ==> Pde(after, vm.current, k) == Pde(vm, vm.current, k)
    ensures NewTables(vm0, after) == NewTables(vm0, vm) - {Pde(vm, vm.current, i).frame} && LostTables(vm0, after) == LostTables(vm0, vm)
  {
    assert IsDir(vm, vm.current);
    forall k | 0 <= k < ENTRIES ensures LostSlot(vm0, after, k) == LostSlot(vm0, vm, k) {
    }
    forall t | t in NewTables(vm0, vm) && t != Pde(vm, vm.current, i).frame ensures t in NewTables(vm0, after) {
      var k :| 0 <= k < ENTRIES && NewSlot(vm0, vm, k) && Pde(vm, vm.current, k).frame == t;
      assert NewSlot(vm0, after, k);
    }
    forall t | t in NewTables(vm0, after) ensures t in NewTables(vm0, vm) && t != Pde(vm, vm.current, i).frame {
      var k :| 0 <= k < ENTRIES && NewSlot(vm0, after, k) && Pde(after, vm.current, k).frame == t;
      assert NewSlot(vm0, vm, k) && k != i;
      assert t == Pde(vm, vm.current, i).frame ==> SameTable(vm, vm.current, k, vm.current, i);
    }
  }

  lemma LostTablesMore(vm0: Vm, vm: Vm, after: Vm, i: nat)
    requires i < ENTRIES && after.current == vm.current && Pde(vm0, vm0.current, i).Present? && Pde(after, vm.current, i).Absent?
    requires SamePointer(Pde(vm0, vm0.current, i), Pde(vm, vm.current, i))
    requires forall k :: 0 <= k < ENTRIES && k != i ==> Pde(after, vm.current, k) == Pde(vm, vm.current, k)
    ensures LostTables(vm0, after) == LostTables(vm0, vm) + {Pde(vm, vm.current, i).frame} && NewTables(vm0, after) == NewTables(vm0, vm)
  {
    forall t | t in LostTables(vm0, vm) ensures t in LostTables(vm0, after) {
      var k :| 0 <= k < ENTRIES && LostSlot(vm0, vm, k) && Pde(vm0, vm0.current, k).frame == t;
      assert LostSlot(vm0, after, k);
    }
    assert LostSlot(vm0, after, i);
    forall t | t in LostTables(vm0, after) && t != Pde(vm, vm.current, i).frame ensures t in LostTables(vm0, vm) {
      var k :| 0 <= k < ENTRIES && LostSlot(vm0, after, k) && Pde(vm0, vm0.current, k).frame == t;
      assert LostSlot(vm0, vm, k);
    }
    forall k | 0 <= k < ENTRIES ensures NewSlot(vm0, after, k) == NewSlot(vm0, vm, k) {
    }
  }

  /** The slots after a removal: that of the page is cleared when it held nothing else. */
  ghost predicate Cleared(vm: Vm, after: Vm, v: nat)
    requires v < PAGES
  {
    && after.current == vm.current && SlotOnly(vm, after, v / ENTRIES)
    && (AloneInTable(vm, v) ==> Pde(after, vm.current, v / ENTRIES).Absent?)
    && (!AloneInTable(vm, v) ==> Pde(after, vm.current, v / ENTRIES) == Pde(vm, vm.current, v / ENTRIES))
  }

  lemma RemovedTables(vm0: Vm, vm: Vm, after: Vm, P: set<nat>, v: nat)
    requires Leaves(vm0, vm, P) && v in P && v < PAGES && Cleared(vm, after, v)
    ensures AddedTables(vm0, after, P - {v})
    ensures forall k :: 0 <= k < ENTRIES ==>
              (LostSlot(vm0, after, k) <==> LostSlot(vm0, vm, k) || (k == v / ENTRIES && EmptySlot(vm0, k) && !UsesSlot(P - {v}, k)))
  {
    hide Users, WriteXorExecute, Tree, AddedFrames, Lookup, AloneInTable, IsEmptyTable;
    var i := v / ENTRIES;
    ValidFrames(vm);
    ValidFrames(vm0);
    AloneIff(vm0, vm, P, v);
    assert forall d :: IsDir(vm0, d) ==> IsDir(vm, d);
    forall k | 0 <= k < ENTRIES && k != i ensures Pde(after, vm.current, k) == Pde(vm, vm.current, k) {
    }
    forall k | 0 <= k < ENTRIES && NewSlot(vm0, after, k) ensures UsesSlot(P - {v}, k) {
      assert NewSlot(vm0, vm, k);
      if k != i {
        var w :| w in P && w / ENTRIES == k;
        assert w in P - {v};
      }
    }
  }

  lemma RemovedTableFrames(vm0: Vm, vm: Vm, after: Vm, P: set<nat>, v: nat)
    requires Leaves(vm0, vm, P) && v in P && v < PAGES && Cleared(vm, after, v)
    ensures var t := Pde(vm, vm.current, v / ENTRIES).frame;
            var added := Pde(vm0, vm0.current, v / ENTRIES).Absent?;
            && Pde(vm, vm.current, v / ENTRIES).Present?
            && NewTables(vm0, after) == (if AloneInTable(vm, v) && added then NewTables(vm0, vm) - {t} else NewTables(vm0, vm))
            && LostTables(vm0, after) == (if AloneInTable(vm, v) && !added then LostTables(vm0, vm) + {t} else LostTables(vm0, vm))
            && (added ==> t in NewTables(vm0, vm)) && (!added ==> t in vm0.frames.used)
  {
    hide Users, WriteXorExecute, AddedFrames, Lookup, AloneInTable, EmptySlot, AddedPages;
    var i := v / ENTRIES;
    ValidFrames(vm);
    AloneIff(vm0, vm, P, v);
    forall k | 0 <= k < ENTRIES && k != i ensures Pde(after, vm.current, k) == Pde(vm, vm.current, k) {
    }
    if Pde(vm0, vm0.current, i).Absent? {
      assert NewSlot(vm0, vm, i);
    } else {
      OwnTableIsUsed(vm0, i);
    }
    if !AloneInTable(vm, v) {
      SameTables(vm0, vm, after);
    } else if Pde(vm0, vm0.current, i).Absent? {
      NewTablesLess(vm0, vm, after, i);
    } else {
      LostTablesMore(vm0, vm, after, i);
    }
  }

  lemma SameTables(vm0: Vm, vm: Vm, after: Vm)
    requires after.current == vm.current && forall k :: 0 <= k < ENTRIES ==> SamePointer(Pde(after, vm.current, k), Pde(vm, vm.current, k))
    ensures NewTables(vm0, after) == NewTables(vm0, vm) && LostTables(vm0, after) == LostTables(vm0, vm)
    ensures forall k :: 0 <= k < ENTRIES ==> NewSlot(vm0, after, k) == NewSlot(vm0, vm, k) && LostSlot(vm0, after, k) == LostSlot(vm0, vm, k)
  {
    forall k | 0 <= k < ENTRIES ensures NewSlot(vm0, after, k) == NewSlot(vm0, vm, k) && LostSlot(vm0, after, k) == LostSlot(vm0, vm, k) {
      assert SamePointer(Pde(after, vm.current, k), Pde(vm, vm.current, k));
    }
    forall t | t in NewTables(vm0, vm) ensures t in NewTables(vm0, after) {
      var k :| 0 <= k < ENTRIES && NewSlot(vm0, vm, k) && Pde(vm, vm.current, k).frame == t;
      assert NewSlot(vm0, after, k);
    }
    forall t | t in NewTables(vm0, after) ensures t in NewTables(vm0, vm) {
      var k :| 0 <= k < ENTRIES && NewSlot(vm0, after, k) && Pde(after, vm.current, k).frame == t;
      assert NewSlot(vm0, vm, k);
    }
    assert NewTables(vm0, after) == NewTables(vm0, vm);
    assert LostTables(vm0, after) == LostTables(vm0, vm);
  }

  /** The frame of an unmapped user page can be freed, and leaves no trace. */
  lemma FreeRemoved(vm: Vm, v: nat)
    requires Inv(vm) && vm.current != vm.kernel && IsUserPage(vm, v)
    ensures var (after, ok) := RemovePage(vm, v);
            var f, t := FrameAt(vm, v), Pde(vm, vm.current, v / ENTRIES).frame;
            && ok && Inv(after) && OnlyPage(vm, after, v, Absent) && Cleared(vm, after, v)
            && after.kernel == vm.kernel && after.current == vm.current && after.spaces == vm.spaces
            && after.frames == vm.frames.(used := vm.frames.used - {f} - (if AloneInTable(vm, v) then {t} else {}),
                                          owned := vm.frames.owned - {f}, mapped := vm.frames.mapped - {f})
  {
    hide Inv, UnmapPage, Lookup, AloneInTable;
    UnmapUser(vm, v);
    UserSlotIsPrivate(vm, v);
    var (unmapped, r) := UnmapPage(vm, v * PAGE_SIZE);
    var f, t := FrameAt(vm, v), Pde(vm, vm.current, v / ENTRIES).frame;
    OwnedPage(vm, v);
    assert f != t && f in unmapped.frames.owned by {
      TableIsUnowned(vm, v / ENTRIES);
    }
    FreeUser(unmapped, f);
    LookupIgnoresFrames(unmapped, Free(unmapped.frames, f));
    assert vm.frames.used - {t} - {f} == vm.frames.used - {f} - {t};
  }

  lemma OwnedPage(vm: Vm, v: nat)
    requires Inv(vm) && IsUserPage(vm, v)
    ensures FrameAt(vm, v) in vm.frames.owned && FrameAt(vm, v) in vm.frames.mapped
  {
    assert IsDir(vm, vm.current);
    assert Maps(vm, vm.current, v, FrameAt(vm, v));
  }

  lemma TableIsUnowned(vm: Vm, i: nat)
    requires Inv(vm) && i < ENTRIES && Pde(vm, vm.current, i).Present?
    ensures Pde(vm, vm.current, i).frame !in vm.frames.owned
  {
    assert IsDir(vm, vm.current);
  }

  /** Freeing an owned frame that no entry holds. */
  lemma FreeUser(vm: Vm, f: nat)
    requires Inv(vm) && f in vm.frames.owned && f !in vm.frames.mapped
    ensures Inv(vm.(frames := Free(vm.frames, f)))
    ensures Free(vm.frames, f) == vm.frames.(used := vm.frames.used - {f}, owned := vm.frames.owned - {f})
  {
    ValidFrames(vm);
    FreeValid(vm.frames, f);
    InUseIsStructure(vm);
    FramesChanged(vm, Free(vm.frames, f));
    UsersKept(vm, vm.(frames := Free(vm.frames, f)));
  }

  lemma RemovedPages(vm0: Vm, vm: Vm, after: Vm, P: set<nat>, v: nat)
    requires Leaves(vm0, vm, P) && v in P && OnlyPage(vm, after, v, Absent)
    requires after.current == vm.current && after.spaces == vm.spaces && after.kernel == vm.kernel
    ensures AddedPages(vm0, after, P - {v})
    ensures forall w :: w in P && w != v ==> FrameAt(after, w) == FrameAt(vm, w)
  {
    hide Inv, Lookup, AddedTables, AddedFrames;
    ValidFrames(vm);
    ValidFrames(vm0);
    forall d, w | IsDir(vm0, d) && 0 <= w < PAGES && (d != vm0.current || w !in P - {v}) ensures Lookup(after, d, w) == Lookup(vm0, d, w) {
      assert IsDir(vm, d);
    }
    forall w | w in P && w != v ensures IsUserPage(after, w) && FrameAt(after, w) == FrameAt(vm, w) {
      assert IsUserPage(vm, w) && Lookup(after, vm.current, w) == Lookup(vm, vm.current, w);
    }
  }

  /** Removing an added page undoes exactly that page, and takes the table with it where that was empty before. */
  lemma RemovePageEffect(vm0: Vm, vm: Vm, P: set<nat>, v: nat)
    requires Leaves(vm0, vm, P) && v in P
    ensures var (after, ok) := RemovePage(vm, v);
            && ok && Leaves(vm0, after, P - {v}) && OnlyPage(vm, after, v, Absent)
            && forall k :: 0 <= k < ENTRIES ==>
                 (LostSlot(vm0, after, k) <==> LostSlot(vm0, vm, k) || (k == v / ENTRIES && EmptySlot(vm0, k) && !UsesSlot(P - {v}, k)))
  {
    hide Inv, RemovePage, Lookup, AddedTables, AloneInTable, FrameAt, NewSlot, LostSlot, Cleared, EmptySlot, UsesSlot,
         LostTables, NewTables, AddedPages;
    AddedIsUser(vm0, vm, P, v);
    FreeRemoved(vm, v);
    var after := RemovePage(vm, v).0;
    RemovedPages(vm0, vm, after, P, v);
    RemovedTables(vm0, vm, after, P, v);
    RemovedTableFrames(vm0, vm, after, P, v);
    AddedAreUsers(vm0, vm, P);
    FramesOfLess(vm, after, P, v);
    assert FrameAt(vm, v) in FramesOf(vm, P);
    TablesNotFrames(vm0, vm, P);
    ValidFrames(vm0);
    assert FrameAt(vm, v) !in vm0.frames.used && vm0.frames.mapped <= vm0.frames.owned <= vm0.frames.used by {
      OwnedBelowUsed(vm0);
    }
  }

  lemma OwnedBelowUsed(vm: Vm)
    requires Inv(vm)
    ensures vm.frames.mapped <= vm.frames.owned <= vm.frames.used
  {
    ValidFrames(vm);
  }

  lemma AddedIsUser(vm0: Vm, vm: Vm, P: set<nat>, v: nat)
    requires Leaves(vm0, vm, P) && v in P
    ensures IsUserPage(vm, v)
  {
  }

  lemma AddedAreUsers(vm0: Vm, vm: Vm, P: set<nat>)
    requires Leaves(vm0, vm, P)
    ensures forall w :: w in P ==> IsUserPage(vm, w)
  {
  }

  lemma TablesNotFrames(vm0: Vm, vm: Vm, P: set<nat>)
    requires Leaves(vm0, vm, P)
    ensures FramesOf(vm, P) !! NewTables(vm0, vm)
  {
    hide Lookup;
    forall t | t in NewTables(vm0, vm) ensures t !in FramesOf(vm, P) {
      var k :| 0 <= k < ENTRIES && NewSlot(vm0, vm, k) && Pde(vm, vm.current, k).frame == t;
      TableIsUnowned(vm, k);
    }
  }

  /** Removing the pages of A one by one empties exactly the slots that are through. */
  lemma EmptiedNext(vm0: Vm, vm: Vm, after: Vm, A: set<nat>, P: set<nat>, v: nat)
    requires P <= A && v in P && v < PAGES && Emptied(vm0, vm, A, P)
    requires forall k :: 0 <= k < ENTRIES ==>
               (LostSlot(vm0, after, k) <==> LostSlot(vm0, vm, k) || (k == v / ENTRIES && EmptySlot(vm0, k) && !UsesSlot(P - {v}, k)))
    ensures Emptied(vm0, after, A, P - {v})
  {
    hide EmptySlot, LostSlot;
    assert UsesSlot(A, v / ENTRIES) && UsesSlot(P, v / ENTRIES);
    forall k | 0 <= k < ENTRIES ensures LostSlot(vm0, after, k) <==> EmptySlot(vm0, k) && UsesSlot(A, k) && !UsesSlot(P - {v}, k) {
      if k != v / ENTRIES && UsesSlot(P, k) {
        var w :| w in P && w / ENTRIES == k;
        assert w in P - {v};
      }
      if UsesSlot(P - {v}, k) {
        var w :| w in P - {v} && w / ENTRIES == k;
        assert w in P;
      }
    }
  }

  lemma EmptiedNothing(vm0: Vm, vm: Vm, P: set<nat>)
    requires Extends(vm0, vm, P)
    ensures Emptied(vm0, vm, P, P)
  {
    hide EmptySlot, UsesSlot, Leaves;
  }

  // ---------- Protecting added pages ----------

  /** Changing the protection of an added page keeps the account. */
  lemma ProtectAdded(vm0: Vm, vm: Vm, P: set<nat>, v: nat, flags: Flags)
    requires Extends(vm0, vm, P) && v in P && flags.user && !(flags.writable && flags.executable)
    ensures var (after, ok) := ProtectPage(vm, v * PAGE_SIZE, flags, false);
            && ok && Extends(vm0, after, P) && OnlyPage(vm, after, v, Lookup(after, vm.current, v))
            && Lookup(after, vm.current, v) == Present(FrameAt(vm, v), flags)
  {
    hide WriteXorExecute, Tree, AddedFrames, AddedTables, NoneLost;
    UserSlotIsPrivate(vm, v);
    ValidFrames(vm);
    ValidFrames(vm0);
    OwnedPage(vm, v);
    ProtectEffect(vm, v * PAGE_SIZE, flags, false);
    var (after, ok) := ProtectPage(vm, v * PAGE_SIZE, flags, false);
    assert ok;
    ProtectSlots(vm, v, flags);
    KeptAccount(vm0, vm, after, P, v, flags);
  }

  lemma ProtectSlots(vm: Vm, v: nat, flags: Flags)
    requires Inv(vm) && IsUserPage(vm, v) && ProtectPage(vm, v * PAGE_SIZE, flags, false).1 && vm.current != vm.kernel
    ensures var after := ProtectPage(vm, v * PAGE_SIZE, flags, false).0;
            && (forall d, k :: IsDir(vm, d) && 0 <= k < ENTRIES ==> SamePointer(Pde(vm, d, k), Pde(after, d, k)))
            && (forall d, k :: IsDir(vm, d) && d != vm.current && 0 <= k < ENTRIES ==> Pde(vm, d, k) == Pde(after, d, k))
            && after.kernel == vm.kernel && after.current == vm.current && after.spaces == vm.spaces
  {
    hide Users, WriteXorExecute;
    UserSlotIsPrivate(vm, v);
    assert IsDir(vm, vm.current);
    assert !IsDir(vm, Pde(vm, vm.current, v / ENTRIES).frame);
  }

  lemma KeptAccount(vm0: Vm, vm: Vm, after: Vm, P: set<nat>, v: nat, flags: Flags)
    requires Extends(vm0, vm, P) && v in P && flags.user && Inv(after) && after.frames == vm.frames
    requires OnlyPage(vm, after, v, Present(FrameAt(vm, v), flags))
    requires forall d, k :: IsDir(vm, d) && 0 <= k < ENTRIES ==> SamePointer(Pde(vm, d, k), Pde(after, d, k))
    requires forall d, k :: IsDir(vm, d) && d != vm.current && 0 <= k < ENTRIES ==> Pde(vm, d, k) == Pde(after, d, k)
    requires after.kernel == vm.kernel && after.current == vm.current && after.spaces == vm.spaces
    ensures Extends(vm0, after, P) && Lookup(after, vm.current, v) == Present(FrameAt(vm, v), flags)
  {
    hide Inv, Lookup;
    ValidFrames(vm);
    ValidFrames(vm0);
    forall d, w | IsDir(vm0, d) && 0 <= w < PAGES && (d != vm0.current || w !in P) ensures Lookup(after, d, w) == Lookup(vm0, d, w) {
      assert IsDir(vm, d);
    }
    forall w | w in P ensures IsUserPage(after, w) && FrameAt(after, w) == FrameAt(vm, w) {
      assert IsUserPage(vm, w);
    }
    assert FramesOf(after, P) == FramesOf(vm, P);
    SameTables(vm0, vm, after);
    assert forall d :: IsDir(vm0, d) ==> IsDir(vm, d);
  }

  /**
   * Adding a page and removing it again gives back every frame exactly when its directory slot did not hold an
   * empty table, as a refused user mapping can leave behind: removal gives such a table back as well.
   */
  lemma AddThenRemove(vm: Vm, v: nat)
    requires Inv(vm) && vm.current != vm.kernel && v < PAGES && Lookup(vm, vm.current, v).Absent? && AddPage(vm, v).1
    ensures var (back, ok) := RemovePage(AddPage(vm, v).0, v);
            var i := v / ENTRIES;
            && ok && SameLookups(vm, back)
            && back.frames == vm.frames.(used := vm.frames.used - if EmptySlot(vm, i) then {Pde(vm, vm.current, i).frame} else {})
            && (back.frames == vm.frames <==> !EmptySlot(vm, i))
  {
    hide Inv, AddPage, RemovePage, AddedTables, AddedPages, AddedFrames, Lookup, EmptySlot;
    ExtendsNothing(vm);
    AddPageEffect(vm, vm, {}, v);
    var added := AddPage(vm, v).0;
    assert {} + {v} == {v} && {v} - {v} == {};
    RemovePageEffect(vm, added, {v}, v);
    var back := RemovePage(added, v).0;
    NothingAdded(vm, back);
    assert !UsesSlot({}, v / ENTRIES);
    assert LostTables(vm, back) == if EmptySlot(vm, v / ENTRIES) then {Pde(vm, vm.current, v / ENTRIES).frame} else {} by {
      OneLost(vm, back, v / ENTRIES);
    }
  }

  lemma OneLost(vm0: Vm, vm: Vm, i: nat)
    requires i < ENTRIES && forall k :: 0 <= k < ENTRIES ==> (LostSlot(vm0, vm, k) <==> k == i && EmptySlot(vm0, i))
    ensures LostTables(vm0, vm) == if EmptySlot(vm0, i) then {Pde(vm0, vm0.current, i).frame} else {}
  {
    hide EmptySlot;
    if EmptySlot(vm0, i) {
      assert LostSlot(vm0, vm, i);
    }
  }

  /**
   * The code reaches such a slot: a user mapping of a frame that is mapped already, into a slot without a table,
   * is refused only after the table was created. The table stays, empty, and its frame with it.
   */
  lemma RefusedMapLeavesTable(vm: Vm, va: u32, pa: u32, flags: Flags)
    requires Inv(vm) && flags.user && MapAllowed(vm, va, pa, flags, false) && pa / PAGE_SIZE in vm.frames.mapped
    requires Pde(vm, vm.current, va / PAGE_SIZE / ENTRIES).Absent? && AllocBelow(vm.frames, LOW_IDENTITY_LIMIT).1.Some?
    ensures var (after, ok) := MapPage(vm, va, pa, flags, false);
            var t := AllocBelow(vm.frames, LOW_IDENTITY_LIMIT).1.value;
            && !ok && Inv(after) && SameLookups(vm, after) && EmptySlot(after, va / PAGE_SIZE / ENTRIES)
            && t !in vm.frames.used && after.frames == vm.frames.(used := vm.frames.used + {t})
  {
    hide Users, WriteXorExecute, Lookup;
    var i := va / PAGE_SIZE / ENTRIES;
    EnsureEffect(vm, i, true);
    MapEffect(vm, va, pa, flags, false);
    var (after, t) := EnsureTable(vm, i, true);
    assert IsDir(vm, vm.kernel) && IsDir(vm, vm.current);
    assert Pde(after, vm.kernel, i) == Pde(vm, vm.kernel, i);
  }
}
