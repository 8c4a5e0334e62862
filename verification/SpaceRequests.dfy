/** When each request to map, protect, unmap, create, switch or destroy is granted, in terms of translations and frames. */
module SpaceRequests {
  import opened Arithmetic
  import opened Bytes
  import opened Frames
  import opened AddressSpace
  import opened SpaceRuns

  /** An aligned address outside the first page. */
  predicate PageAddress(a: u32) {
    a % 0x1000 == 0 && a >= 0x1000
  }

  /** Some frame below the identity limit is free to hold a table or a directory. */
  predicate HasTableFrame(frames: Frames) {
    exists b :: 0x100 <= b < 0x400 && b < frames.detected && b !in frames.used
  }

  lemma AllocsTable(frames: Frames)
    ensures AllocBelow(frames, LOW_IDENTITY_LIMIT).1.Some? <==> HasTableFrame(frames)
  {
    var hi := Min(LOW_IDENTITY_LIMIT / BLOCK_SIZE, frames.detected);
    var r := FirstFree(frames, LOW_MEMORY_BLOCKS, hi, false);
    if HasTableFrame(frames) {
      var b :| 0x100 <= b < 0x400 && b < frames.detected && b !in frames.used;
      assert Available(frames, b, false);
    }
    if r.Some? {
      assert Available(frames, r.value, false);
    }
  }

  /** Every page mapped through this slot is a user page. */
  ghost predicate UserPagesOnly(vm: Vm, i: nat) {
    forall w :: 0 <= w < PAGES && w / ENTRIES == i && Lookup(vm, vm.current, w).Present? ==> Lookup(vm, vm.current, w).flags.user
  }

  lemma AllowsUserIff(vm: Vm, i: nat)
    requires i < ENTRIES && Pde(vm, vm.current, i).Present?
    ensures AllowsUser(At(vm, Pde(vm, vm.current, i).frame)) <==> UserPagesOnly(vm, i)
  {
    var t := Pde(vm, vm.current, i).frame;
    if UserPagesOnly(vm, i) {
      forall j | 0 <= j < ENTRIES && At(vm, t)[j].Present? ensures At(vm, t)[j].flags.user {
        var w := i * ENTRIES + j;
        assert w / ENTRIES == i && w % ENTRIES == j && Lookup(vm, vm.current, w) == At(vm, t)[j];
      }
    }
    if AllowsUser(At(vm, t)) {
      forall w | 0 <= w < PAGES && w / ENTRIES == i && Lookup(vm, vm.current, w).Present? ensures Lookup(vm, vm.current, w).flags.user {
        assert At(vm, t)[w % ENTRIES].Present?;
      }
    }
  }

  /** What a user mapping needs besides: a frame of its own, a private space, and a slot without supervisor pages. */
  ghost predicate UserMayMap(vm: Vm, va: u32, f: nat) {
    && f in vm.frames.owned && f !in vm.frames.mapped
    && vm.current != vm.kernel && 0x40_0000 <= va < 0xC000_0000 && UserPagesOnly(vm, va / 0x40_0000)
  }

  /**
   * A mapping is granted exactly when both addresses are good, the protection is not writable and executable at once,
   * nothing is mapped there, the slot is not the kernel's under a private directory, a user page has all it needs,
   * and a table is there or a frame for one is.
   */
  lemma MapSucceedsIff(vm: Vm, va: u32, pa: u32, flags: Flags, otherBits: bool)
    requires Inv(vm)
    ensures MapPage(vm, va, pa, flags, otherBits).1 <==>
              && PageAddress(va) && PageAddress(pa) && !otherBits && !(flags.writable && flags.executable)
              && Lookup(vm, vm.current, va / 0x1000).Absent?
              && (vm.current != vm.kernel ==> !SharedAt(vm, vm.current, va / 0x40_0000))
              && (flags.user ==> UserMayMap(vm, va, pa / 0x1000))
              && (Pde(vm, vm.current, va / 0x40_0000).Present? || HasTableFrame(vm.frames))
  {
    hide Tree, Users, WriteXorExecute, AllowsUser, UserPagesOnly, AllocBelow, HasTableFrame;
    var v, i, f := va / 0x1000, va / 0x40_0000, pa / 0x1000;
    assert v / ENTRIES == i;
    ValidVm(vm);
    OwnedIs(vm.frames, f);
    EnsureEffect(vm, i, flags.user);
    AllocsTable(vm.frames);
    if Pde(vm, vm.current, i).Present? {
      AllowsUserIff(vm, i);
    } else {
      NothingThere(vm, i);
    }
    var (ensured, t) := EnsureTable(vm, i, flags.user);
    assert t.Some? ==> Lookup(ensured, vm.current, v) == Lookup(vm, vm.current, v);
  }

  lemma ValidVm(vm: Vm)
    requires Inv(vm)
    ensures Valid(vm.frames) && IsDir(vm, vm.current) && IsDir(vm, vm.kernel)
  {
  }

  lemma OwnedIs(frames: Frames, f: nat)
    requires Valid(frames)
    ensures UserOwned(frames, f) <==> f in frames.owned
  {
  }

  lemma NothingThere(vm: Vm, i: nat)
    requires i < ENTRIES && Pde(vm, vm.current, i).Absent?
    ensures UserPagesOnly(vm, i)
  {
  }

  /**
   * What a granted mapping costs: the claim on a user frame, and where there was no table, a frame for one that lets
   * everything through but user access to kernel pages. A table already there is opened to users when a user page goes in.
   */
  lemma MapCosts(vm: Vm, va: u32, pa: u32, flags: Flags)
    requires Inv(vm) && MapPage(vm, va, pa, flags, false).1
    ensures var after := MapPage(vm, va, pa, flags, false).0;
            && after.frames.mapped == vm.frames.mapped + (if flags.user then {pa / 0x1000} else {})
            && after.frames.owned == vm.frames.owned && after.frames.usable == vm.frames.usable
            && var was, now := Pde(vm, vm.current, va / 0x40_0000), Pde(after, vm.current, va / 0x40_0000);
               && (was.Present? ==> after.frames.used == vm.frames.used && now == was.(flags := was.flags.(user := was.flags.user || flags.user)))
               && (was.Absent? ==>
                     && now.Present? && now.flags == Flags(true, flags.user, false, false)
                     && 0x100 <= now.frame < 0x400 && now.frame !in vm.frames.used && after.frames.used == vm.frames.used + {now.frame})
  {
    hide Tree, Users, WriteXorExecute, AllowsUser;
    var i := va / 0x40_0000;
    assert va / PAGE_SIZE / ENTRIES == i;
    EnsureEffect(vm, i, flags.user);
    ValidVm(vm);
    var (ensured, t) := EnsureTable(vm, i, flags.user);
    TableIsNoDirectory(ensured, i);
  }

  lemma TableIsNoDirectory(vm: Vm, i: nat)
    requires Structure(vm) && i < ENTRIES && Pde(vm, vm.current, i).Present?
    ensures !IsDir(vm, Pde(vm, vm.current, i).frame)
  {
    assert IsDir(vm, vm.current);
  }

  /** Protecting is granted exactly for a mapped page of the right kind, under the same rules. */
  lemma ProtectSucceedsIff(vm: Vm, va: u32, flags: Flags, otherBits: bool)
    requires Inv(vm)
    ensures ProtectPage(vm, va, flags, otherBits).1 <==>
              && PageAddress(va) && !otherBits && !(flags.writable && flags.executable)
              && Lookup(vm, vm.current, va / 0x1000).Present? && Lookup(vm, vm.current, va / 0x1000).flags.user == flags.user
              && (vm.current != vm.kernel ==> !SharedAt(vm, vm.current, va / 0x40_0000))
  {
    hide Tree, WriteXorExecute;
    ValidVm(vm);
    var e := Lookup(vm, vm.current, va / 0x1000);
    assert va / 0x1000 / ENTRIES == va / 0x40_0000;
    if e.Present? && e.flags.user {
      assert Maps(vm, vm.current, va / 0x1000, e.frame);
      OwnedIs(vm.frames, e.frame);
    }
  }

  /** Unmapping is granted exactly for a mapped page, in the kernel's own space only above the identity-mapped part. */
  lemma UnmapSucceedsIff(vm: Vm, va: u32)
    requires Inv(vm)
    ensures UnmapPage(vm, va).1.Some? <==>
              && PageAddress(va) && Lookup(vm, vm.current, va / 0x1000).Present?
              && (if vm.current == vm.kernel then va >= 0x40_0000 else !SharedAt(vm, vm.current, va / 0x40_0000))
  {
  }

  /** Unmapping a user page ends the claim on its frame, which stays owned until it is freed; a table left empty is given back. */
  lemma UnmapCosts(vm: Vm, va: u32)
    requires Inv(vm) && UnmapPage(vm, va).1.Some?
    ensures var (after, f) := UnmapPage(vm, va);
            var e := Lookup(vm, vm.current, va / 0x1000);
            && after.frames.mapped == vm.frames.mapped - (if e.flags.user then {f.value} else {}) && after.frames.usable == vm.frames.usable
            && after.frames.owned == vm.frames.owned
            && after.frames.used == vm.frames.used - if LastInSlot(vm, va / 0x1000) then {Pde(vm, vm.current, va / 0x40_0000).frame} else {}
  {
    hide Users, WriteXorExecute;
    ValidVm(vm);
    var v := va / 0x1000;
    assert v / ENTRIES == va / 0x40_0000;
    var t := Pde(vm, vm.current, v / ENTRIES).frame;
    assert StructureFrame(vm, t) && !IsDir(vm, t);
    LastIffEmpty(vm, v);
  }

  /** No other page is mapped through the slot of page v. */
  ghost predicate LastInSlot(vm: Vm, v: nat) {
    forall w :: 0 <= w < PAGES && w / ENTRIES == v / ENTRIES && w != v ==> Lookup(vm, vm.current, w).Absent?
  }

  lemma LastIffEmpty(vm: Vm, v: nat)
    requires v < PAGES && Pde(vm, vm.current, v / ENTRIES).Present?
    ensures LastInSlot(vm, v) <==> IsEmptyTable(At(vm, Pde(vm, vm.current, v / ENTRIES).frame)[v % ENTRIES := Absent])
  {
    var i, table := v / ENTRIES, At(vm, Pde(vm, vm.current, v / ENTRIES).frame);
    var cleared := table[v % ENTRIES := Absent];
    if LastInSlot(vm, v) {
      forall j | 0 <= j < ENTRIES ensures cleared[j].Absent? {
        var w := i * ENTRIES + j;
        assert w / ENTRIES == i && w % ENTRIES == j;
        assert j != v % ENTRIES ==> Lookup(vm, vm.current, w) == table[j];
      }
    }
    if IsEmptyTable(cleared) {
      forall w | 0 <= w < PAGES && w / ENTRIES == i && w != v ensures Lookup(vm, vm.current, w).Absent? {
        assert w % ENTRIES != v % ENTRIES && cleared[w % ENTRIES].Absent?;
      }
    }
  }

  /** A space is created exactly when fewer than sixteen exist and a frame is free for its directory. */
  lemma CreateSucceedsIff(vm: Vm)
    requires Inv(vm)
    ensures CreateSpace(vm).1.Some? <==> |vm.spaces| < 16 && HasTableFrame(vm.frames)
    ensures CreateSpace(vm).1.Some? ==>
              var (after, d) := CreateSpace(vm);
              && after.spaces == vm.spaces + [d.value] && after.current == vm.current && after.kernel == vm.kernel
              && d.value !in vm.frames.used && after.frames == vm.frames.(used := vm.frames.used + {d.value})
    ensures CreateSpace(vm).1.None? ==> CreateSpace(vm).0 == vm
  {
    hide Tree, Users, WriteXorExecute, HasTableFrame;
    AllocsTable(vm.frames);
    ValidVm(vm);
    AllocBelowValid(vm.frames, LOW_IDENTITY_LIMIT);
    if CreateSpace(vm).1.Some? {
      assert vm.frames.owned - {CreateSpace(vm).1.value} == vm.frames.owned;
    }
  }

  /** Switching is granted exactly to the kernel's directory and the registered ones. */
  lemma SwitchSucceedsIff(vm: Vm, d: nat)
    requires Inv(vm)
    ensures SwitchSpace(vm, d) == if IsDir(vm, d) then (vm.(current := d), true) else (vm, false)
  {
    hide Users, WriteXorExecute, Tree;
    assert IsDir(vm, d) ==> StructureFrame(vm, d);
  }

  /** Slot i of d has a table of its own, made for user pages, all of whose pages hold claimed frames. */
  ghost predicate Reclaimable(vm: Vm, d: nat, i: nat)
    requires i < ENTRIES
  {
    && Pde(vm, d, i).Present? && Pde(vm, d, i).flags.user
    && forall v :: 0 <= v < PAGES && v / ENTRIES == i && Lookup(vm, d, v).Present? ==> Lookup(vm, d, v).frame in vm.frames.mapped
  }

  /** A registered space that is not the current one is destroyed exactly when all its user slots can be reclaimed. */
  lemma DestroySucceedsIff(vm: Vm, d: nat)
    requires Inv(vm)
    ensures DestroySpace(vm, d).1 <==>
              && d in vm.spaces && d != vm.current
              && forall i :: 1 <= i < 768 && PrivateAt(vm, d, i) ==> Reclaimable(vm, d, i)
    ensures !DestroySpace(vm, d).1 ==> DestroySpace(vm, d).0 == vm
  {
    hide Users, WriteXorExecute, Tree, UserTable, Reclaimable, PrivateFrames, PrivateTables;
    ValidVm(vm);
    assert d in vm.spaces ==> IsDir(vm, d) && StructureFrame(vm, d) && d != vm.kernel;
    forall i | 1 <= i < 768 && PrivateAt(vm, d, i)
      ensures Reclaimable(vm, d, i) <==> Pde(vm, d, i).flags.user && UserTable(vm, Pde(vm, d, i).frame)
    {
      ReclaimableIff(vm, d, i);
    }
  }

  lemma ReclaimableIff(vm: Vm, d: nat, i: nat)
    requires Inv(vm) && i < ENTRIES && Pde(vm, d, i).Present?
    ensures Reclaimable(vm, d, i) <==> Pde(vm, d, i).flags.user && UserTable(vm, Pde(vm, d, i).frame)
  {
    hide Users, WriteXorExecute, Tree;
    ValidVm(vm);
    var t := Pde(vm, d, i).frame;
    if Reclaimable(vm, d, i) {
      forall j | 0 <= j < ENTRIES && At(vm, t)[j].Present?
        ensures UserOwned(vm.frames, At(vm, t)[j].frame) && At(vm, t)[j].frame in vm.frames.mapped
      {
        var v := i * ENTRIES + j;
        assert v / ENTRIES == i && v % ENTRIES == j && Lookup(vm, d, v) == At(vm, t)[j];
        OwnedIs(vm.frames, At(vm, t)[j].frame);
      }
    }
    if UserTable(vm, t) {
      forall v | 0 <= v < PAGES && v / ENTRIES == i && Lookup(vm, d, v).Present? ensures Lookup(vm, d, v).frame in vm.frames.mapped {
        assert At(vm, t)[v % ENTRIES].Present?;
      }
    }
  }
}
