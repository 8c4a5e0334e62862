/** Destroying an address space, and the invariant of every run of the memory operations. */
module SpaceRuns {
  import opened Bytes
  import opened Frames
  import opened AddressSpace

  const FIRST_USER_SLOT: nat := USER_MIN_ADDRESS / 0x40_0000
  const END_USER_SLOT: nat := USER_ADDRESS_LIMIT / 0x40_0000

  /** Directory slot i of d holds a table of its own. */
  predicate PrivateAt(vm: Vm, d: nat, i: nat)
    requires i < ENTRIES
  {
    Pde(vm, d, i).Present? && !SharedAt(vm, d, i)
  }

  predicate UserTable(vm: Vm, t: nat) {
    forall j :: 0 <= j < ENTRIES && At(vm, t)[j].Present? ==> UserOwned(vm.frames, At(vm, t)[j].frame) && At(vm, t)[j].frame in vm.frames.mapped
  }

  /** The preflight: every private table in the user range is a user table of owned, claimed frames. */
  predicate DestroyAllowed(vm: Vm, d: nat) {
    && d != 0 && d != vm.kernel && d != vm.current && d in vm.spaces
    && forall i :: FIRST_USER_SLOT <= i < END_USER_SLOT && PrivateAt(vm, d, i) ==>
         Pde(vm, d, i).flags.user && UserTable(vm, Pde(vm, d, i).frame)
  }

  /** The private tables of d in the user slots below `end`. */
  function TablesBelow(vm: Vm, d: nat, end: nat): set<nat>
    requires end <= END_USER_SLOT
  {
    set i | FIRST_USER_SLOT <= i < end && PrivateAt(vm, d, i) :: Pde(vm, d, i).frame
  }

  predicate HoldsUser(vm: Vm, d: nat, v: nat)
    requires v < PAGES
  {
    PrivateAt(vm, d, v / ENTRIES) && Lookup(vm, d, v).Present? && Lookup(vm, d, v).flags.user
  }

  /** The frames that user entries of d hold for pages below `end`. */
  function FramesBelow(vm: Vm, d: nat, end: nat): set<nat>
    requires end <= END_USER_SLOT * ENTRIES
  {
    set v | FIRST_USER_SLOT * ENTRIES <= v < end && HoldsUser(vm, d, v) :: Lookup(vm, d, v).frame
  }

  function PrivateTables(vm: Vm, d: nat): set<nat> {
    TablesBelow(vm, d, END_USER_SLOT)
  }

  function PrivateFrames(vm: Vm, d: nat): set<nat> {
    FramesBelow(vm, d, END_USER_SLOT * ENTRIES)
  }

  /** The registry after removal: the last space takes the place of the removed one. */
  function Unregister(spaces: seq<nat>, d: nat): seq<nat> {
    if spaces == [] then []
    else if spaces[0] == d then
      if |spaces| == 1 then [] else [spaces[|spaces| - 1]] + spaces[1..|spaces| - 1]
    else [spaces[0]] + Unregister(spaces[1..], d)
  }

  function DestroySpace(vm: Vm, d: nat): (Vm, bool) {
    if !DestroyAllowed(vm, d) then (vm, false)
    else
      var freed := PrivateFrames(vm, d) + PrivateTables(vm, d) + {d};
      var frames := vm.frames.(used := vm.frames.used - freed, owned := vm.frames.owned - freed,
                               mapped := vm.frames.mapped - PrivateFrames(vm, d));
      (vm.(frames := frames, spaces := Unregister(vm.spaces, d)), true)
  }

  lemma {:induction false} UnregisterEffect(s: seq<nat>, d: nat)
    requires NoRepeats(s) && d in s
    ensures NoRepeats(Unregister(s, d)) && |Unregister(s, d)| == |s| - 1
    ensures forall e :: e in Unregister(s, d) <==> e in s && e != d
  {
    if s[0] == d {
      var r := Unregister(s, d);
      assert |s| > 1 ==> forall i :: 1 <= i < |s| - 1 ==> r[i] == s[i];
      forall e ensures e in r <==> e in s && e != d {
        if e in s && e != d {
          var k :| 0 <= k < |s| && s[k] == e;
          assert r[if k == |s| - 1 then 0 else k] == e;
        }
      }
    } else {
      assert forall k :: 0 <= k < |s| - 1 ==> s[1..][k] == s[k + 1];
      assert s[0] !in s[1..];
      UnregisterEffect(s[1..], d);
      var rest := Unregister(s[1..], d);
      assert forall e :: e in [s[0]] + rest <==> e == s[0] || e in rest;
      assert forall e :: e in s <==> e == s[0] || e in s[1..];
    }
  }

  lemma DestroySlots(vm: Vm, d: nat)
    requires Inv(vm) && DestroyAllowed(vm, d)
    ensures var after := DestroySpace(vm, d).0;
            && Valid(after.frames) && IsDir(vm, d)
            && (forall e :: IsDir(after, e) <==> IsDir(vm, e) && e != d)
            && (forall e :: IsDir(vm, e) && e != d ==> StructureFrame(after, e))
            && (forall e, k :: IsDir(vm, e) && e != d && 0 <= k < ENTRIES && Pde(vm, e, k).Present? ==> StructureFrame(after, Pde(vm, e, k).frame))
  {
    var after := DestroySpace(vm, d).0;
    UnregisterEffect(vm.spaces, d);
    assert IsDir(vm, d);
    var uf, pt := PrivateFrames(vm, d), PrivateTables(vm, d);
    PrivateFramesAre(vm, d);
    assert uf <= vm.frames.mapped;
    forall e | IsDir(vm, e) && e != d ensures StructureFrame(after, e) {
      assert e !in pt;
    }
    forall e, k | IsDir(vm, e) && e != d && 0 <= k < ENTRIES && Pde(vm, e, k).Present? ensures StructureFrame(after, Pde(vm, e, k).frame) {
      var t := Pde(vm, e, k).frame;
      assert StructureFrame(vm, t) && !IsDir(vm, t);
      if t in pt {
        var i :| FIRST_USER_SLOT <= i < END_USER_SLOT && PrivateAt(vm, d, i) && Pde(vm, d, i).frame == t;
        assert SameTable(vm, d, i, e, k);
      }
    }
  }

  /** Destroying a space releases exactly its user pages and private tables and touches no other translation. */
  lemma DestroyEffect(vm: Vm, d: nat)
    requires Inv(vm)
    ensures var (after, ok) := DestroySpace(vm, d);
            && Inv(after)
            && (forall e, v :: IsDir(after, e) && 0 <= v < PAGES ==> Lookup(after, e, v) == Lookup(vm, e, v))
  {
    var (after, ok) := DestroySpace(vm, d);
    if ok {
      DestroySlots(vm, d);
      DestroyStructure(vm, d);
      DestroyUsers(vm, d);
    }
  }

  /** A supervisor mapping made from inside a space, where that has no table, gives the space a table of its own. */
  lemma MapMakesTable(vm: Vm, va: u32, pa: u32, flags: Flags)
    requires Inv(vm) && vm.current != vm.kernel && !flags.user && MapAllowed(vm, va, pa, flags, false)
    requires Pde(vm, vm.current, va / PAGE_SIZE / ENTRIES).Absent? && AllocBelow(vm.frames, LOW_IDENTITY_LIMIT).1.Some?
    ensures var (after, ok) := MapPage(vm, va, pa, flags, false);
            ok && Inv(after) && PrivateAt(after, vm.current, va / PAGE_SIZE / ENTRIES)
  {
    hide Users, WriteXorExecute, Lookup;
    var i := va / PAGE_SIZE / ENTRIES;
    EnsureEffect(vm, i, false);
    MapEffect(vm, va, pa, flags, false);
    var (ensured, t) := EnsureTable(vm, i, false);
    assert IsDir(vm, vm.kernel) && IsDir(vm, vm.current) && IsDir(ensured, vm.current);
    assert Pde(ensured, vm.kernel, i) == Pde(vm, vm.kernel, i);
    assert !IsDir(ensured, t.value);
  }

  /**
   * What destroying gives back: the directory, the frame of every user page, and exactly those private tables that
   * lie in the user slots. A table that kernel pages were given in a slot outside them stays in use.
   */
  lemma DestroyGivesBack(vm: Vm, d: nat)
    requires Inv(vm) && DestroyAllowed(vm, d)
    ensures var after := DestroySpace(vm, d).0;
            && d !in after.frames.used
            && (forall v: nat, f: nat :: Maps(vm, d, v, f) ==> f !in after.frames.used)
            && (forall k: nat :: k < ENTRIES && PrivateAt(vm, d, k) ==>
                  (Pde(vm, d, k).frame !in after.frames.used <==> FIRST_USER_SLOT <= k < END_USER_SLOT))
  {
    hide PrivateFrames;
    var after := DestroySpace(vm, d).0;
    assert IsDir(vm, d);
    PrivateFramesAre(vm, d);
    assert PrivateFrames(vm, d) <= vm.frames.mapped;
    forall k: nat | k < ENTRIES && PrivateAt(vm, d, k)
      ensures Pde(vm, d, k).frame !in after.frames.used <==> FIRST_USER_SLOT <= k < END_USER_SLOT
    {
      var t := Pde(vm, d, k).frame;
      assert StructureFrame(vm, t) && !IsDir(vm, t);
      if t in PrivateTables(vm, d) {
        var i :| FIRST_USER_SLOT <= i < END_USER_SLOT && PrivateAt(vm, d, i) && Pde(vm, d, i).frame == t;
        assert SameTable(vm, d, i, d, k);
      }
    }
  }

  lemma DestroyStructure(vm: Vm, d: nat)
    requires Inv(vm) && DestroyAllowed(vm, d)
    ensures Structure(DestroySpace(vm, d).0)
  {
    hide PrivateFrames, PrivateTables;
    var after := DestroySpace(vm, d).0;
    DestroySlots(vm, d);
    UnregisterEffect(vm.spaces, d);
    assert IsDir(vm, vm.kernel) && IsDir(vm, vm.current);
    forall e, k | IsDir(after, e) && 0 <= k < ENTRIES && Pde(after, e, k).Present?
      ensures StructureFrame(after, Pde(after, e, k).frame) && !IsDir(after, Pde(after, e, k).frame)
    {
      assert IsDir(vm, e) && Pde(vm, e, k).Present?;
    }
    forall e, k, g, j | IsDir(after, e) && IsDir(after, g) && 0 <= k < ENTRIES && 0 <= j < ENTRIES && SameTable(after, e, k, g, j)
      ensures k == j && (e == g || SharedAt(after, e, k))
    {
      assert IsDir(vm, e) && IsDir(vm, g) && SameTable(vm, e, k, g, j);
    }
  }

  /** The frames given back are exactly those some user entry of d holds. */
  lemma PrivateFramesAre(vm: Vm, d: nat)
    requires Inv(vm) && d in vm.spaces
    ensures forall f: nat :: f in PrivateFrames(vm, d) <==> exists v: nat :: Maps(vm, d, v, f)
  {
    hide Tree;
    assert IsDir(vm, vm.kernel) && IsDir(vm, d);
    forall v: nat, f: nat | Maps(vm, d, v, f) ensures f in PrivateFrames(vm, d) {
      assert SharedAt(vm, d, v / ENTRIES) ==> Maps(vm, vm.kernel, v, f);
      assert FIRST_USER_SLOT * ENTRIES <= v < END_USER_SLOT * ENTRIES;
    }
    forall f | f in PrivateFrames(vm, d) ensures exists v: nat :: Maps(vm, d, v, f) {
      var v :| FIRST_USER_SLOT * ENTRIES <= v < END_USER_SLOT * ENTRIES && HoldsUser(vm, d, v) && Lookup(vm, d, v).frame == f;
      assert Maps(vm, d, v, f);
    }
  }

  lemma DestroyUsers(vm: Vm, d: nat)
    requires Inv(vm) && DestroyAllowed(vm, d)
    ensures Users(DestroySpace(vm, d).0) && WriteXorExecute(DestroySpace(vm, d).0)
  {
    hide Tree, PrivateFrames, PrivateTables, UserTable;
    var after := DestroySpace(vm, d).0;
    DestroySlots(vm, d);
    PrivateFramesAre(vm, d);
    forall e: nat, v: nat, f: nat ensures Maps(after, e, v, f) <==> Maps(vm, e, v, f) && e != d {
      assert IsDir(after, e) <==> IsDir(vm, e) && e != d;
    }
    forall f | f in after.frames.mapped ensures exists e: nat, v: nat :: Maps(after, e, v, f) {
      var e: nat, v: nat :| Maps(vm, e, v, f);
      assert Maps(after, e, v, f);
    }
    forall e: nat, v: nat, f: nat | Maps(after, e, v, f) ensures f in after.frames.mapped {
      assert Maps(vm, e, v, f);
    }
  }

  // ---------- Destroying page by page ----------

  /** The bitmaps when the pages below `pages` and the tables below slot `tables` of d have been given back. */
  function Reclaimed(vm: Vm, d: nat, pages: nat, tables: nat): Frames
    requires pages <= END_USER_SLOT * ENTRIES && tables <= END_USER_SLOT
  {
    var freed := FramesBelow(vm, d, pages) + TablesBelow(vm, d, tables);
    vm.frames.(used := vm.frames.used - freed, owned := vm.frames.owned - freed, mapped := vm.frames.mapped - FramesBelow(vm, d, pages))
  }

  lemma FramesBelowNext(vm: Vm, d: nat, v: nat)
    requires FIRST_USER_SLOT * ENTRIES <= v < END_USER_SLOT * ENTRIES
    ensures FramesBelow(vm, d, v + 1) == FramesBelow(vm, d, v) + if HoldsUser(vm, d, v) then {Lookup(vm, d, v).frame} else {}
  {
    var more := FramesBelow(vm, d, v + 1);
    forall f | f in FramesBelow(vm, d, v) ensures f in more {
    }
    forall f | f in more ensures f in FramesBelow(vm, d, v) || (HoldsUser(vm, d, v) && f == Lookup(vm, d, v).frame) {
      var w :| FIRST_USER_SLOT * ENTRIES <= w < v + 1 && HoldsUser(vm, d, w) && Lookup(vm, d, w).frame == f;
      assert w < v ==> f in FramesBelow(vm, d, v);
    }
  }

  lemma TablesBelowNext(vm: Vm, d: nat, i: nat)
    requires FIRST_USER_SLOT <= i < END_USER_SLOT
    ensures TablesBelow(vm, d, i + 1) == TablesBelow(vm, d, i) + if PrivateAt(vm, d, i) then {Pde(vm, d, i).frame} else {}
  {
  }

  /** Giving back one page, as the second pass does it, whatever else maps its frame. */
  lemma ReclaimPage(vm: Vm, d: nat, v: nat, i: nat)
    requires Inv(vm) && DestroyAllowed(vm, d) && FIRST_USER_SLOT * ENTRIES <= v < END_USER_SLOT * ENTRIES
    requires i == v / ENTRIES && PrivateAt(vm, d, i)
    ensures var e, before := Lookup(vm, d, v), Reclaimed(vm, d, v, i);
            Reclaimed(vm, d, v + 1, i) ==
              if e.Absent? then before else Free(if e.flags.user then Release(before, e.frame) else before, e.frame)
  {
    hide Tree, UserTable;
    var e, before := Lookup(vm, d, v), Reclaimed(vm, d, v, i);
    FramesBelowNext(vm, d, v);
    assert IsDir(vm, d);
    if e.Present? {
      var f := e.frame;
      assert f in vm.frames.mapped && UserOwned(vm.frames, f) by {
        assert UserTable(vm, Pde(vm, d, i).frame);
        TableEntry(vm, Pde(vm, d, i).frame, v % ENTRIES);
      }
      TablesAreKernel(vm, d, i);
      FramesValid(vm);
      if e.flags.user {
        assert Maps(vm, d, v, f);
        assert f !in FramesBelow(vm, d, v) by {
          NotYet(vm, d, v, f);
        }
      }
    }
  }

  lemma TableEntry(vm: Vm, t: nat, j: nat)
    requires UserTable(vm, t) && j < ENTRIES && At(vm, t)[j].Present?
    ensures UserOwned(vm.frames, At(vm, t)[j].frame) && At(vm, t)[j].frame in vm.frames.mapped
  {
  }

  lemma TablesAreKernel(vm: Vm, d: nat, end: nat)
    requires Structure(vm) && IsDir(vm, d) && end <= END_USER_SLOT
    ensures forall t :: t in TablesBelow(vm, d, end) ==> StructureFrame(vm, t) && !IsDir(vm, t)
  {
  }

  lemma NotYet(vm: Vm, d: nat, v: nat, f: nat)
    requires Users(vm) && v <= END_USER_SLOT * ENTRIES && Maps(vm, d, v, f)
    ensures f !in FramesBelow(vm, d, v)
  {
    if f in FramesBelow(vm, d, v) {
      var w :| FIRST_USER_SLOT * ENTRIES <= w < v && HoldsUser(vm, d, w) && Lookup(vm, d, w).frame == f;
      assert Maps(vm, d, w, f);
    }
  }

  /** Giving back one table after its pages. */
  lemma ReclaimTable(vm: Vm, d: nat, i: nat)
    requires Inv(vm) && DestroyAllowed(vm, d) && FIRST_USER_SLOT <= i < END_USER_SLOT && PrivateAt(vm, d, i)
    ensures Free(Reclaimed(vm, d, (i + 1) * ENTRIES, i), Pde(vm, d, i).frame) == Reclaimed(vm, d, (i + 1) * ENTRIES, i + 1)
  {
    hide Tree, Users;
    var t := Pde(vm, d, i).frame;
    TablesBelowNext(vm, d, i);
    assert IsDir(vm, d);
    TablesAreKernel(vm, d, i + 1);
    assert StructureFrame(vm, t);
    FramesValid(vm);
    FramesAreMapped(vm, d, (i + 1) * ENTRIES);
    assert t !in TablesBelow(vm, d, i) by {
      TableNotYet(vm, d, i);
    }
  }

  lemma TableNotYet(vm: Vm, d: nat, i: nat)
    requires Structure(vm) && IsDir(vm, d) && i < END_USER_SLOT && Pde(vm, d, i).Present?
    ensures Pde(vm, d, i).frame !in TablesBelow(vm, d, i)
  {
    if Pde(vm, d, i).frame in TablesBelow(vm, d, i) {
      var k :| FIRST_USER_SLOT <= k < i && PrivateAt(vm, d, k) && Pde(vm, d, k).frame == Pde(vm, d, i).frame;
      assert SameTable(vm, d, k, d, i);
    }
  }

  lemma FramesAreMapped(vm: Vm, d: nat, end: nat)
    requires Users(vm) && IsDir(vm, d) && end <= END_USER_SLOT * ENTRIES
    ensures FramesBelow(vm, d, end) <= vm.frames.mapped
  {
    forall f | f in FramesBelow(vm, d, end) ensures f in vm.frames.mapped {
      var w :| FIRST_USER_SLOT * ENTRIES <= w < end && HoldsUser(vm, d, w) && Lookup(vm, d, w).frame == f;
      assert Maps(vm, d, w, f);
    }
  }

  /** A slot without a table of its own contributes nothing. */
  lemma {:induction false} SkipSlot(vm: Vm, d: nat, i: nat, v: nat)
    requires FIRST_USER_SLOT <= i < END_USER_SLOT && !PrivateAt(vm, d, i) && i * ENTRIES <= v <= (i + 1) * ENTRIES
    ensures FramesBelow(vm, d, v) == FramesBelow(vm, d, i * ENTRIES)
    decreases v
  {
    if v > i * ENTRIES {
      SkipSlot(vm, d, i, v - 1);
      FramesBelowNext(vm, d, v - 1);
    }
  }

  /** The page-by-page pass ends where the whole-space account says. */
  lemma ReclaimedAll(vm: Vm, d: nat)
    requires Inv(vm) && DestroyAllowed(vm, d)
    ensures Free(Reclaimed(vm, d, END_USER_SLOT * ENTRIES, END_USER_SLOT), d) == DestroySpace(vm, d).0.frames
  {
    hide Tree, Users;
    assert IsDir(vm, d) && StructureFrame(vm, d);
    FramesValid(vm);
    FramesAreMapped(vm, d, END_USER_SLOT * ENTRIES);
    TablesAreKernel(vm, d, END_USER_SLOT);
  }

  // ---------- Runs ----------

  datatype Event =
    | AllocKernel(limit: u32)
    | AllocUserFrame
    | FreeFrame(address: u32)
    | Map(va: u32, pa: u32, flags: Flags, otherBits: bool)
    | Protect(va: u32, flags: Flags, otherBits: bool)
    | Unmap(va: u32)
    | Create
    | Switch(address: u32)
    | Destroy(address: u32)

  function Step(vm: Vm, ev: Event): Vm {
    match ev
    case AllocKernel(limit) => vm.(frames := AllocBelow(vm.frames, limit).0)
    case AllocUserFrame => vm.(frames := AllocUser(vm.frames).0)
    case FreeFrame(address) => if address % PAGE_SIZE != 0 then vm else vm.(frames := Free(vm.frames, address / PAGE_SIZE))
    case Map(va, pa, flags, otherBits) => MapPage(vm, va, pa, flags, otherBits).0
    case Protect(va, flags, otherBits) => ProtectPage(vm, va, flags, otherBits).0
    case Unmap(va) => UnmapPage(vm, va).0
    case Create => CreateSpace(vm).0
    case Switch(address) => if address % PAGE_SIZE != 0 then vm else SwitchSpace(vm, address / PAGE_SIZE).0
    case Destroy(address) => if address % PAGE_SIZE != 0 then vm else DestroySpace(vm, address / PAGE_SIZE).0
  }

  /**
   * What the callers owe: they free only frames that are not page structures, and do not unmap the last page
   * of a kernel table while a private directory still points at that table.
   */
  ghost predicate Admissible(vm: Vm, ev: Event) {
    match ev
    case FreeFrame(address) => !InUse(vm, address / PAGE_SIZE)
    case Unmap(va) => !Dangling(vm, va)
    case _ => true
  }

  function Run(vm: Vm, events: seq<Event>): Vm
    decreases |events|
  {
    if events == [] then vm else Run(Step(vm, events[0]), events[1..])
  }

  ghost predicate AdmissibleRun(vm: Vm, events: seq<Event>)
    decreases |events|
  {
    events == [] || (Admissible(vm, events[0]) && AdmissibleRun(Step(vm, events[0]), events[1..]))
  }

  /** Bitmap operations of clients leave page structures and claims alone. */
  lemma ClientFrames(vm: Vm, frames: Frames)
    requires Inv(vm) && Valid(frames) && frames.mapped == vm.frames.mapped
    requires forall f :: InUse(vm, f) ==> f in frames.usable && f in frames.used && f !in frames.owned
    ensures Inv(vm.(frames := frames))
  {
    FramesChanged(vm, frames);
    UsersKept(vm, vm.(frames := frames));
  }

  lemma StepKeepsInv(vm: Vm, ev: Event)
    requires Inv(vm) && Admissible(vm, ev)
    ensures Inv(Step(vm, ev))
  {
    hide Tree, Users, WriteXorExecute, Registry;
    InUseIsStructure(vm);
    match ev
    case AllocKernel(limit) =>
      FramesValid(vm);
      AllocBelowValid(vm.frames, limit);
      ClientFrames(vm, AllocBelow(vm.frames, limit).0);
    case AllocUserFrame =>
      FramesValid(vm);
      AllocUserValid(vm.frames);
      ClientFrames(vm, AllocUser(vm.frames).0);
    case FreeFrame(address) =>
      FramesValid(vm);
      FreeValid(vm.frames, address / PAGE_SIZE);
      ClientFrames(vm, Free(vm.frames, address / PAGE_SIZE));
    case Map(va, pa, flags, otherBits) => MapEffect(vm, va, pa, flags, otherBits);
    case Protect(va, flags, otherBits) => ProtectEffect(vm, va, flags, otherBits);
    case Unmap(va) => UnmapEffect(vm, va);
    case Create => CreateEffect(vm);
    case Switch(address) => SwitchEffect(vm, address / PAGE_SIZE);
    case Destroy(address) => DestroyEffect(vm, address / PAGE_SIZE);
  }

  lemma FramesValid(vm: Vm)
    requires Inv(vm)
    ensures Valid(vm.frames)
  {
  }

  lemma {:induction false} RunKeepsInv(vm: Vm, events: seq<Event>)
    requires Inv(vm) && AdmissibleRun(vm, events)
    ensures Inv(Run(vm, events))
    decreases |events|
  {
    hide Inv, Step, Admissible;
    if events != [] {
      StepKeepsInv(vm, events[0]);
      RunKeepsInv(Step(vm, events[0]), events[1..]);
    }
  }

  /** One and only one user entry, over all registered directories, holds frame f. */
  ghost predicate HeldOnce(vm: Vm, f: nat) {
    exists d: nat, v: nat :: Maps(vm, d, v, f) && forall e: nat, w: nat :: Maps(vm, e, w, f) ==> e == d && w == v
  }

  /**
   * User-frame exclusivity in every reachable state: a frame is claimed exactly when one and only one user
   * entry holds it; such a frame is in use, cannot be freed, and no allocation returns it. No page anywhere is
   * writable and executable.
   */
  lemma FrameExclusivity(vm: Vm, events: seq<Event>)
    requires Inv(vm) && AdmissibleRun(vm, events)
    ensures var end := Run(vm, events);
            && (forall f: nat :: f in end.frames.mapped <==> HeldOnce(end, f))
            && (forall f: nat, d: nat, v: nat :: Maps(end, d, v, f) ==>
                  && f in end.frames.used && Free(end.frames, f) == end.frames && AllocUser(end.frames).1 != Some(f)
                  && forall limit: u32 :: AllocBelow(end.frames, limit).1 != Some(f))
            && WriteXorExecute(end)
  {
    hide Tree, Registry, Step;
    RunKeepsInv(vm, events);
    var end := Run(vm, events);
    FramesValid(end);
    forall f: nat | f in end.frames.mapped ensures HeldOnce(end, f) {
      var d: nat, v: nat :| Maps(end, d, v, f);
    }
    forall f: nat, d: nat, v: nat | Maps(end, d, v, f)
      ensures f in end.frames.used && AllocUser(end.frames).1 != Some(f)
      ensures forall limit: u32 :: AllocBelow(end.frames, limit).1 != Some(f)
    {
      assert f in end.frames.mapped;
    }
  }

  // ---------- The start, and the one way out of the invariant ----------

  /** The state paging starts from: a directory and an identity table over the first 4 MiB, page 0 left out. */
  function InitialVm(frames: Frames): Option<Vm> {
    var (f1, d) := AllocBelow(frames, LOW_IDENTITY_LIMIT);
    var (f2, t) := AllocBelow(f1, LOW_IDENTITY_LIMIT);
    if d.None? || t.None? then None
    else
      var identity: Table := seq(ENTRIES, (j: nat) => if j == 0 then Absent else Present(j, Flags(true, false, false, false)));
      var directory: Table := EmptyTable()[0 := Present(t.value, Flags(true, false, false, false))];
      Some(Vm(f2, map[d.value := directory, t.value := identity], d.value, d.value, []))
  }

  lemma InitialInv(frames: Frames)
    requires Valid(frames) && frames.mapped == {}
    ensures InitialVm(frames).Some? ==> Inv(InitialVm(frames).value)
  {
    if InitialVm(frames).Some? {
      var vm := InitialVm(frames).value;
      var (f1, d) := AllocBelow(frames, LOW_IDENTITY_LIMIT);
      AllocBelowValid(frames, LOW_IDENTITY_LIMIT);
      AllocBelowValid(f1, LOW_IDENTITY_LIMIT);
      var t := AllocBelow(f1, LOW_IDENTITY_LIMIT).1.value;
      assert d.value != t;
      assert forall e :: IsDir(vm, e) ==> e == vm.kernel;
      assert forall i :: 0 <= i < ENTRIES && Pde(vm, vm.kernel, i).Present? ==> i == 0 && Pde(vm, vm.kernel, i).frame == t;
      assert forall e: nat, v: nat, f: nat :: !Maps(vm, e, v, f);
    }
  }

  /**
   * The exception is reachable: whenever a kernel page is alone in its table, creating a space and then
   * unmapping that page under the kernel directory leaves the new space pointing at a freed frame.
   */
  lemma CreateThenUnmapDangles(vm: Vm, va: u32)
    requires Inv(vm) && vm.current == vm.kernel && CreateSpace(vm).1.Some? && UnmapPage(vm, va).1.Some?
    requires forall j :: 0 <= j < ENTRIES && j != va / PAGE_SIZE % ENTRIES ==>
               At(vm, Pde(vm, vm.kernel, va / PAGE_SIZE / ENTRIES).frame)[j].Absent?
    ensures Dangling(CreateSpace(vm).0, va) && !Inv(UnmapPage(CreateSpace(vm).0, va).0)
  {
    var (after, r) := CreateSpace(vm);
    CreateEffect(vm);
    CreateSlots(vm, r.value);
    var i := va / PAGE_SIZE / ENTRIES;
    assert IsDir(vm, vm.kernel) && IsDir(after, r.value) && SameTable(after, after.current, i, r.value, i);
    UnmapEffect(after, va);
  }

  /**
   * Isolation: under a private directory, mapping, protecting or unmapping a page changes the translation of
   * that page there and no other translation, in the kernel or in any space.
   */
  lemma PrivateIsolation(vm: Vm, ev: Event, d: nat, w: nat)
    requires Inv(vm) && vm.current != vm.kernel && (ev.Map? || ev.Protect? || ev.Unmap?)
    requires IsDir(vm, d) && w < PAGES && (d != vm.current || w != ev.va / PAGE_SIZE)
    ensures Lookup(Step(vm, ev), d, w) == Lookup(vm, d, w)
  {
    hide Inv, Lookup, MapPage, ProtectPage, UnmapPage;
    match ev
    case Map(va, pa, flags, otherBits) => MapEffect(vm, va, pa, flags, otherBits);
    case Protect(va, flags, otherBits) => ProtectEffect(vm, va, flags, otherBits);
    case Unmap(va) => UnmapEffect(vm, va);
    case _ =>
  }
}
