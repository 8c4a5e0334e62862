/**
 * Two-level page tables in physical frames, private directories that share the kernel's tables, and the flat
 * translation they stand for.
 */
module AddressSpace {
  import opened Bytes
  import opened Frames

  const PAGE_SIZE: nat := 0x1000
  const ENTRIES: nat := 1024
  const PAGES: nat := 0x10_0000
  const LOW_IDENTITY_LIMIT: u32 := 0x40_0000
  const USER_MIN_ADDRESS: nat := 0x40_0000
  const USER_ADDRESS_LIMIT: nat := 0xC000_0000
  const MAX_SPACES: nat := 16

  datatype Flags = Flags(writable: bool, user: bool, cacheDisable: bool, executable: bool)

  /** A directory or table entry: clear, or present with a frame and flags. */
  datatype Entry = Absent | Present(frame: nat, flags: Flags)

  type Table = t: seq<Entry> | |t| == ENTRIES witness seq(1024, _ => Absent)

  function EmptyTable(): (t: Table)
    ensures IsEmptyTable(t)
  {
    seq(ENTRIES, _ => Absent)
  }

  /** `mem` holds the frames that serve as directories and tables; `spaces` is the registry of private directories. */
  datatype Vm = Vm(frames: Frames, mem: map<nat, Table>, kernel: nat, current: nat, spaces: seq<nat>)

  function At(vm: Vm, f: nat): Table {
    if f in vm.mem then vm.mem[f] else EmptyTable()
  }

  function Pde(vm: Vm, d: nat, i: nat): Entry
    requires i < ENTRIES
  {
    At(vm, d)[i]
  }

  /** The flat translation: what page v means under directory d. */
  function Lookup(vm: Vm, d: nat, v: nat): Entry
    requires v < PAGES
  {
    match Pde(vm, d, v / ENTRIES)
    case Absent => Absent
    case Present(t, _) => At(vm, t)[v % ENTRIES]
  }

  function SetAt(vm: Vm, f: nat, j: nat, e: Entry): Vm
    requires j < ENTRIES
  {
    vm.(mem := vm.mem[f := At(vm, f)[j := e]])
  }

  ghost predicate IsDir(vm: Vm, d: nat) {
    d == vm.kernel || d in vm.spaces
  }

  /** A frame fit to hold page structures: identity-mapped, managed, in use and not a user frame. */
  predicate StructureFrame(vm: Vm, f: nat) {
    LOW_MEMORY_BLOCKS <= f < LOW_IDENTITY_LIMIT / PAGE_SIZE && f in vm.frames.usable && f in vm.frames.used && f !in vm.frames.owned
  }

  /** The table of directory slot i under d is the kernel's own. */
  predicate SharedAt(vm: Vm, d: nat, i: nat)
    requires i < ENTRIES
  {
    Pde(vm, vm.kernel, i).Present? && Pde(vm, d, i).Present? && Pde(vm, vm.kernel, i).frame == Pde(vm, d, i).frame
  }

  predicate SameTable(vm: Vm, d: nat, i: nat, e: nat, j: nat)
    requires i < ENTRIES && j < ENTRIES
  {
    Pde(vm, d, i).Present? && Pde(vm, e, j).Present? && Pde(vm, d, i).frame == Pde(vm, e, j).frame
  }

  predicate NoRepeats(s: seq<nat>) {
    forall i, j :: 0 <= i < j < |s| ==> s[i] != s[j]
  }

  ghost predicate Registry(vm: Vm) {
    && Valid(vm.frames)
    && IsDir(vm, vm.current) && vm.kernel !in vm.spaces && |vm.spaces| <= MAX_SPACES
    && NoRepeats(vm.spaces) && (forall d :: IsDir(vm, d) ==> StructureFrame(vm, d))
  }

  /** Tables lie in structure frames that are no directories, and only kernel tables are pointed at twice. */
  ghost predicate Tree(vm: Vm) {
    && (forall d, i :: IsDir(vm, d) && 0 <= i < ENTRIES && Pde(vm, d, i).Present? ==>
          StructureFrame(vm, Pde(vm, d, i).frame) && !IsDir(vm, Pde(vm, d, i).frame))
    && (forall d, i, e, j | IsDir(vm, d) && IsDir(vm, e) && 0 <= i < ENTRIES && 0 <= j < ENTRIES &&
                            SameTable(vm, d, i, e, j) :: i == j && (d == e || SharedAt(vm, d, i)))
  }

  ghost predicate Structure(vm: Vm) {
    Registry(vm) && Tree(vm)
  }

  ghost predicate SameLookups(vm: Vm, after: Vm) {
    forall d, v :: IsDir(vm, d) && 0 <= v < PAGES ==> Lookup(after, d, v) == Lookup(vm, d, v)
  }

  // ---------- Directory slots ----------

  predicate AllowsUser(t: Table) {
    forall j :: 0 <= j < ENTRIES ==> t[j].Present? ==> t[j].flags.user
  }

  predicate IsEmptyTable(t: Table) {
    forall j :: 0 <= j < ENTRIES ==> t[j].Absent?
  }

  /** The table for slot i of the current directory, created on demand. */
  function EnsureTable(vm: Vm, i: nat, user: bool): (Vm, Option<nat>)
    requires i < ENTRIES
  {
    var pde := Pde(vm, vm.current, i);
    if pde.Present? then
      if vm.current != vm.kernel && SharedAt(vm, vm.current, i) then (vm, None)
      else if !user then (vm, Some(pde.frame))
      else if !AllowsUser(At(vm, pde.frame)) then (vm, None)
      else (SetAt(vm, vm.current, i, pde.(flags := pde.flags.(user := true))), Some(pde.frame))
    else
      match AllocBelow(vm.frames, LOW_IDENTITY_LIMIT)
      case (frames, None) => (vm, None)
      case (frames, Some(t)) =>
        var cleared := vm.(frames := frames, mem := vm.mem[t := EmptyTable()]);
        (SetAt(cleared, vm.current, i, Present(t, Flags(true, user, false, false))), Some(t))
  }

  lemma RegistryKept(vm: Vm, after: Vm)
    requires Registry(vm) && after.kernel == vm.kernel && after.spaces == vm.spaces && IsDir(vm, after.current)
    requires Valid(after.frames) && forall d :: IsDir(vm, d) ==> StructureFrame(after, d)
    ensures Registry(after)
  {
    forall d | IsDir(after, d) ensures StructureFrame(after, d) {
      assert IsDir(vm, d);
    }
  }

  /** A change that keeps every directory's table pointers keeps the tree. */
  lemma TreeKept(vm: Vm, after: Vm)
    requires Tree(vm) && after.kernel == vm.kernel && after.spaces == vm.spaces
    requires forall d, i :: IsDir(vm, d) && 0 <= i < ENTRIES && Pde(vm, d, i).Present? ==> StructureFrame(after, Pde(vm, d, i).frame)
    requires forall d, i :: IsDir(vm, d) && 0 <= i < ENTRIES ==> SamePointer(Pde(vm, d, i), Pde(after, d, i))
    ensures Tree(after)
  {
    forall d, i | IsDir(after, d) && 0 <= i < ENTRIES && Pde(after, d, i).Present?
      ensures StructureFrame(after, Pde(after, d, i).frame) && !IsDir(after, Pde(after, d, i).frame)
    {
      assert IsDir(vm, d) && SamePointer(Pde(vm, d, i), Pde(after, d, i));
    }
    forall d, i, e, j | IsDir(after, d) && IsDir(after, e) && 0 <= i < ENTRIES && 0 <= j < ENTRIES && SameTable(after, d, i, e, j)
      ensures i == j && (d == e || SharedAt(after, d, i))
    {
      assert IsDir(vm, d) && IsDir(vm, e) && IsDir(vm, vm.kernel);
      assert SamePointer(Pde(vm, d, i), Pde(after, d, i)) && SamePointer(Pde(vm, e, j), Pde(after, e, j));
      assert SameTable(vm, d, i, e, j);
      assert SamePointer(Pde(vm, vm.kernel, i), Pde(after, vm.kernel, i));
    }
  }

  predicate SamePointer(p: Entry, q: Entry) {
    p.Present? == q.Present? && (p.Present? ==> p.frame == q.frame)
  }

  /** If directories keep their pointers and tables their contents, no translation changes. */
  lemma LookupsKept(vm: Vm, after: Vm)
    requires forall d, i :: IsDir(vm, d) && 0 <= i < ENTRIES ==> SamePointer(Pde(vm, d, i), Pde(after, d, i))
    requires forall d, i :: IsDir(vm, d) && 0 <= i < ENTRIES && Pde(vm, d, i).Present? ==> At(after, Pde(vm, d, i).frame) == At(vm, Pde(vm, d, i).frame)
    ensures SameLookups(vm, after)
  {
    forall d, v | IsDir(vm, d) && 0 <= v < PAGES ensures Lookup(after, d, v) == Lookup(vm, d, v) {
      assert SamePointer(Pde(vm, d, v / ENTRIES), Pde(after, d, v / ENTRIES));
    }
  }

  /** Of all directory slots, at most slot i of the current directory differs. */
  ghost predicate SlotOnly(vm: Vm, after: Vm, i: nat) {
    forall d, k :: IsDir(vm, d) && 0 <= k < ENTRIES && (d != vm.current || k != i) ==> Pde(after, d, k) == Pde(vm, d, k)
  }

  lemma SetUserBit(vm: Vm, i: nat)
    requires Structure(vm) && i < ENTRIES && Pde(vm, vm.current, i).Present?
    ensures var pde := Pde(vm, vm.current, i);
            var after := SetAt(vm, vm.current, i, pde.(flags := pde.flags.(user := true)));
            Structure(after) && SameLookups(vm, after) && SlotOnly(vm, after, i)
  {
    var pde := Pde(vm, vm.current, i);
    var after := SetAt(vm, vm.current, i, pde.(flags := pde.flags.(user := true)));
    RegistryKept(vm, after);
    TreeKept(vm, after);
    LookupsKept(vm, after);
  }

  lemma AddTable(vm: Vm, i: nat, t: nat, user: bool)
    requires Structure(vm) && i < ENTRIES && Pde(vm, vm.current, i).Absent?
    requires AllocBelow(vm.frames, LOW_IDENTITY_LIMIT).1 == Some(t)
    ensures var cleared := vm.(frames := AllocBelow(vm.frames, LOW_IDENTITY_LIMIT).0, mem := vm.mem[t := EmptyTable()]);
            var after := SetAt(cleared, vm.current, i, Present(t, Flags(true, user, false, false)));
            Structure(after) && SameLookups(vm, after) && SlotOnly(vm, after, i)
    ensures forall d, k :: IsDir(vm, d) && 0 <= k < ENTRIES && Pde(vm, d, k).Present? ==> Pde(vm, d, k).frame != t
  {
    AllocBelowValid(vm.frames, LOW_IDENTITY_LIMIT);
    var cleared := vm.(frames := AllocBelow(vm.frames, LOW_IDENTITY_LIMIT).0, mem := vm.mem[t := EmptyTable()]);
    var after := SetAt(cleared, vm.current, i, Present(t, Flags(true, user, false, false)));
    assert !IsDir(vm, t);
    RegistryKept(vm, cleared);
    TreeKept(vm, cleared);
    LookupsKept(vm, cleared);
    NewPointer(cleared, i, t, Flags(true, user, false, false));
  }

  /** A fresh empty table put into an empty slot. */
  lemma NewPointer(vm: Vm, i: nat, t: nat, flags: Flags)
    requires Structure(vm) && i < ENTRIES && Pde(vm, vm.current, i).Absent?
    requires StructureFrame(vm, t) && !IsDir(vm, t) && IsEmptyTable(At(vm, t))
    requires forall d, k :: IsDir(vm, d) && 0 <= k < ENTRIES && Pde(vm, d, k).Present? ==> Pde(vm, d, k).frame != t
    ensures var after := SetAt(vm, vm.current, i, Present(t, flags));
            Structure(after) && SameLookups(vm, after) && SlotOnly(vm, after, i)
  {
    var after := SetAt(vm, vm.current, i, Present(t, flags));
    forall d, k | IsDir(vm, d) && 0 <= k < ENTRIES
      ensures Pde(after, d, k) == if d == vm.current && k == i then Present(t, flags) else Pde(vm, d, k)
    {
    }
    forall d, k | IsDir(after, d) && 0 <= k < ENTRIES && Pde(after, d, k).Present?
      ensures StructureFrame(after, Pde(after, d, k).frame) && !IsDir(after, Pde(after, d, k).frame)
    {
      assert IsDir(vm, d);
    }
    forall d, k, e, j | IsDir(after, d) && IsDir(after, e) && 0 <= k < ENTRIES && 0 <= j < ENTRIES && SameTable(after, d, k, e, j)
      ensures k == j && (d == e || SharedAt(after, d, k))
    {
      assert IsDir(vm, d) && IsDir(vm, e) && IsDir(vm, vm.kernel);
      if Pde(after, d, k).frame != t {
        assert SameTable(vm, d, k, e, j);
      }
    }
    assert forall d :: IsDir(after, d) ==> IsDir(vm, d);
    forall d, v | IsDir(vm, d) && 0 <= v < PAGES ensures Lookup(after, d, v) == Lookup(vm, d, v) {
      var p := Pde(vm, d, v / ENTRIES);
      if p.Present? {
        assert At(after, p.frame) == At(vm, p.frame);
      }
    }
  }

  /** Creating a table on demand changes no translation and claims or releases no user frame. */
  lemma EnsureEffect(vm: Vm, i: nat, user: bool)
    requires Structure(vm) && i < ENTRIES
    ensures var (after, r) := EnsureTable(vm, i, user);
            && Structure(after) && SameLookups(vm, after) && SlotOnly(vm, after, i)
            && after.kernel == vm.kernel && after.current == vm.current && after.spaces == vm.spaces
            && (r.Some? ==> && Pde(after, vm.current, i).Present? && Pde(after, vm.current, i).frame == r.value
                            && (user ==> Pde(after, vm.current, i).flags.user))
            && (Pde(vm, vm.current, i).Present? ==>
                  && after.frames == vm.frames && SamePointer(Pde(vm, vm.current, i), Pde(after, vm.current, i))
                  && (Pde(vm, vm.current, i).flags.user ==> Pde(after, vm.current, i).flags.user))
            && (Pde(vm, vm.current, i).Absent? && r.Some? ==>
                  && after.frames == vm.frames.(used := vm.frames.used + {r.value}) && r.value !in vm.frames.used
                  && IsEmptyTable(At(after, r.value))
                  && (forall d, k :: IsDir(vm, d) && 0 <= k < ENTRIES && Pde(vm, d, k).Present? ==> Pde(vm, d, k).frame != r.value))
            && (r.None? ==> after == vm)
  {
    var (after, r) := EnsureTable(vm, i, user);
    if Pde(vm, vm.current, i).Present? {
      SetUserBit(vm, i);
    } else if r.Some? {
      AllocBelowValid(vm.frames, LOW_IDENTITY_LIMIT);
      AddTable(vm, i, r.value, user);
      assert vm.frames.owned - {r.value} == vm.frames.owned;
      assert !IsDir(vm, r.value);
    }
  }

  // ---------- Table slots ----------

  /** Whether directory d translates page v through the table the current directory uses for it. */
  predicate Sees(vm: Vm, d: nat, v: nat)
    requires v < PAGES
  {
    d == vm.current || (vm.current == vm.kernel && SharedAt(vm, d, v / ENTRIES))
  }

  /** Exactly page v changed, to e, and only for the directories that share its table. */
  ghost predicate OnlyPage(vm: Vm, after: Vm, v: nat, e: Entry)
    requires v < PAGES
  {
    forall d, w :: IsDir(vm, d) && 0 <= w < PAGES ==>
      Lookup(after, d, w) == if w == v && Sees(vm, d, v) then e else Lookup(vm, d, w)
  }

  function PutEntry(vm: Vm, v: nat, e: Entry): Vm
    requires v < PAGES && Pde(vm, vm.current, v / ENTRIES).Present?
  {
    SetAt(vm, Pde(vm, vm.current, v / ENTRIES).frame, v % ENTRIES, e)
  }

  lemma PutEffect(vm: Vm, v: nat, e: Entry)
    requires Structure(vm) && v < PAGES && Pde(vm, vm.current, v / ENTRIES).Present?
    requires vm.current != vm.kernel ==> !SharedAt(vm, vm.current, v / ENTRIES)
    ensures Structure(PutEntry(vm, v, e)) && OnlyPage(vm, PutEntry(vm, v, e), v, e)
    ensures forall d, k :: IsDir(vm, d) && 0 <= k < ENTRIES ==> Pde(PutEntry(vm, v, e), d, k) == Pde(vm, d, k)
  {
    var i := v / ENTRIES;
    var t, after := Pde(vm, vm.current, i).frame, PutEntry(vm, v, e);
    assert IsDir(vm, vm.current) && !IsDir(vm, t);
    forall d, k | IsDir(vm, d) && 0 <= k < ENTRIES ensures Pde(after, d, k) == Pde(vm, d, k) {
    }
    RegistryKept(vm, after);
    TreeKept(vm, after);
    forall d, w | IsDir(vm, d) && 0 <= w < PAGES
      ensures Lookup(after, d, w) == if w == v && Sees(vm, d, v) then e else Lookup(vm, d, w)
    {
      var k := w / ENTRIES;
      assert Pde(after, d, k) == Pde(vm, d, k);
      if Pde(vm, d, k).Present? && Pde(vm, d, k).frame == t {
        assert SameTable(vm, vm.current, i, d, k);
        assert k == i && Sees(vm, d, v);
      }
    }
  }

  // ---------- User pages ----------

  /** A user page-table entry for page v under the registered directory d holds frame f. */
  ghost predicate Maps(vm: Vm, d: nat, v: nat, f: nat) {
    IsDir(vm, d) && v < PAGES && Lookup(vm, d, v).Present? && Lookup(vm, d, v).flags.user && Lookup(vm, d, v).frame == f
  }

  /** The claimed frames are those of user entries, each held by one entry, never through the kernel directory. */
  ghost predicate Users(vm: Vm) {
    && (forall d: nat, v: nat, f: nat :: Maps(vm, d, v, f) ==>
          && d != vm.kernel && f in vm.frames.mapped && Pde(vm, d, v / ENTRIES).Present? && Pde(vm, d, v / ENTRIES).flags.user
          && USER_MIN_ADDRESS <= v * PAGE_SIZE < USER_ADDRESS_LIMIT)
    && (forall d: nat, v: nat, e: nat, w: nat, f: nat :: Maps(vm, d, v, f) && Maps(vm, e, w, f) ==> d == e && v == w)
    && (forall f :: f in vm.frames.mapped ==> exists d: nat, v: nat :: Maps(vm, d, v, f))
  }

  /** No page is both writable and executable. */
  ghost predicate WriteXorExecute(vm: Vm) {
    forall d, v :: IsDir(vm, d) && 0 <= v < PAGES && Lookup(vm, d, v).Present? ==>
      !(Lookup(vm, d, v).flags.writable && Lookup(vm, d, v).flags.executable)
  }

  ghost predicate Inv(vm: Vm) {
    Structure(vm) && Users(vm) && WriteXorExecute(vm)
  }

  // ---------- Operations ----------

  /** The checks a mapping request must pass before any table is touched. */
  predicate MapAllowed(vm: Vm, va: u32, pa: u32, flags: Flags, otherBits: bool) {
    && va >= PAGE_SIZE && pa >= PAGE_SIZE && va % PAGE_SIZE == 0 && pa % PAGE_SIZE == 0
    && !otherBits && !(flags.writable && flags.executable)
    && (flags.user ==> UserOwned(vm.frames, pa / PAGE_SIZE) && vm.current != vm.kernel && USER_MIN_ADDRESS <= va < USER_ADDRESS_LIMIT)
    && !(vm.current != vm.kernel && SharedAt(vm, vm.current, va / 0x40_0000))
  }

  function MapPage(vm: Vm, va: u32, pa: u32, flags: Flags, otherBits: bool): (Vm, bool) {
    if !MapAllowed(vm, va, pa, flags, otherBits) then (vm, false)
    else
      var v, f := va / PAGE_SIZE, pa / PAGE_SIZE;
      var (ensured, t) := EnsureTable(vm, v / ENTRIES, flags.user);
      if t.None? || At(ensured, t.value)[v % ENTRIES].Present? then (ensured, false)
      else if !flags.user then (SetAt(ensured, t.value, v % ENTRIES, Present(f, flags)), true)
      else match Claim(ensured.frames, f)
           case (_, false) => (ensured, false)
           case (frames, true) => (SetAt(ensured.(frames := frames), t.value, v % ENTRIES, Present(f, flags)), true)
  }

  ghost predicate UserBitsKept(vm: Vm, after: Vm) {
    forall d: nat, v: nat, f: nat :: Maps(vm, d, v, f) ==> Pde(after, d, v / ENTRIES).Present? && Pde(after, d, v / ENTRIES).flags.user
  }

  lemma BitsFromSlots(vm: Vm, after: Vm)
    requires Users(vm)
    requires forall d, k :: IsDir(vm, d) && 0 <= k < ENTRIES && Pde(vm, d, k).Present? && Pde(vm, d, k).flags.user ==>
               Pde(after, d, k).Present? && Pde(after, d, k).flags.user
    ensures UserBitsKept(vm, after)
  {
  }

  lemma UsersKept(vm: Vm, after: Vm)
    requires Inv(vm) && Structure(after) && SameLookups(vm, after)
    requires after.kernel == vm.kernel && after.spaces == vm.spaces && after.frames.mapped == vm.frames.mapped
    requires UserBitsKept(vm, after)
    ensures Inv(after)
  {
    forall d: nat, v: nat, f: nat ensures Maps(after, d, v, f) == Maps(vm, d, v, f) {
      if v < PAGES && IsDir(vm, d) {
        assert Lookup(after, d, v) == Lookup(vm, d, v);
      }
    }
    forall f | f in after.frames.mapped ensures exists d: nat, v: nat :: Maps(after, d, v, f) {
      var d: nat, v: nat :| Maps(vm, d, v, f);
      assert Maps(after, d, v, f);
    }
  }

  /** Frame f serves as a registered directory or as a table of one. */
  ghost predicate InUse(vm: Vm, f: nat) {
    IsDir(vm, f) || exists d, i :: IsDir(vm, d) && 0 <= i < ENTRIES && Pde(vm, d, i).Present? && Pde(vm, d, i).frame == f
  }

  /** Bitmap changes that leave structure frames alone leave the tables alone. */
  lemma FramesChanged(vm: Vm, frames: Frames)
    requires Structure(vm) && Valid(frames)
    requires forall f :: InUse(vm, f) ==> f in frames.usable && f in frames.used && f !in frames.owned
    ensures Structure(vm.(frames := frames)) && SameLookups(vm, vm.(frames := frames))
  {
    RegistryKept(vm, vm.(frames := frames));
    forall d, i | IsDir(vm, d) && 0 <= i < ENTRIES && Pde(vm, d, i).Present?
      ensures StructureFrame(vm.(frames := frames), Pde(vm, d, i).frame)
    {
      assert InUse(vm, Pde(vm, d, i).frame);
    }
    TreeKept(vm, vm.(frames := frames));
  }

  lemma InUseIsStructure(vm: Vm)
    requires Structure(vm)
    ensures forall f :: InUse(vm, f) ==> StructureFrame(vm, f)
  {
  }

  function UserFrame(e: Entry): set<nat> {
    if e.Present? && e.flags.user then {e.frame} else {}
  }

  /** One page replaced, with the claims following: the general step behind map, protect and unmap. */
  lemma PageReplaced(vm: Vm, after: Vm, v: nat, e: Entry)
    requires Inv(vm) && Structure(after) && v < PAGES && OnlyPage(vm, after, v, e) && UserBitsKept(vm, after)
    requires after.kernel == vm.kernel && after.spaces == vm.spaces && after.current == vm.current
    requires after.frames.mapped == vm.frames.mapped - UserFrame(Lookup(vm, vm.current, v)) + UserFrame(e)
    requires e.Present? ==> !(e.flags.writable && e.flags.executable)
    requires e.Present? && e.flags.user ==>
               && vm.current != vm.kernel && e.frame !in vm.frames.mapped - UserFrame(Lookup(vm, vm.current, v))
               && Pde(after, vm.current, v / ENTRIES).Present? && Pde(after, vm.current, v / ENTRIES).flags.user
               && USER_MIN_ADDRESS <= v * PAGE_SIZE < USER_ADDRESS_LIMIT
    ensures Inv(after)
  {
    var was := Lookup(vm, vm.current, v);
    assert IsDir(vm, vm.current) && IsDir(vm, vm.kernel);
    forall d: nat, w: nat, f: nat | Maps(after, d, w, f)
      ensures if d == vm.current && w == v then e.Present? && e.flags.user && f == e.frame else Maps(vm, d, w, f)
    {
      assert Lookup(after, d, w) == if w == v && Sees(vm, d, v) then e else Lookup(vm, d, w);
    }
    if was.Present? && was.flags.user {
      assert Maps(vm, vm.current, v, was.frame);
    }
    forall f | f in after.frames.mapped ensures exists d: nat, w: nat :: Maps(after, d, w, f) {
      if f in UserFrame(e) {
        assert Maps(after, vm.current, v, f);
      } else {
        var d: nat, w: nat :| Maps(vm, d, w, f);
        assert d != vm.current || w != v;
        assert w == v && SharedAt(vm, d, v / ENTRIES) ==> Maps(vm, vm.kernel, v, f);
        assert Maps(after, d, w, f);
      }
    }
    forall d: nat, w: nat, d': nat, w': nat, f: nat | Maps(after, d, w, f) && Maps(after, d', w', f)
      ensures d == d' && w == w'
    {
      assert (d != vm.current || w != v) ==> Maps(vm, d, w, f);
      assert (d' != vm.current || w' != v) ==> Maps(vm, d', w', f);
    }
    forall d: nat, w: nat, f: nat | Maps(after, d, w, f)
      ensures d != vm.kernel && f in after.frames.mapped && Pde(after, d, w / ENTRIES).Present? && Pde(after, d, w / ENTRIES).flags.user
      ensures USER_MIN_ADDRESS <= w * PAGE_SIZE < USER_ADDRESS_LIMIT
    {
      if d != vm.current || w != v {
        assert Maps(vm, d, w, f);
        assert f in UserFrame(was) ==> Maps(vm, vm.current, v, f);
      }
    }
    forall d, w | IsDir(after, d) && 0 <= w < PAGES && Lookup(after, d, w).Present?
      ensures !(Lookup(after, d, w).flags.writable && Lookup(after, d, w).flags.executable)
    {
      assert IsDir(vm, d) && Lookup(after, d, w) == if w == v && Sees(vm, d, v) then e else Lookup(vm, d, w);
    }
  }

  /** Installing a page into a slot that is empty. */
  lemma InstallPage(vm: Vm, v: nat, f: nat, flags: Flags)
    requires Inv(vm) && v < PAGES && Pde(vm, vm.current, v / ENTRIES).Present? && Lookup(vm, vm.current, v).Absent?
    requires !(flags.writable && flags.executable)
    requires flags.user ==> vm.current != vm.kernel && Pde(vm, vm.current, v / ENTRIES).flags.user && Claim(vm.frames, f).1
    requires flags.user ==> USER_MIN_ADDRESS <= v * PAGE_SIZE < USER_ADDRESS_LIMIT
    requires vm.current != vm.kernel ==> !SharedAt(vm, vm.current, v / ENTRIES)
    ensures var frames := if flags.user then Claim(vm.frames, f).0 else vm.frames;
            var after := PutEntry(vm, v, Present(f, flags)).(frames := frames);
            Inv(after) && OnlyPage(vm, after, v, Present(f, flags))
  {
    hide Tree, Users, WriteXorExecute, Lookup;
    PutEffect(vm, v, Present(f, flags));
    var put := PutEntry(vm, v, Present(f, flags));
    var frames := if flags.user then Claim(vm.frames, f).0 else vm.frames;
    ClaimValid(vm.frames, f);
    InUseIsStructure(put);
    FramesChanged(put, frames);
    var after := put.(frames := frames);
    LookupIgnoresFrames(put, frames);
    BitsFromSlots(vm, after);
    PageReplaced(vm, after, v, Present(f, flags));
  }

  lemma LookupIgnoresFrames(vm: Vm, frames: Frames)
    ensures forall d, v {:trigger Lookup(vm.(frames := frames), d, v)} :: 0 <= d && 0 <= v < PAGES ==> Lookup(vm.(frames := frames), d, v) == Lookup(vm, d, v)
    ensures forall d, i {:trigger Pde(vm.(frames := frames), d, i)} :: 0 <= d && 0 <= i < ENTRIES ==> Pde(vm.(frames := frames), d, i) == Pde(vm, d, i)
  {
  }

  lemma SeesKept(vm: Vm, v: nat, user: bool)
    requires Structure(vm) && v < PAGES
    ensures forall d :: IsDir(vm, d) ==> Sees(EnsureTable(vm, v / ENTRIES, user).0, d, v) == Sees(vm, d, v)
  {
    hide Tree;
    EnsureEffect(vm, v / ENTRIES, user);
  }

  lemma OnlyPageVia(vm: Vm, ensured: Vm, after: Vm, v: nat, e: Entry)
    requires v < PAGES && SameLookups(vm, ensured) && OnlyPage(ensured, after, v, e)
    requires ensured.kernel == vm.kernel && ensured.spaces == vm.spaces
    requires forall d :: IsDir(vm, d) ==> Sees(ensured, d, v) == Sees(vm, d, v)
    ensures OnlyPage(vm, after, v, e)
  {
    hide Lookup, Sees;
    forall d, w | IsDir(vm, d) && 0 <= w < PAGES
      ensures Lookup(after, d, w) == if w == v && Sees(vm, d, v) then e else Lookup(vm, d, w)
    {
      assert IsDir(ensured, d) && Lookup(ensured, d, w) == Lookup(vm, d, w);
    }
  }

  /** A mapping request either installs exactly the requested page or changes no translation. */
  lemma MapEffect(vm: Vm, va: u32, pa: u32, flags: Flags, otherBits: bool)
    requires Inv(vm)
    ensures var (after, ok) := MapPage(vm, va, pa, flags, otherBits);
            && Inv(after)
            && (ok ==> Lookup(vm, vm.current, va / PAGE_SIZE).Absent? && OnlyPage(vm, after, va / PAGE_SIZE, Present(pa / PAGE_SIZE, flags)))
            && (!ok ==> SameLookups(vm, after))
  {
    hide Tree, Users, WriteXorExecute, EnsureTable;
    if MapAllowed(vm, va, pa, flags, otherBits) {
      var v, f := va / PAGE_SIZE, pa / PAGE_SIZE;
      var (ensured, t) := EnsureTable(vm, v / ENTRIES, flags.user);
      EnsureEffect(vm, v / ENTRIES, flags.user);
      BitsFromSlots(vm, ensured);
      UsersKept(vm, ensured);
      SeesKept(vm, v, flags.user);
      if t.Some? {
        assert Lookup(ensured, vm.current, v) == At(ensured, t.value)[v % ENTRIES];
        if Lookup(ensured, vm.current, v).Absent? && (flags.user ==> Claim(ensured.frames, f).1) {
          InstallPage(ensured, v, f, flags);
          OnlyPageVia(vm, ensured, MapPage(vm, va, pa, flags, otherBits).0, v, Present(f, flags));
        }
      }
    }
  }

  // ---------- Protect ----------

  function ProtectPage(vm: Vm, va: u32, flags: Flags, otherBits: bool): (Vm, bool) {
    var v := va / PAGE_SIZE;
    var pde := Pde(vm, vm.current, v / ENTRIES);
    if va < PAGE_SIZE || va % PAGE_SIZE != 0 || otherBits || (flags.writable && flags.executable) ||
       (flags.user && (vm.current == vm.kernel || va < USER_MIN_ADDRESS || va >= USER_ADDRESS_LIMIT)) ||
       (vm.current != vm.kernel && SharedAt(vm, vm.current, v / ENTRIES)) || pde.Absent? then (vm, false)
    else
      var e := Lookup(vm, vm.current, v);
      if e.Absent? || e.flags.user != flags.user || (flags.user && !UserOwned(vm.frames, e.frame)) then (vm, false)
      else
        var put := PutEntry(vm, v, Present(e.frame, flags));
        (if flags.user then SetAt(put, vm.current, v / ENTRIES, pde.(flags := pde.flags.(user := true))) else put, true)
  }

  /** Changing protection keeps the frame and every other page. */
  lemma ProtectEffect(vm: Vm, va: u32, flags: Flags, otherBits: bool)
    requires Inv(vm)
    ensures var (after, ok) := ProtectPage(vm, va, flags, otherBits);
            && Inv(after)
            && (ok ==> Lookup(vm, vm.current, va / PAGE_SIZE).Present? &&
                       OnlyPage(vm, after, va / PAGE_SIZE, Present(Lookup(vm, vm.current, va / PAGE_SIZE).frame, flags)))
            && (!ok ==> after == vm)
            && after.frames == vm.frames
  {
    hide Tree, WriteXorExecute;
    var (after, ok) := ProtectPage(vm, va, flags, otherBits);
    if ok {
      var v := va / PAGE_SIZE;
      var e := Lookup(vm, vm.current, v);
      var changed := Present(e.frame, flags);
      assert IsDir(vm, vm.current);
      assert flags.user ==> Maps(vm, vm.current, v, e.frame);
      PutEffect(vm, v, changed);
      var put := PutEntry(vm, v, changed);
      assert vm.frames.mapped - UserFrame(e) + UserFrame(changed) == vm.frames.mapped;
      PageReplaced(vm, put, v, changed);
      if flags.user {
        assert At(put, vm.current)[v / ENTRIES := Pde(put, vm.current, v / ENTRIES)] == At(put, vm.current);
        SetUserBit(put, v / ENTRIES);
        UsersKept(put, after);
        OnlyPageThen(vm, put, after, v, changed);
      }
    }
  }

  lemma OnlyPageThen(vm: Vm, put: Vm, after: Vm, v: nat, e: Entry)
    requires v < PAGES && OnlyPage(vm, put, v, e) && SameLookups(put, after)
    requires put.kernel == vm.kernel && put.spaces == vm.spaces
    ensures OnlyPage(vm, after, v, e)
  {
    hide Lookup, Sees;
    forall d, w | IsDir(vm, d) && 0 <= w < PAGES
      ensures Lookup(after, d, w) == if w == v && Sees(vm, d, v) then e else Lookup(vm, d, w)
    {
      assert IsDir(put, d) && Lookup(after, d, w) == Lookup(put, d, w);
    }
  }

  // ---------- Unmap ----------

  /** The slot i of the current directory cleared and its table given back. */
  function DropTable(vm: Vm, i: nat, t: nat): Vm
    requires i < ENTRIES
  {
    SetAt(vm, vm.current, i, Absent).(frames := Free(vm.frames, t))
  }

  /** An aligned mapped page outside low memory, under a table of the current directory's own. */
  predicate UnmapAllowed(vm: Vm, va: u32) {
    var v := va / PAGE_SIZE;
    var i := v / ENTRIES;
    && va >= PAGE_SIZE && va % PAGE_SIZE == 0 && (vm.current == vm.kernel ==> va >= USER_MIN_ADDRESS)
    && (vm.current != vm.kernel ==> !SharedAt(vm, vm.current, i)) && Pde(vm, vm.current, i).Present?
    && Lookup(vm, vm.current, v).Present?
  }

  function UnmapPage(vm: Vm, va: u32): (Vm, Option<nat>) {
    if !UnmapAllowed(vm, va) then (vm, None)
    else
      var v := va / PAGE_SIZE;
      var i := v / ENTRIES;
      var e := Lookup(vm, vm.current, v);
      var frames := if e.flags.user then Release(vm.frames, e.frame) else vm.frames;
      var cleared := PutEntry(vm, v, Absent).(frames := frames);
      var t := Pde(vm, vm.current, i).frame;
      (if IsEmptyTable(At(cleared, t)) then DropTable(cleared, i, t) else cleared, Some(e.frame))
  }

  /** Another registered directory still points at the table in slot i of the current one. */
  ghost predicate StillUsed(vm: Vm, i: nat)
    requires i < ENTRIES
  {
    exists d :: IsDir(vm, d) && d != vm.current && SameTable(vm, vm.current, i, d, i)
  }

  lemma DropSlots(vm: Vm, i: nat, t: nat)
    requires Structure(vm) && i < ENTRIES && Pde(vm, vm.current, i).Present? && t == Pde(vm, vm.current, i).frame
    ensures forall d, k :: IsDir(vm, d) && 0 <= k < ENTRIES ==>
              Pde(DropTable(vm, i, t), d, k) == if d == vm.current && k == i then Absent else Pde(vm, d, k)
    ensures forall d, k :: IsDir(vm, d) && 0 <= k < ENTRIES && Pde(vm, d, k).Present? ==>
              At(DropTable(vm, i, t), Pde(vm, d, k).frame) == At(vm, Pde(vm, d, k).frame)
    ensures DropTable(vm, i, t).frames.used == vm.frames.used - {t} && DropTable(vm, i, t).frames.owned == vm.frames.owned
  {
    assert IsDir(vm, vm.current) && !IsDir(vm, t) && StructureFrame(vm, t);
  }

  lemma DropKeepsTree(vm: Vm, i: nat, t: nat)
    requires Structure(vm) && i < ENTRIES && Pde(vm, vm.current, i).Present? && t == Pde(vm, vm.current, i).frame && !StillUsed(vm, i)
    ensures Tree(DropTable(vm, i, t))
  {
    DropSlots(vm, i, t);
    var after := DropTable(vm, i, t);
    assert IsDir(vm, vm.current) && IsDir(vm, vm.kernel);
    forall d, k | IsDir(after, d) && 0 <= k < ENTRIES && Pde(after, d, k).Present?
      ensures StructureFrame(after, Pde(after, d, k).frame) && !IsDir(after, Pde(after, d, k).frame)
    {
      assert IsDir(vm, d);
      assert Pde(vm, d, k).frame == t ==> SameTable(vm, vm.current, i, d, k);
    }
    forall d, k, e, j | IsDir(after, d) && IsDir(after, e) && 0 <= k < ENTRIES && 0 <= j < ENTRIES && SameTable(after, d, k, e, j)
      ensures k == j && (d == e || SharedAt(after, d, k))
    {
      assert IsDir(vm, d) && IsDir(vm, e) && SameTable(vm, d, k, e, j);
      assert SameTable(vm, vm.current, i, d, i) ==> d == vm.current;
    }
  }

  /** Giving an empty table back is safe exactly when no other directory still points at it. */
  lemma DropEffect(vm: Vm, i: nat, t: nat)
    requires Inv(vm) && i < ENTRIES && Pde(vm, vm.current, i).Present? && t == Pde(vm, vm.current, i).frame && IsEmptyTable(At(vm, t))
    ensures SameLookups(vm, DropTable(vm, i, t))
    ensures !StillUsed(vm, i) <==> Inv(DropTable(vm, i, t))
  {
    var after := DropTable(vm, i, t);
    DropSlots(vm, i, t);
    assert IsDir(vm, vm.current) && !IsDir(vm, t) && StructureFrame(vm, t);
    forall d, v | IsDir(vm, d) && 0 <= v < PAGES ensures Lookup(after, d, v) == Lookup(vm, d, v) {
    }
    if StillUsed(vm, i) {
      var d :| IsDir(vm, d) && d != vm.current && SameTable(vm, vm.current, i, d, i);
      assert IsDir(after, d) && Pde(after, d, i).frame == t && !StructureFrame(after, t);
    } else {
      DropKeepsTree(vm, i, t);
      FreeValid(vm.frames, t);
      RegistryKept(vm, after);
      forall d: nat, v: nat, f: nat | Maps(vm, d, v, f)
        ensures Pde(after, d, v / ENTRIES).Present? && Pde(after, d, v / ENTRIES).flags.user
      {
        assert At(vm, t)[v % ENTRIES].Absent?;
      }
      UsersKept(vm, after);
    }
  }

  /** The unmap would empty a table that another registered directory still points at. */
  ghost predicate Dangling(vm: Vm, va: u32) {
    var v := va / PAGE_SIZE;
    && UnmapAllowed(vm, va) && StillUsed(vm, v / ENTRIES)
    && forall j :: 0 <= j < ENTRIES && j != v % ENTRIES ==> At(vm, Pde(vm, vm.current, v / ENTRIES).frame)[j].Absent?
  }

  lemma ClearPage(vm: Vm, v: nat)
    requires Inv(vm) && v < PAGES && Pde(vm, vm.current, v / ENTRIES).Present? && Lookup(vm, vm.current, v).Present?
    requires vm.current != vm.kernel ==> !SharedAt(vm, vm.current, v / ENTRIES)
    ensures var e := Lookup(vm, vm.current, v);
            var frames := if e.flags.user then Release(vm.frames, e.frame) else vm.frames;
            var cleared := PutEntry(vm, v, Absent).(frames := frames);
            && Inv(cleared) && OnlyPage(vm, cleared, v, Absent)
            && (forall d, k :: IsDir(vm, d) && 0 <= k < ENTRIES ==> Pde(cleared, d, k) == Pde(vm, d, k))
  {
    hide Tree, Users, WriteXorExecute, Lookup;
    var e := Lookup(vm, vm.current, v);
    var frames := if e.flags.user then Release(vm.frames, e.frame) else vm.frames;
    PutEffect(vm, v, Absent);
    var put := PutEntry(vm, v, Absent);
    ClaimValid(vm.frames, e.frame);
    InUseIsStructure(put);
    FramesChanged(put, frames);
    LookupIgnoresFrames(put, frames);
    BitsFromSlots(vm, put.(frames := frames));
    PageReplaced(vm, put.(frames := frames), v, Absent);
  }

  /**
   * Unmapping removes exactly the page, and keeps the whole invariant exactly when it does not give back a
   * kernel table that a private directory still points at.
   */
  lemma UnmapEffect(vm: Vm, va: u32)
    requires Inv(vm)
    ensures var (after, r) := UnmapPage(vm, va);
            && (r.None? ==> after == vm)
            && (r.Some? ==> && Lookup(vm, vm.current, va / PAGE_SIZE).Present? && r.value == Lookup(vm, vm.current, va / PAGE_SIZE).frame
                            && OnlyPage(vm, after, va / PAGE_SIZE, Absent))
            && (Inv(after) <==> !Dangling(vm, va))
  {
    hide Tree, Users, WriteXorExecute;
    var (after, r) := UnmapPage(vm, va);
    if r.Some? {
      var v := va / PAGE_SIZE;
      var i := v / ENTRIES;
      var e, t := Lookup(vm, vm.current, v), Pde(vm, vm.current, i).frame;
      ClearPage(vm, v);
      var frames := if e.flags.user then Release(vm.frames, e.frame) else vm.frames;
      var cleared := PutEntry(vm, v, Absent).(frames := frames);
      assert IsDir(vm, vm.current);
      assert forall j :: 0 <= j < ENTRIES && j != v % ENTRIES ==> At(cleared, t)[j] == At(vm, t)[j];
      assert At(cleared, t)[v % ENTRIES] == Absent;
      assert StillUsed(cleared, i) <==> StillUsed(vm, i) by {
        StillUsedKept(vm, cleared, i);
      }
      if IsEmptyTable(At(cleared, t)) {
        DropEffect(cleared, i, t);
        OnlyPageThen(vm, cleared, after, v, Absent);
      }
    }
  }

  lemma StillUsedKept(vm: Vm, after: Vm, i: nat)
    requires i < ENTRIES && after.kernel == vm.kernel && after.spaces == vm.spaces && after.current == vm.current && IsDir(vm, vm.current)
    requires forall d, k :: IsDir(vm, d) && 0 <= k < ENTRIES ==> Pde(after, d, k) == Pde(vm, d, k)
    ensures StillUsed(after, i) <==> StillUsed(vm, i)
  {
    if StillUsed(vm, i) {
      var d :| IsDir(vm, d) && d != vm.current && SameTable(vm, vm.current, i, d, i);
      assert IsDir(after, d) && SameTable(after, vm.current, i, d, i);
    }
    if StillUsed(after, i) {
      var d :| IsDir(after, d) && d != vm.current && SameTable(after, vm.current, i, d, i);
      assert IsDir(vm, d) && SameTable(vm, vm.current, i, d, i);
    }
  }

  // ---------- Spaces ----------

  function CreateSpace(vm: Vm): (Vm, Option<nat>) {
    if |vm.spaces| == MAX_SPACES then (vm, None)
    else match AllocBelow(vm.frames, LOW_IDENTITY_LIMIT)
         case (_, None) => (vm, None)
         case (frames, Some(d)) => (vm.(frames := frames, mem := vm.mem[d := At(vm, vm.kernel)], spaces := vm.spaces + [d]), Some(d))
  }

  /** A new space translates exactly like the kernel, and creating it changes nothing for the others. */
  lemma CreateEffect(vm: Vm)
    requires Inv(vm)
    ensures var (after, r) := CreateSpace(vm);
            && Inv(after) && SameLookups(vm, after)
            && (r.Some? ==> && !IsDir(vm, r.value) && IsDir(after, r.value)
                            && forall v :: 0 <= v < PAGES ==> Lookup(after, r.value, v) == Lookup(vm, vm.kernel, v))
  {
    var (after, r) := CreateSpace(vm);
    if r.Some? {
      CreateStructure(vm, r.value);
      CreateUsers(vm, r.value);
    }
  }

  lemma CreateSlots(vm: Vm, d: nat)
    requires Structure(vm) && CreateSpace(vm).1 == Some(d)
    ensures var after := CreateSpace(vm).0;
            && !IsDir(vm, d) && Valid(after.frames)
            && (forall e :: IsDir(after, e) <==> IsDir(vm, e) || e == d)
            && (forall e, k :: IsDir(vm, e) && 0 <= k < ENTRIES ==> Pde(after, e, k) == Pde(vm, e, k))
            && (forall k :: 0 <= k < ENTRIES ==> Pde(after, d, k) == Pde(vm, vm.kernel, k))
            && (forall e, k :: IsDir(vm, e) && 0 <= k < ENTRIES && Pde(vm, e, k).Present? ==>
                  Pde(vm, e, k).frame != d && At(after, Pde(vm, e, k).frame) == At(vm, Pde(vm, e, k).frame))
            && (forall f :: StructureFrame(vm, f) ==> StructureFrame(after, f)) && StructureFrame(after, d)
  {
    AllocBelowValid(vm.frames, LOW_IDENTITY_LIMIT);
    assert !IsDir(vm, d) && IsDir(vm, vm.kernel);
    var after := CreateSpace(vm).0;
    forall e ensures IsDir(after, e) <==> IsDir(vm, e) || e == d {
      assert e in after.spaces <==> e in vm.spaces || e == d;
    }
  }

  lemma CreateStructure(vm: Vm, d: nat)
    requires Structure(vm) && CreateSpace(vm).1 == Some(d)
    ensures Structure(CreateSpace(vm).0)
  {
    hide AllocBelow;
    var after := CreateSpace(vm).0;
    CreateSlots(vm, d);
    assert IsDir(vm, vm.kernel) && IsDir(vm, vm.current);
    forall e, k | IsDir(after, e) && 0 <= k < ENTRIES && Pde(after, e, k).Present?
      ensures StructureFrame(after, Pde(after, e, k).frame) && !IsDir(after, Pde(after, e, k).frame)
    {
      assert IsDir(vm, if e == d then vm.kernel else e);
    }
    forall e, k, g, j | IsDir(after, e) && IsDir(after, g) && 0 <= k < ENTRIES && 0 <= j < ENTRIES && SameTable(after, e, k, g, j)
      ensures k == j && (e == g || SharedAt(after, e, k))
    {
      var e', g' := if e == d then vm.kernel else e, if g == d then vm.kernel else g;
      assert IsDir(vm, e') && IsDir(vm, g') && SameTable(vm, e', k, g', j);
    }
  }

  lemma CreateUsers(vm: Vm, d: nat)
    requires Inv(vm) && CreateSpace(vm).1 == Some(d)
    ensures var after := CreateSpace(vm).0;
            && Users(after) && WriteXorExecute(after) && SameLookups(vm, after)
            && forall v :: 0 <= v < PAGES ==> Lookup(after, d, v) == Lookup(vm, vm.kernel, v)
  {
    hide Tree;
    var after := CreateSpace(vm).0;
    CreateSlots(vm, d);
    assert IsDir(vm, vm.kernel);
    forall e, v | IsDir(vm, e) && 0 <= v < PAGES ensures Lookup(after, e, v) == Lookup(vm, e, v) {
    }
    forall v | 0 <= v < PAGES ensures Lookup(after, d, v) == Lookup(vm, vm.kernel, v) {
    }
    forall e: nat, v: nat, f: nat ensures Maps(after, e, v, f) <==> Maps(vm, e, v, f) {
      assert Maps(after, d, v, f) ==> Maps(vm, vm.kernel, v, f);
    }
    forall f | f in after.frames.mapped ensures exists e: nat, v: nat :: Maps(after, e, v, f) {
      var e: nat, v: nat :| Maps(vm, e, v, f);
      assert Maps(after, e, v, f);
    }
    assert after.frames.mapped == vm.frames.mapped;
  }

  function SwitchSpace(vm: Vm, d: nat): (Vm, bool) {
    if d == 0 || !(d == vm.kernel || d in vm.spaces) then (vm, false) else (vm.(current := d), true)
  }

  lemma SwitchEffect(vm: Vm, d: nat)
    requires Inv(vm)
    ensures Inv(SwitchSpace(vm, d).0) && SameLookups(vm, SwitchSpace(vm, d).0)
  {
    var (after, ok) := SwitchSpace(vm, d);
    if ok {
      RegistryKept(vm, after);
      TreeKept(vm, after);
      UsersKept(vm, after);
    }
  }
}
