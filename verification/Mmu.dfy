/** The paging procedures over the frame allocator, proved against the functions of the address-space model. */
module Mmu {
  import opened Bytes
  import opened Frames
  import opened Pmm
  import opened AddressSpace
  import opened SpaceRuns

  class Pager {
    const pmm: Allocator
    /** The contents of the frames that serve as directories and tables. */
    var mem: map<nat, Table>
    var kernel: nat
    var current: nat
    var spaces: seq<nat>

    constructor (allocator: Allocator, initial: Vm)
      requires allocator.Ok() && allocator.View() == initial.frames
      ensures pmm == allocator && View() == initial
    {
      pmm := allocator;
      mem, kernel, current, spaces := initial.mem, initial.kernel, initial.current, initial.spaces;
    }

    ghost function View(): Vm
      reads this, pmm, pmm.bitmap, pmm.usable, pmm.user, pmm.userMapped
    {
      Vm(pmm.View(), mem, kernel, current, spaces)
    }

    function Read(f: nat): Table
      reads this
    {
      if f in mem then mem[f] else EmptyTable()
    }

    method Set(f: nat, j: nat, e: Entry)
      requires j < ENTRIES
      modifies this`mem
      ensures View() == SetAt(old(View()), f, j, e)
    {
      mem := mem[f := Read(f)[j := e]];
    }

    method UsesSharedTable(i: nat) returns (shared: bool)
      requires i < ENTRIES
      ensures shared == (current != kernel && SharedAt(View(), current, i))
    {
      var k, c := Read(kernel)[i], Read(current)[i];
      shared := current != kernel && k.Present? && c.Present? && k.frame == c.frame;
    }

    method AllowsUserMappings(t: Table) returns (ok: bool)
      ensures ok == AllowsUser(t)
    {
      for j := 0 to ENTRIES
        invariant forall k :: 0 <= k < j ==> t[k].Present? ==> t[k].flags.user
      {
        if t[j].Present? && !t[j].flags.user {
          return false;
        }
      }
      return true;
    }

    method Ensure(i: nat, user: bool) returns (t: Option<nat>)
      requires pmm.Ok() && i < ENTRIES
      modifies this`mem, pmm, pmm.bitmap, pmm.user
      ensures pmm.Ok() && (View(), t) == EnsureTable(old(View()), i, user)
    {
      hide AllowsUser, Valid, IsEmptyTable;
      var pde := Read(current)[i];
      if pde.Present? {
        var shared := UsesSharedTable(i);
        if shared {
          return None;
        }
        if user {
          var allowed := AllowsUserMappings(Read(pde.frame));
          if !allowed {
            return None;
          }
          Set(current, i, pde.(flags := pde.flags.(user := true)));
        }
        return Some(pde.frame);
      }
      t := NewTable();
      if t.Some? {
        Set(current, i, Present(t.value, Flags(true, user, false, false)));
      }
    }

    /** A cleared frame below the identity limit. */
    method NewTable() returns (t: Option<nat>)
      requires pmm.Ok()
      modifies this`mem, pmm, pmm.bitmap, pmm.user
      ensures pmm.Ok() && t == AllocBelow(old(pmm.View()), LOW_IDENTITY_LIMIT).1
      ensures View() == old(View()).(frames := AllocBelow(old(pmm.View()), LOW_IDENTITY_LIMIT).0,
                                     mem := if t.Some? then old(mem)[t.value := EmptyTable()] else old(mem))
    {
      hide Valid, AllocBelow;
      t := AllocFrame();
      if t.Some? {
        mem := mem[t.value := EmptyTable()];
      }
    }

    method AllocFrame() returns (t: Option<nat>)
      requires pmm.Ok()
      modifies pmm, pmm.bitmap, pmm.user
      ensures pmm.Ok() && (pmm.View(), t) == AllocBelow(old(pmm.View()), LOW_IDENTITY_LIMIT)
      ensures t.None? ==> pmm.View() == old(pmm.View())
    {
      hide Valid, AllocBelow;
      AllocatedFrame(pmm.View());
      var address := pmm.AllocBlockBelow(LOW_IDENTITY_LIMIT);
      return if address == 0 then None else Some(address / PAGE_SIZE);
    }

    method Map(va: u32, pa: u32, flags: Flags, otherBits: bool) returns (ok: bool)
      requires pmm.Ok()
      modifies this`mem, pmm, pmm.bitmap, pmm.user, pmm.userMapped
      ensures pmm.Ok() && (View(), ok) == MapPage(old(View()), va, pa, flags, otherBits)
    {
      hide AllowsUser, Valid, EnsureTable, UserOwned, SharedAt, MapAllowed;
      var allowed := MayMap(va, pa, flags, otherBits);
      if !allowed {
        return false;
      }
      MapIsAligned(View(), va, pa, flags, otherBits);
      var v := va / PAGE_SIZE;
      var t := Ensure(v / ENTRIES, flags.user);
      if t.None? || Read(t.value)[v % ENTRIES].Present? {
        return false;
      }
      if flags.user {
        var claimed := pmm.ClaimUserBlock(pa);
        if !claimed {
          return false;
        }
      }
      Set(t.value, v % ENTRIES, Present(pa / PAGE_SIZE, flags));
      return true;
    }

    method MayMap(va: u32, pa: u32, flags: Flags, otherBits: bool) returns (ok: bool)
      requires pmm.Ok()
      ensures ok == MapAllowed(View(), va, pa, flags, otherBits)
    {
      hide Valid, UserOwned, SharedAt;
      var owned := pmm.BlockIsUserOwned(pa);
      var shared := UsesSharedTable(va / 0x40_0000);
      return !(va < PAGE_SIZE || pa < PAGE_SIZE || va % PAGE_SIZE != 0 || pa % PAGE_SIZE != 0 || otherBits ||
               (flags.writable && flags.executable) || (flags.user && !owned) || (current == kernel && flags.user) || shared ||
               (flags.user && (va < USER_MIN_ADDRESS || va >= USER_ADDRESS_LIMIT)));
    }

    method Protect(va: u32, flags: Flags, otherBits: bool) returns (ok: bool)
      requires pmm.Ok()
      modifies this`mem
      ensures pmm.Ok() && (View(), ok) == ProtectPage(old(View()), va, flags, otherBits)
    {
      hide Valid, UserOwned, SharedAt;
      var v := va / PAGE_SIZE;
      var shared := UsesSharedTable(v / ENTRIES);
      if va < PAGE_SIZE || va % PAGE_SIZE != 0 || (flags.writable && flags.executable) || (current == kernel && flags.user) || shared ||
         (flags.user && (va < USER_MIN_ADDRESS || va >= USER_ADDRESS_LIMIT)) || otherBits {
        return false;
      }
      var pde := Read(current)[v / ENTRIES];
      if pde.Absent? {
        return false;
      }
      var e := Read(pde.frame)[v % ENTRIES];
      if e.Absent? || e.flags.user != flags.user {
        return false;
      }
      if flags.user {
        var owned := BlockIsOwned(e.frame);
        if !owned {
          return false;
        }
      }
      Set(pde.frame, v % ENTRIES, Present(e.frame, flags));
      if flags.user {
        Set(current, v / ENTRIES, pde.(flags := pde.flags.(user := true)));
      }
      return true;
    }

    /** Ownership by frame number; entries hold aligned 32-bit addresses only. */
    method BlockIsOwned(f: nat) returns (ok: bool)
      requires pmm.Ok()
      ensures ok == UserOwned(pmm.View(), f)
    {
      if f >= MAX_BLOCKS {
        return false;
      }
      ok := pmm.BlockIsUserOwned(f * PAGE_SIZE);
    }

    method TableIsEmpty(t: Table) returns (empty: bool)
      ensures empty == IsEmptyTable(t)
    {
      for index := 0 to ENTRIES
        invariant forall j :: 0 <= j < index ==> t[j].Absent?
      {
        if t[index].Present? {
          return false;
        }
      }
      return true;
    }

    method ReleaseFrame(f: nat)
      requires pmm.Ok()
      modifies pmm.userMapped
      ensures pmm.Ok() && pmm.View() == Release(old(pmm.View()), f)
    {
      if f < MAX_BLOCKS {
        pmm.ReleaseUserBlock(f * PAGE_SIZE);
      } else {
        assert pmm.View().mapped - {f} == pmm.View().mapped;
      }
    }

    method FreeFrame(f: nat)
      requires pmm.Ok()
      modifies pmm`usedManaged, pmm.bitmap, pmm.user
      ensures pmm.Ok() && pmm.View() == Free(old(pmm.View()), f)
    {
      if f < MAX_BLOCKS {
        pmm.FreeBlock(f * PAGE_SIZE);
      }
    }

    method Unmap(va: u32) returns (r: Option<nat>)
      requires pmm.Ok()
      modifies this`mem, pmm, pmm.bitmap, pmm.user, pmm.userMapped
      ensures pmm.Ok() && (View(), r) == UnmapPage(old(View()), va)
    {
      hide Valid, SharedAt, IsEmptyTable, Release, Free;
      var v := va / PAGE_SIZE;
      var i := v / ENTRIES;
      var shared := UsesSharedTable(i);
      if va < PAGE_SIZE || va % PAGE_SIZE != 0 || (current == kernel && va < USER_MIN_ADDRESS) || shared {
        return None;
      }
      var pde := Read(current)[i];
      if pde.Absent? || Read(pde.frame)[v % ENTRIES].Absent? {
        return None;
      }
      var e := Read(pde.frame)[v % ENTRIES];
      Set(pde.frame, v % ENTRIES, Absent);
      if e.flags.user {
        ReleaseFrame(e.frame);
      }
      var empty := TableIsEmpty(Read(pde.frame));
      if empty {
        Set(current, i, Absent);
        FreeFrame(pde.frame);
      }
      return Some(e.frame);
    }

    method CreateDirectory() returns (d: Option<nat>)
      requires pmm.Ok()
      modifies this`mem, this`spaces, pmm, pmm.bitmap, pmm.user
      ensures pmm.Ok() && (View(), d) == CreateSpace(old(View()))
    {
      hide Valid, AllocBelow;
      if |spaces| == MAX_SPACES {
        return None;
      }
      d := AllocFrame();
      if d.Some? {
        mem := mem[d.value := Read(kernel)];
        spaces := spaces + [d.value];
      }
    }

    method SwitchTo(d: nat) returns (ok: bool)
      modifies this`current
      ensures (View(), ok) == SwitchSpace(old(View()), d)
    {
      var registered := d == kernel;
      for index := 0 to |spaces|
        invariant registered <==> d == kernel || d in spaces[..index]
      {
        if spaces[index] == d {
          registered := true;
        }
      }
      if d == 0 || !registered {
        return false;
      }
      current := d;
      return true;
    }

    /** Whether table t holds only owned and claimed frames. */
    method TableIsUser(t: Table) returns (ok: bool)
      requires pmm.Ok()
      ensures ok == forall j :: 0 <= j < ENTRIES && t[j].Present? ==> UserOwned(pmm.View(), t[j].frame) && t[j].frame in pmm.View().mapped
    {
      for j := 0 to ENTRIES
        invariant forall k :: 0 <= k < j && t[k].Present? ==> UserOwned(pmm.View(), t[k].frame) && t[k].frame in pmm.View().mapped
      {
        if t[j].Present? {
          if t[j].frame >= MAX_BLOCKS {
            return false;
          }
          var mapped := pmm.UserBlockIsMapped(t[j].frame * PAGE_SIZE);
          if !mapped {
            return false;
          }
        }
      }
      return true;
    }

    method IsPrivate(d: nat, i: nat) returns (private: bool)
      requires i < ENTRIES
      ensures private == PrivateAt(View(), d, i)
    {
      var e, k := Read(d)[i], Read(kernel)[i];
      private := e.Present? && !(k.Present? && e.frame == k.frame);
    }

    method Preflight(d: nat) returns (ok: bool)
      requires pmm.Ok()
      ensures ok == forall i :: FIRST_USER_SLOT <= i < END_USER_SLOT && PrivateAt(View(), d, i) ==>
                      Pde(View(), d, i).flags.user && UserTable(View(), Pde(View(), d, i).frame)
    {
      hide Valid;
      for index := FIRST_USER_SLOT to END_USER_SLOT
        invariant forall i :: FIRST_USER_SLOT <= i < index && PrivateAt(View(), d, i) ==>
                    Pde(View(), d, i).flags.user && UserTable(View(), Pde(View(), d, i).frame)
      {
        var private := IsPrivate(d, index);
        if private {
          PrivateIsPresent(View(), d, index);
          assert Read(d)[index] == Pde(View(), d, index);
          if !Read(d)[index].flags.user {
            return false;
          }
          var t := Read(d)[index].frame;
          var user := TableIsUser(Read(t));
          assert At(View(), t) == Read(t) && user == UserTable(View(), t);
          if !user {
            return false;
          }
        }
      }
      return true;
    }

    method Reclaim(d: nat, ghost vm: Vm)
      requires pmm.Ok() && vm == View() && Inv(vm) && DestroyAllowed(vm, d)
      modifies pmm`usedManaged, pmm.bitmap, pmm.user, pmm.userMapped
      ensures pmm.Ok() && pmm.View() == Reclaimed(vm, d, END_USER_SLOT * ENTRIES, END_USER_SLOT)
    {
      hide PrivateAt, Valid, Inv, DestroyAllowed, TablesBelow, FramesBelow, Reclaimed, Free, Release;
      ReclaimedNone(vm, d);
      for index := FIRST_USER_SLOT to END_USER_SLOT
        invariant pmm.Ok() && pmm.View() == Reclaimed(vm, d, index * ENTRIES, index)
      {
        var private := IsPrivate(d, index);
        assert PrivateAt(View(), d, index) == PrivateAt(vm, d, index) by { PrivateIgnoresFrames(View(), vm, d, index); }
        if private {
          PrivateIsPresent(vm, d, index);
          var t := Read(d)[index].frame;
          ReclaimPages(d, index, vm);
          ReclaimTable(vm, d, index);
          FreeFrame(t);
        } else {
          SkippedSlot(vm, d, index);
        }
      }
    }

    method ReclaimPages(d: nat, i: nat, ghost vm: Vm)
      requires pmm.Ok() && FIRST_USER_SLOT <= i < END_USER_SLOT
      requires vm.mem == mem && Inv(vm) && DestroyAllowed(vm, d) && PrivateAt(vm, d, i) && pmm.View() == Reclaimed(vm, d, i * ENTRIES, i)
      modifies pmm`usedManaged, pmm.bitmap, pmm.user, pmm.userMapped
      ensures pmm.Ok() && pmm.View() == Reclaimed(vm, d, (i + 1) * ENTRIES, i)
    {
      hide PrivateAt, Valid, Inv, DestroyAllowed, TablesBelow, FramesBelow, Reclaimed, Free, Release;
      PrivateIsPresent(vm, d, i);
      var table := Read(Read(d)[i].frame);
      for j := 0 to ENTRIES
        invariant pmm.Ok() && pmm.View() == Reclaimed(vm, d, i * ENTRIES + j, i)
      {
        ghost var v := i * ENTRIES + j;
        assert v / ENTRIES == i && v % ENTRIES == j && Lookup(vm, d, v) == table[j];
        ReclaimPage(vm, d, v, i);
        if table[j].Present? {
          if table[j].flags.user {
            ReleaseFrame(table[j].frame);
          }
          FreeFrame(table[j].frame);
        }
      }
    }

    method DestroyDirectory(d: nat) returns (ok: bool)
      requires pmm.Ok() && Inv(View())
      modifies this`spaces, pmm`usedManaged, pmm.bitmap, pmm.user, pmm.userMapped
      ensures pmm.Ok() && (View(), ok) == DestroySpace(old(View()), d)
    {
      hide Valid, Inv, UserTable, PrivateAt, TablesBelow, FramesBelow, Free;
      ghost var vm := View();
      var allowed := Preflight(d);
      if d == 0 || d == kernel || d == current || d !in spaces || !allowed {
        return false;
      }
      Reclaim(d, vm);
      FreeFrame(d);
      ReclaimedAll(vm, d);
      RemoveFromRegistry(d);
      return true;
    }

    /** The removed slot takes the last registered space. */
    method RemoveFromRegistry(d: nat)
      requires d in spaces
      modifies this`spaces
      ensures spaces == Unregister(old(spaces), d)
    {
      var index := 0;
      FoundLater(spaces, d, index);
      while spaces[index] != d
        invariant spaces == old(spaces) && 0 <= index < |spaces| && d !in spaces[..index]
        decreases |spaces| - index
      {
        assert spaces[..index + 1] == spaces[..index] + [spaces[index]];
        FoundLater(spaces, d, index + 1);
        index := index + 1;
      }
      UnregisterAt(spaces, d, index);
      var last := |spaces| - 1;
      spaces := spaces[index := spaces[last]][..last];
    }

    // ---------- User pointers ----------

    /**
     * A range is accepted exactly when it lies below the user limit and every page of it is mapped for the
     * user, and writable when a write is meant.
     */
    method ValidateUserRange(va: u32, length: u32, writable: bool) returns (ok: bool)
      requires Inv(View())
      ensures ok == (length == 0 ||
                     (PAGE_SIZE <= va < USER_ADDRESS_LIMIT && length <= USER_ADDRESS_LIMIT - va &&
                      forall p :: va / PAGE_SIZE <= p <= (va + length - 1) / PAGE_SIZE ==> UserPage(View(), p, writable)))
    {
      hide Tree, Registry, WriteXorExecute;
      if length == 0 {
        return true;
      }
      if va < PAGE_SIZE || va >= USER_ADDRESS_LIMIT || length > USER_ADDRESS_LIMIT - va {
        return false;
      }
      var end, page := va + length, va / PAGE_SIZE;
      while page * PAGE_SIZE < end
        invariant va / PAGE_SIZE <= page <= (end - 1) / PAGE_SIZE + 1
        invariant forall p :: va / PAGE_SIZE <= p < page ==> UserPage(View(), p, writable)
        decreases end - page * PAGE_SIZE
      {
        var pde := Read(current)[page / ENTRIES];
        CurrentIsDir(View());
        assert UserPage(View(), page, writable) ==> Maps(View(), current, page, Lookup(View(), current, page).frame);
        if pde.Absent? || !pde.flags.user {
          return false;
        }
        var e := Read(pde.frame)[page % ENTRIES];
        if e.Absent? || !e.flags.user || (writable && !e.flags.writable) {
          return false;
        }
        page := page + 1;
      }
      return true;
    }

    /** Execution is allowed exactly from user pages marked executable; no such page is writable. */
    method ValidateUserExecute(va: u32) returns (ok: bool)
      requires Inv(View())
      ensures ok == (PAGE_SIZE <= va < USER_ADDRESS_LIMIT && UserPage(View(), va / PAGE_SIZE, false) &&
                     Lookup(View(), current, va / PAGE_SIZE).flags.executable)
    {
      hide Tree, Registry;
      if va < PAGE_SIZE || va >= USER_ADDRESS_LIMIT {
        return false;
      }
      var page := va / PAGE_SIZE;
      var pde := Read(current)[page / ENTRIES];
      CurrentIsDir(View());
      assert UserPage(View(), page, false) ==> Maps(View(), current, page, Lookup(View(), current, page).frame);
      if pde.Absent? || !pde.flags.user {
        return false;
      }
      var e := Read(pde.frame)[page % ENTRIES];
      return e.Present? && e.flags.user && !e.flags.writable && e.flags.executable;
    }
  }

  predicate UserPage(vm: Vm, p: int, writable: bool) {
    0 <= p < PAGES && Lookup(vm, vm.current, p).Present? && Lookup(vm, vm.current, p).flags.user &&
    (writable ==> Lookup(vm, vm.current, p).flags.writable)
  }

  lemma CurrentIsDir(vm: Vm)
    requires Inv(vm)
    ensures IsDir(vm, vm.current)
  {
  }

  lemma PrivateIsPresent(vm: Vm, d: nat, i: nat)
    requires i < ENTRIES && PrivateAt(vm, d, i)
    ensures Pde(vm, d, i).Present?
  {
  }

  lemma PrivateIgnoresFrames(vm: Vm, other: Vm, d: nat, i: nat)
    requires i < ENTRIES && vm.mem == other.mem && vm.kernel == other.kernel
    ensures PrivateAt(vm, d, i) == PrivateAt(other, d, i)
  {
  }

  lemma ReclaimedNone(vm: Vm, d: nat)
    ensures Reclaimed(vm, d, FIRST_USER_SLOT * ENTRIES, FIRST_USER_SLOT) == vm.frames
  {
    assert FramesBelow(vm, d, FIRST_USER_SLOT * ENTRIES) == {} && TablesBelow(vm, d, FIRST_USER_SLOT) == {};
  }

  lemma SkippedSlot(vm: Vm, d: nat, i: nat)
    requires FIRST_USER_SLOT <= i < END_USER_SLOT && !PrivateAt(vm, d, i)
    ensures Reclaimed(vm, d, (i + 1) * ENTRIES, i + 1) == Reclaimed(vm, d, i * ENTRIES, i)
  {
    SkipSlot(vm, d, i, (i + 1) * ENTRIES);
    TablesBelowNext(vm, d, i);
  }

  lemma MapIsAligned(vm: Vm, va: u32, pa: u32, flags: Flags, otherBits: bool)
    requires MapAllowed(vm, va, pa, flags, otherBits)
    ensures pa % PAGE_SIZE == 0
  {
  }

  lemma AllocatedFrame(f: Frames)
    ensures var (after, t) := AllocBelow(f, LOW_IDENTITY_LIMIT);
            (t.None? ==> after == f) && (t.Some? ==> t.value > 0 && t.value * BLOCK_SIZE / PAGE_SIZE == t.value)
  {
  }

  lemma FoundLater(spaces: seq<nat>, d: nat, index: nat)
    requires d in spaces && index <= |spaces| && d !in spaces[..index]
    ensures index < |spaces|
  {
    assert spaces == spaces[..index] + spaces[index..];
  }

  lemma {:induction false} UnregisterAt(s: seq<nat>, d: nat, k: nat)
    requires k < |s| && s[k] == d && d !in s[..k]
    ensures Unregister(s, d) == s[k := s[|s| - 1]][..|s| - 1]
  {
    var last := |s| - 1;
    if k == 0 {
      if |s| > 1 {
        assert [s[last]] + s[1..last] == s[0 := s[last]][..last];
      }
    } else {
      assert s[0] != d;
      assert s[1..][..k - 1] == s[1..k];
      UnregisterAt(s[1..], d, k - 1);
      assert [s[0]] + s[1..][k - 1 := s[last]][..last - 1] == s[k := s[last]][..last];
    }
  }
}
