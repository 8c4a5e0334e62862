/** The physical frame allocator over its bitmaps, and its initialisation from the firmware's memory map. */
module Pmm {
  import opened Bytes
  import opened Frames

  const FRAMEBUFFER_BASE: nat := 0xE000_0000
  const FRAMEBUFFER_PAGES: nat := 768
  const AVAILABLE: u32 := 1

  /** One E820 record. */
  datatype Region = Region(base: u64, length: u64, kind: u32, attributes: u32)

  predicate Active(r: Region) {
    r.attributes % 2 == 1
  }

  /** A record whose end does not wrap around. */
  predicate Proper(r: Region) {
    r.length != 0 && r.base + r.length <= U64_MAX
  }

  /** Block b lies wholly inside the record. */
  predicate Inside(b: nat, r: Region) {
    Proper(r) && r.base <= b * BLOCK_SIZE && (b + 1) * BLOCK_SIZE <= r.base + r.length
  }

  /** Block b and the record share at least one byte. */
  predicate Touches(b: nat, r: Region) {
    Proper(r) && b * BLOCK_SIZE < r.base + r.length && r.base < (b + 1) * BLOCK_SIZE
  }

  function Fixed(kernelStart: u32, kernelEnd: u32): seq<Region>
    requires kernelStart < kernelEnd
  {
    [Region(0, LOW_MEMORY_BLOCKS * BLOCK_SIZE, 0, 1), Region(kernelStart, kernelEnd - kernelStart, 0, 1),
     Region(FRAMEBUFFER_BASE, FRAMEBUFFER_PAGES * BLOCK_SIZE, 0, 1)]
  }

  predicate Offered(b: nat, regions: seq<Region>) {
    exists k :: 0 <= k < |regions| && Active(regions[k]) && regions[k].kind == AVAILABLE && Inside(b, regions[k])
  }

  predicate Withheld(b: nat, regions: seq<Region>) {
    exists k :: 0 <= k < |regions| && Active(regions[k]) && regions[k].kind != AVAILABLE && Touches(b, regions[k])
  }

  /** The blocks a memory map makes usable; it speaks of no record order. */
  function UsableBlocks(regions: seq<Region>, kernelStart: u32, kernelEnd: u32): set<nat>
    requires kernelStart < kernelEnd
  {
    set b | 0 <= b < MAX_BLOCKS && Offered(b, regions) && !Withheld(b, regions) && !Withheld(b, Fixed(kernelStart, kernelEnd))
  }

  function Bits(s: seq<bool>): set<nat> {
    set i | 0 <= i < |s| && s[i]
  }

  lemma BitsUpdate(s: seq<bool>, i: nat, v: bool)
    requires i < |s|
    ensures Bits(s[i := v]) == if v then Bits(s) + {i} else Bits(s) - {i}
  {
  }

  lemma BeyondBits(s: seq<bool>, i: nat)
    requires |s| <= i
    ensures i !in Bits(s)
  {
  }

  /** Taking a free managed block makes one more of the managed blocks used. */
  lemma OneMoreUsed(f: Frames, block: nat)
    requires Managed(f) && block < f.detected && block !in f.used
    ensures block in f.usable && |f.usable * (f.used + {block})| == |f.usable * f.used| + 1
  {
    assert f.usable * (f.used + {block}) == f.usable * f.used + {block};
  }

  lemma BitsAt(s: seq<bool>, i: nat)
    requires i < |s|
    ensures s[i] <==> i in Bits(s)
  {
  }

  lemma DetectedBound(f: Frames)
    requires Managed(f)
    ensures f.detected <= MAX_BLOCKS
  {
  }

  /** Freeing a managed used block makes one less of the managed blocks used, and keeps the bookkeeping consistent. */
  lemma OneFreed(f: Frames, block: nat)
    requires Managed(f) && LOW_MEMORY_BLOCKS <= block < f.detected && block in f.usable && block in f.used && block !in f.mapped
    ensures Managed(Free(f, block)) && (Valid(f) ==> Valid(Free(f, block)))
    ensures |f.usable * (f.used - {block})| == |f.usable * f.used| - 1
  {
    assert f.usable * (f.used - {block}) == f.usable * f.used - {block};
    if Valid(f) {
      FreeValid(f, block);
    }
  }

  // ---------- Reserving ----------

  function Touched(r: Region): (blocks: set<nat>)
    ensures forall b :: b in blocks ==> b < MAX_BLOCKS
  {
    set b | 0 <= b < MAX_BLOCKS && Touches(b, r)
  }

  /** A range touches the blocks that have a byte in common with it, up to the last block there can be. */
  lemma TouchedMeans(address: u32, length: u32, b: nat)
    ensures b in Touched(Region(address, length, 0, 1)) <==>
              b < 0x10_0000 && exists a: nat :: address <= a < address + length && a / 0x1000 == b
  {
    var start, end := b * 0x1000, (b + 1) * 0x1000;
    if b in Touched(Region(address, length, 0, 1)) {
      var a := if address < start then start else address;
      assert address <= a < address + length && a / 0x1000 == b;
    }
  }

  /** The bookkeeping after blocks are reserved: no longer managed, and used for good. */
  function Reserved(f: Frames, blocks: set<nat>): Frames {
    f.(usable := f.usable - blocks, used := f.used + blocks)
  }

  lemma ReservedNothing(f: Frames, blocks: set<nat>)
    requires blocks == {}
    ensures Reserved(f, blocks) == f
  {
  }

  lemma ReservedMore(f: Frames, blocks: set<nat>, block: nat)
    ensures Reserved(Reserved(f, blocks), {block}) == Reserved(f, blocks + {block})
  {
    assert f.usable - blocks - {block} == f.usable - (blocks + {block});
    assert f.used + blocks + {block} == f.used + (blocks + {block});
  }

  /** How the two counts change with one reserved block. */
  lemma OneReserved(f: Frames, block: nat)
    ensures var r := Reserved(f, {block});
            && r == f.(usable := f.usable - {block}, used := f.used + {block})
            && r.usable == f.usable - {block} && r.used == f.used + {block}
            && |r.usable| == |f.usable| - (if block in f.usable then 1 else 0)
            && |r.usable * r.used| == |f.usable * f.used| - (if block in f.usable && block in f.used then 1 else 0)
  {
    var r := Reserved(f, {block});
    assert r.usable * r.used == f.usable * f.used - {block};
    assert block !in f.usable ==> r.usable == f.usable;
    assert block !in f.usable * f.used ==> r.usable * r.used == f.usable * f.used;
  }

  /**
   * Reserving keeps ownership consistent exactly when it touches no block owned by a user page: an owned block stays
   * owned, although it is no longer managed.
   */
  lemma ReservedValidIff(f: Frames, blocks: set<nat>)
    requires Valid(f) && forall b :: b in blocks ==> b < MAX_BLOCKS
    ensures Valid(Reserved(f, blocks)) <==> blocks * f.owned == {}
  {
    var r := Reserved(f, blocks);
    if blocks * f.owned == {} {
      forall b | b in f.owned ensures b !in blocks {
        assert b !in blocks * f.owned;
      }
    } else {
      var b :| b in blocks * f.owned;
      assert b in r.owned && b !in r.usable;
    }
  }

  class Allocator {
    const bitmap: array<bool>
    const usable: array<bool>
    const user: array<bool>
    const userMapped: array<bool>
    var detected: nat
    var managed: nat
    var usedManaged: nat

    ghost predicate Shaped()
      reads this
    {
      && bitmap.Length == usable.Length == MAX_BLOCKS && user.Length == userMapped.Length == USER_MAX_BLOCKS
      && bitmap != usable && bitmap != user && bitmap != userMapped && usable != user && usable != userMapped && user != userMapped
    }

    constructor ()
      ensures Shaped() && fresh(bitmap) && fresh(usable) && fresh(user) && fresh(userMapped)
    {
      bitmap := new bool[MAX_BLOCKS](_ => true);
      usable := new bool[MAX_BLOCKS](_ => false);
      user := new bool[USER_MAX_BLOCKS](_ => false);
      userMapped := new bool[USER_MAX_BLOCKS](_ => false);
      detected, managed, usedManaged := 0, 0, 0;
    }

    ghost function View(): Frames
      reads this, bitmap, usable, user, userMapped
    {
      Frames(Bits(bitmap[..]), Bits(usable[..]), Bits(user[..]), Bits(userMapped[..]), detected)
    }

    /** The counters are the cardinalities they stand for. */
    ghost predicate Counted()
      reads this, bitmap, usable, user, userMapped
    {
      managed == |View().usable| && usedManaged == |View().usable * View().used|
    }

    /** What every operation keeps, whatever is reserved. */
    ghost predicate Steady()
      reads this, bitmap, usable, user, userMapped
    {
      Shaped() && Counted() && Managed(View())
    }

    /** And ownership is consistent as well. */
    ghost predicate Ok()
      reads this, bitmap, usable, user, userMapped
    {
      Steady() && Valid(View())
    }

    method AllocBlockBelow(limit: u32) returns (address: u32)
      requires Steady()
      modifies this, bitmap, user
      ensures Steady() && (old(Ok()) ==> Ok())
      ensures var (after, r) := AllocBelow(old(View()), limit);
              View() == after && address == (if r.Some? then r.value * BLOCK_SIZE else 0)
    {
      hide Bits, Valid, Managed;
      if Valid(View()) {
        AllocBelowValid(View(), limit);
      }
      DetectedBound(View());
      var endBlock := limit / BLOCK_SIZE;
      if endBlock > detected {
        endBlock := detected;
      }
      var block := Search(LOW_MEMORY_BLOCKS, endBlock, false);
      if block >= endBlock {
        return 0;
      }
      Take(block, false);
      return block * BLOCK_SIZE;
    }

    /** The first available block of a range, or its end. */
    method Search(first: nat, end: nat, managedOnly: bool) returns (block: nat)
      requires Shaped() && end <= MAX_BLOCKS
      ensures FirstFree(View(), first, end, managedOnly) == if block < end then Some(block) else None
    {
      hide Bits;
      block := first;
      while block < end
        invariant first <= block && FirstFree(View(), first, end, managedOnly) == FirstFree(View(), block, end, managedOnly)
      {
        BitsAt(bitmap[..], block);
        BitsAt(usable[..], block);
        if !bitmap[block] && (!managedOnly || usable[block]) {
          return;
        }
        block := block + 1;
      }
    }

    /** Marks a free block used, for a user page or for the kernel. */
    method Take(block: nat, forUser: bool)
      requires Steady() && block < detected && block !in View().used
      requires forUser ==> USER_MIN_BLOCK <= block < USER_MAX_BLOCKS
      modifies this`usedManaged, bitmap, user
      ensures Steady() && (old(Ok()) ==> Ok())
      ensures View() == old(View()).(used := old(View()).used + {block},
                                     owned := if forUser then old(View()).owned + {block} else old(View()).owned - {block})
    {
      hide Bits;
      ghost var before := View();
      BitsUpdate(bitmap[..], block, true);
      bitmap[block] := true;
      assert bitmap[..] == old(bitmap[..])[block := true];
      if block < USER_MAX_BLOCKS {
        BitsUpdate(user[..], block, forUser);
        user[block] := forUser;
        assert user[..] == old(user[..])[block := forUser];
      } else {
        BeyondBits(user[..], block);
      }
      usedManaged := usedManaged + 1;
      OneMoreUsed(before, block);
    }

    method AllocUserBlock() returns (address: u32)
      requires Steady()
      modifies this, bitmap, user
      ensures Steady() && (old(Ok()) ==> Ok())
      ensures var (after, r) := AllocUser(old(View()));
              View() == after && address == (if r.Some? then r.value * BLOCK_SIZE else 0)
    {
      hide Bits, Valid, Managed;
      if Valid(View()) {
        AllocUserValid(View());
      }
      DetectedBound(View());
      var endBlock := detected;
      if endBlock > USER_MAX_BLOCKS {
        endBlock := USER_MAX_BLOCKS;
      }
      var block := Search(USER_MIN_BLOCK, endBlock, true);
      if block >= endBlock {
        return 0;
      }
      Take(block, true);
      return block * BLOCK_SIZE;
    }

    method BlockIsUserOwned(address: u32) returns (ok: bool)
      requires Shaped()
      ensures ok == (address % BLOCK_SIZE == 0 && UserOwned(View(), address / BLOCK_SIZE))
    {
      var block := address / BLOCK_SIZE;
      ok := address % BLOCK_SIZE == 0 && block < detected && block < USER_MAX_BLOCKS && usable[block] && bitmap[block] && user[block];
    }

    method UserBlockIsMapped(address: u32) returns (ok: bool)
      requires Shaped()
      ensures ok == (address % BLOCK_SIZE == 0 && UserOwned(View(), address / BLOCK_SIZE) && address / BLOCK_SIZE in View().mapped)
    {
      ok := BlockIsUserOwned(address);
      if ok {
        ok := userMapped[address / BLOCK_SIZE];
      }
    }

    method ClaimUserBlock(address: u32) returns (ok: bool)
      requires Steady()
      modifies userMapped
      ensures Steady() && (old(Ok()) ==> Ok())
      ensures (View(), ok) == if address % BLOCK_SIZE == 0 then Claim(old(View()), address / BLOCK_SIZE) else (old(View()), false)
    {
      if Valid(View()) {
        ClaimValid(View(), address / BLOCK_SIZE);
      }
      ok := BlockIsUserOwned(address);
      if !ok || userMapped[address / BLOCK_SIZE] {
        return false;
      }
      BitsUpdate(userMapped[..], address / BLOCK_SIZE, true);
      userMapped[address / BLOCK_SIZE] := true;
      assert userMapped[..] == old(userMapped[..])[address / BLOCK_SIZE := true];
      return true;
    }

    method ReleaseUserBlock(address: u32)
      requires Steady()
      modifies userMapped
      ensures Steady() && (old(Ok()) ==> Ok())
      ensures View() == if address % BLOCK_SIZE == 0 then Release(old(View()), address / BLOCK_SIZE) else old(View())
    {
      var block := address / BLOCK_SIZE;
      if Valid(View()) {
        ClaimValid(View(), block);
      }
      if address % BLOCK_SIZE == 0 && block < USER_MAX_BLOCKS {
        BitsUpdate(userMapped[..], block, false);
        userMapped[block] := false;
        assert userMapped[..] == old(userMapped[..])[block := false];
      } else {
        assert block >= USER_MAX_BLOCKS ==> View().mapped - {block} == View().mapped;
      }
    }

    method FreeBlock(address: u32)
      requires Steady()
      modifies this`usedManaged, bitmap, user
      ensures Steady() && (old(Ok()) ==> Ok())
      ensures View() == if address % BLOCK_SIZE == 0 then Free(old(View()), address / BLOCK_SIZE) else old(View())
    {
      hide Bits, Valid, Managed;
      DetectedBound(View());
      var block := address / BLOCK_SIZE;
      if block < detected {
        BitsAt(usable[..], block);
        BitsAt(bitmap[..], block);
      }
      if address % BLOCK_SIZE != 0 || block < LOW_MEMORY_BLOCKS || block >= detected || !usable[block] || !bitmap[block] {
        return;
      }
      if block < USER_MAX_BLOCKS {
        BitsAt(userMapped[..], block);
      } else {
        BeyondBits(userMapped[..], block);
      }
      if block < USER_MAX_BLOCKS && userMapped[block] {
        return;
      }
      ghost var before := View();
      OneFreed(before, block);
      BitsUpdate(bitmap[..], block, false);
      bitmap[block] := false;
      assert bitmap[..] == old(bitmap[..])[block := false];
      if block < USER_MAX_BLOCKS {
        BitsUpdate(user[..], block, false);
        user[block] := false;
        assert user[..] == old(user[..])[block := false];
      } else {
        BeyondBits(user[..], block);
        assert before.owned - {block} == before.owned;
      }
      usedManaged := usedManaged - 1;
      assert View() == Free(before, block);
    }

    /**
     * Reserving at any time: the touched blocks leave management and stay used, the counters follow, and ownership
     * stays consistent exactly when no touched block was owned by a user page.
     */
    method Reserve(address: u32, length: u32)
      requires Steady()
      modifies this`managed, this`usedManaged, bitmap, usable
      ensures Steady() && View() == Reserved(old(View()), Touched(Region(address, length, 0, 1)))
      ensures old(Ok()) ==> (Ok() <==> Touched(Region(address, length, 0, 1)) * old(View()).owned == {})
      ensures var hit := Touched(Region(address, length, 0, 1));
              View().usable == old(View()).usable - hit && View().used == old(View()).used + hit
      ensures View().owned == old(View()).owned && View().mapped == old(View()).mapped && View().detected == old(View()).detected
    {
      hide Touched;
      var r := Region(address, length, 0, 1);
      if Valid(View()) {
        ReservedValidIff(View(), Touched(r));
      }
      ReserveRegion(r);
    }

    // ---------- Initialisation ----------

    /** Before anything is handed out, exactly the blocks that are not usable are marked used. */
    ghost predicate Fresh()
      reads this, bitmap, usable, user, userMapped
    {
      && Shaped() && detected <= MAX_BLOCKS && usedManaged == 0 && managed == |Bits(usable[..])|
      && (forall b :: 0 <= b < MAX_BLOCKS ==> bitmap[b] == !usable[b])
      && (forall b :: 0 <= b < MAX_BLOCKS && usable[b] ==> b < detected)
      && (forall b :: 0 <= b < USER_MAX_BLOCKS ==> !user[b] && !userMapped[b])
    }

    /** Offers a block that memory detection has found. */
    method MarkAvailable(block: nat)
      requires block < detected && Fresh()
      modifies this`managed, bitmap, usable
      ensures Fresh() && usable[block]
      ensures forall b :: 0 <= b < MAX_BLOCKS && b != block ==> usable[b] == old(usable[b])
    {
      BitsUpdate(usable[..], block, true);
      assert usable[block] <==> block in Bits(usable[..]);
      if !usable[block] {
        managed := managed + 1;
      }
      usable[block] := true;
      bitmap[block] := false;
      assert usable[..] == old(usable[..])[block := true];
    }

    /** Takes a block out of management for good, and out of the count of used blocks when it was in use. */
    method MarkReserved(block: nat)
      requires block < MAX_BLOCKS && Shaped() && Counted()
      modifies this`managed, this`usedManaged, bitmap, usable
      ensures Counted() && View() == Reserved(old(View()), {block})
    {
      hide Bits, Reserved;
      ghost var before := View();
      BitsAt(usable[..], block);
      BitsAt(bitmap[..], block);
      BitsUpdate(usable[..], block, false);
      BitsUpdate(bitmap[..], block, true);
      OneReserved(before, block);
      if usable[block] {
        managed := managed - 1;
        if bitmap[block] {
          usedManaged := usedManaged - 1;
        }
      }
      usable[block] := false;
      bitmap[block] := true;
      assert usable[..] == old(usable[..])[block := false];
      assert bitmap[..] == old(bitmap[..])[block := true];
    }

    method ReleaseRegion(r: Region)
      requires Fresh()
      modifies this`managed, this`detected, bitmap, usable
      ensures Fresh()
      ensures forall b :: 0 <= b < MAX_BLOCKS ==> usable[b] == (old(usable[b]) || Inside(b, r))
      ensures detected >= old(detected)
    {
      if r.length == 0 || r.base + r.length > U64_MAX {
        return;
      }
      var end := r.base + r.length;
      var first := r.base / BLOCK_SIZE;
      if r.base % BLOCK_SIZE != 0 {
        first := first + 1;
      }
      var firstBlock, endBlock := Clamp(first), Clamp(end / BLOCK_SIZE);
      if endBlock > detected {
        detected := endBlock;
      }
      var block := firstBlock;
      while block < endBlock
        invariant firstBlock <= block && (block <= endBlock || block == firstBlock) && endBlock <= detected && detected >= old(detected)
        invariant Fresh()
        invariant forall b :: 0 <= b < MAX_BLOCKS ==> usable[b] == (old(usable[b]) || firstBlock <= b < block)
      {
        MarkAvailable(block);
        block := block + 1;
      }
      forall b | 0 <= b < MAX_BLOCKS ensures Inside(b, r) <==> firstBlock <= b < endBlock {
        RoundedIn(b, r.base, end);
      }
    }

    /** Reserves every block a range touches, at boot and at any time after it. */
    method ReserveRegion(r: Region)
      requires Shaped() && Counted()
      modifies this`managed, this`usedManaged, bitmap, usable
      ensures Counted() && View() == Reserved(old(View()), Touched(r))
    {
      hide Bits, Reserved;
      if r.length == 0 || r.base + r.length > U64_MAX {
        ReservedNothing(View(), Touched(r));
        return;
      }
      var end := r.base + r.length;
      var last := end / BLOCK_SIZE;
      if end % BLOCK_SIZE != 0 {
        last := last + 1;
      }
      var firstBlock, endBlock := Clamp(r.base / BLOCK_SIZE), Clamp(last);
      ghost var done := ReserveBlocks(firstBlock, endBlock);
      forall b | 0 <= b < MAX_BLOCKS ensures Touches(b, r) <==> firstBlock <= b < endBlock {
        RoundedOut(b, r.base, end);
      }
      assert done == Touched(r);
    }

    method ReserveBlocks(first: nat, end: nat) returns (ghost done: set<nat>)
      requires Shaped() && Counted() && end <= MAX_BLOCKS
      modifies this`managed, this`usedManaged, bitmap, usable
      ensures Counted() && View() == Reserved(old(View()), done) && forall b :: b in done <==> first <= b < end
    {
      hide Bits, Reserved;
      done := {};
      var block := first;
      ReservedNothing(View(), done);
      while block < end
        invariant first <= block && (block <= end || block == first) && forall b :: b in done <==> first <= b < block
        invariant Counted() && View() == Reserved(old(View()), done)
      {
        ReservedMore(old(View()), done, block);
        MarkReserved(block);
        done := done + {block};
        block := block + 1;
      }
    }

    method Clear()
      requires Shaped()
      modifies this, bitmap, usable, user, userMapped
      ensures Fresh() && forall b :: 0 <= b < MAX_BLOCKS ==> !usable[b]
    {
      for word := 0 to MAX_BLOCKS
        invariant forall b :: 0 <= b < word ==> bitmap[b] && !usable[b]
      {
        bitmap[word], usable[word] := true, false;
      }
      for word := 0 to USER_MAX_BLOCKS
        invariant forall b :: 0 <= b < MAX_BLOCKS ==> bitmap[b] && !usable[b]
        invariant forall b :: 0 <= b < word ==> !user[b] && !userMapped[b]
      {
        user[word], userMapped[word] := false, false;
      }
      detected, managed, usedManaged := 0, 0, 0;
      assert Bits(usable[..]) == {};
    }

    method OfferAll(regions: seq<Region>)
      requires Fresh() && forall b :: 0 <= b < MAX_BLOCKS ==> !usable[b]
      modifies this`managed, this`detected, bitmap, usable
      ensures Fresh() && forall b :: 0 <= b < MAX_BLOCKS ==> usable[b] == Offered(b, regions)
    {
      for index := 0 to |regions|
        invariant Fresh() && forall b :: 0 <= b < MAX_BLOCKS ==> usable[b] == Offered(b, regions[..index])
      {
        var r := regions[index];
        if Active(r) && r.kind == AVAILABLE {
          ReleaseRegion(r);
        }
        forall b | 0 <= b < MAX_BLOCKS
          ensures Offered(b, regions[..index + 1]) == (Offered(b, regions[..index]) || (Active(r) && r.kind == AVAILABLE && Inside(b, r)))
        {
          OfferedNext(b, regions, index);
        }
      }
      assert regions[..|regions|] == regions;
    }

    /** Reserving before anything is handed out leaves exactly the blocks that are not usable marked used. */
    method WithholdRegion(r: Region)
      requires Fresh()
      modifies this`managed, this`usedManaged, bitmap, usable
      ensures Fresh() && forall b :: 0 <= b < MAX_BLOCKS ==> usable[b] == (old(usable[b]) && !Touches(b, r))
    {
      FreshIsCounted();
      ghost var before := View();
      ReserveRegion(r);
      forall b | 0 <= b < MAX_BLOCKS ensures usable[b] == (old(usable[b]) && !Touches(b, r)) && bitmap[b] == !usable[b] {
        assert usable[b] <==> b in View().usable;
        assert bitmap[b] <==> b in View().used;
        assert old(usable[b]) <==> b in before.usable;
        assert old(bitmap[b]) <==> b in before.used;
      }
      assert View().usable * View().used == {};
    }

    lemma FreshIsCounted()
      requires Fresh()
      ensures Counted()
    {
      assert View().usable * View().used == {};
    }

    method WithholdAll(regions: seq<Region>)
      requires Fresh()
      modifies this`managed, this`usedManaged, bitmap, usable
      ensures Fresh() && forall b :: 0 <= b < MAX_BLOCKS ==> usable[b] == (old(usable[b]) && !Withheld(b, regions))
    {
      for index := 0 to |regions|
        invariant Fresh() && forall b :: 0 <= b < MAX_BLOCKS ==> usable[b] == (old(usable[b]) && !Withheld(b, regions[..index]))
      {
        var r := regions[index];
        if Active(r) && r.kind != AVAILABLE {
          WithholdRegion(r);
        }
        forall b | 0 <= b < MAX_BLOCKS
          ensures Withheld(b, regions[..index + 1]) == (Withheld(b, regions[..index]) || (Active(r) && r.kind != AVAILABLE && Touches(b, r)))
        {
          WithheldNext(b, regions, index);
        }
      }
      assert regions[..|regions|] == regions;
    }

    /** Boot: offer the available records, then withhold the others, then the fixed ranges. */
    method Init(regions: seq<Region>, kernelStart: u32, kernelEnd: u32) returns (ok: bool)
      requires Shaped()
      modifies this, bitmap, usable, user, userMapped
      ensures kernelEnd <= kernelStart ==> !ok
      ensures kernelStart < kernelEnd ==>
                && View().usable == UsableBlocks(regions, kernelStart, kernelEnd)
                && ok == (View().usable != {})
                && Ok() && managed == |UsableBlocks(regions, kernelStart, kernelEnd)| && usedManaged == 0
                && View().owned == {} && View().mapped == {}
    {
      hide Offered, Withheld, Fixed;
      if kernelEnd <= kernelStart {
        return false;
      }
      Clear();
      OfferAll(regions);
      WithholdAll(regions);
      WithholdAll(Fixed(kernelStart, kernelEnd));
      FreshIsOk(regions, kernelStart, kernelEnd);
      ok := detected != 0 && managed != 0;
    }

    lemma FreshIsOk(regions: seq<Region>, kernelStart: u32, kernelEnd: u32)
      requires Fresh() && kernelStart < kernelEnd
      requires forall b :: 0 <= b < MAX_BLOCKS ==>
                 usable[b] == (Offered(b, regions) && !Withheld(b, regions) && !Withheld(b, Fixed(kernelStart, kernelEnd)))
      ensures View().usable == UsableBlocks(regions, kernelStart, kernelEnd) && Ok()
      ensures View().owned == {} && View().mapped == {} && (View().usable != {} ==> detected != 0 && managed != 0)
    {
      hide Offered, Withheld, Fixed;
      assert View().usable == UsableBlocks(regions, kernelStart, kernelEnd);
      assert View().usable * View().used == {};
      assert View().owned == {} && View().mapped == {};
      forall b | b in View().usable ensures LOW_MEMORY_BLOCKS <= b < detected {
        LowBlocksWithheld(b, kernelStart, kernelEnd);
      }
      if View().usable != {} {
        var b :| b in View().usable;
        assert b < detected && {b} <= View().usable;
      }
    }
  }

  lemma LowBlocksWithheld(b: nat, kernelStart: u32, kernelEnd: u32)
    requires kernelStart < kernelEnd
    ensures b < LOW_MEMORY_BLOCKS ==> Withheld(b, Fixed(kernelStart, kernelEnd))
  {
    var f := Fixed(kernelStart, kernelEnd);
    if b < LOW_MEMORY_BLOCKS {
      assert Active(f[0]) && f[0].kind != AVAILABLE && Touches(b, f[0]);
    }
  }

  lemma OfferedNext(b: nat, regions: seq<Region>, index: nat)
    requires index < |regions|
    ensures var r := regions[index];
            Offered(b, regions[..index + 1]) == (Offered(b, regions[..index]) || (Active(r) && r.kind == AVAILABLE && Inside(b, r)))
  {
    var next, prev := regions[..index + 1], regions[..index];
    assert next[index] == regions[index] && forall k :: 0 <= k < index ==> next[k] == prev[k];
  }

  lemma WithheldNext(b: nat, regions: seq<Region>, index: nat)
    requires index < |regions|
    ensures var r := regions[index];
            Withheld(b, regions[..index + 1]) == (Withheld(b, regions[..index]) || (Active(r) && r.kind != AVAILABLE && Touches(b, r)))
  {
    var next, prev := regions[..index + 1], regions[..index];
    assert next[index] == regions[index] && forall k :: 0 <= k < index ==> next[k] == prev[k];
  }

  /** The usable blocks depend on the set of records alone: order and repetition do not matter. */
  lemma OrderIrrelevant(regions: seq<Region>, other: seq<Region>, kernelStart: u32, kernelEnd: u32)
    requires kernelStart < kernelEnd && forall r :: r in regions <==> r in other
    ensures UsableBlocks(regions, kernelStart, kernelEnd) == UsableBlocks(other, kernelStart, kernelEnd)
  {
    forall b: nat ensures Offered(b, regions) == Offered(b, other) && Withheld(b, regions) == Withheld(b, other) {
      SameAnswers(b, regions, other);
      SameAnswers(b, other, regions);
    }
  }

  lemma SameAnswers(b: nat, regions: seq<Region>, other: seq<Region>)
    requires forall r :: r in regions ==> r in other
    ensures Offered(b, regions) ==> Offered(b, other)
    ensures Withheld(b, regions) ==> Withheld(b, other)
  {
    if Offered(b, regions) {
      var k :| 0 <= k < |regions| && Active(regions[k]) && regions[k].kind == AVAILABLE && Inside(b, regions[k]);
      assert regions[k] in other;
      var j :| 0 <= j < |other| && other[j] == regions[k];
    }
    if Withheld(b, regions) {
      var k :| 0 <= k < |regions| && Active(regions[k]) && regions[k].kind != AVAILABLE && Touches(b, regions[k]);
      assert regions[k] in other;
      var j :| 0 <= j < |other| && other[j] == regions[k];
    }
  }

  function Clamp(block: nat): nat {
    if block >= MAX_BLOCKS then MAX_BLOCKS else block
  }

  /** Rounding a range inwards selects the blocks wholly inside it. */
  lemma RoundedIn(b: nat, base: nat, end: nat)
    ensures base <= b * BLOCK_SIZE <==> (base + BLOCK_SIZE - 1) / BLOCK_SIZE <= b
    ensures (base + BLOCK_SIZE - 1) / BLOCK_SIZE == base / BLOCK_SIZE + if base % BLOCK_SIZE != 0 then 1 else 0
    ensures (b + 1) * BLOCK_SIZE <= end <==> b < end / BLOCK_SIZE
  {
  }

  /** Rounding a range outwards selects the blocks it touches. */
  lemma RoundedOut(b: nat, base: nat, end: nat)
    ensures base < (b + 1) * BLOCK_SIZE <==> base / BLOCK_SIZE <= b
    ensures b * BLOCK_SIZE < end <==> b < end / BLOCK_SIZE + if end % BLOCK_SIZE != 0 then 1 else 0
  {
  }
}
