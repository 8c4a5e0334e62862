/** Every sequence of allocations, releases and growth keeps the heap whole and its live blocks apart. */
module HeapRuns {
  import opened Heap

  // ---------- The heap's operations ----------

  /** The flag says whether every page asked for could be allocated and mapped; otherwise all are given back. */
  function Expand(h: Heap, minimum: nat, granted: bool): (r: (Heap, bool))
    requires h.mapped <= MAX_SIZE
  {
    var added := GrowthFor(h.mapped, minimum);
    if added == 0 || !granted then (h, false)
    else (h.(blocks := Grown(h.blocks, h.mapped, added), mapped := h.mapped + added), true)
  }

  function Initialise(h: Heap, granted: bool): Heap
    requires h.mapped <= MAX_SIZE
  {
    if h.ready then h
    else
      var (grown, ok) := Expand(h, PAGE_SIZE, granted);
      if ok then grown.(ready := true) else h
  }

  predicate TooLarge(size: nat) {
    size > MAX_SIZE - CANARY - ALIGNMENT
  }

  /** Where an allocation will be made: the row to use, and the block in it. */
  function Choose(h: Heap, capacity: nat, granted: bool): (r: (Heap, nat))
    requires h.mapped <= MAX_SIZE
    ensures r.1 <= |r.0.blocks| && (r.1 < |r.0.blocks| ==> Fits(r.0.blocks[r.1], capacity))
  {
    var k := FirstFit(h.blocks, capacity, 0);
    if k < |h.blocks| then (h, k)
    else
      var (grown, ok) := Expand(h, capacity + HEADER, granted);
      (grown, if ok then FirstFit(grown.blocks, capacity, 0) else |grown.blocks|)
  }

  /** The new heap and the address handed out, 0 on failure. */
  function Allocate(h: Heap, size: nat, granted: bool): (r: (Heap, nat))
    requires h.mapped <= MAX_SIZE
  {
    if !h.ready || size == 0 || TooLarge(size) then (h, 0)
    else
      var capacity := AlignUp(size + CANARY);
      var (g, k) := Choose(h, capacity, granted);
      if k == |g.blocks| then (g, 0)
      else (g.(blocks := Taken(g.blocks, k, capacity, size), used := g.used + size), Payload(g.blocks[k]))
  }

  /** The position of the live block with this payload; the length when there is none. */
  function LiveAt(bs: seq<Block>, pointer: nat, i: nat): (k: nat)
    requires i <= |bs|
    ensures i <= k <= |bs| && (k < |bs| ==> !bs[k].free && Payload(bs[k]) == pointer)
    ensures forall j :: i <= j < k ==> bs[j].free || Payload(bs[j]) != pointer
    decreases |bs| - i
  {
    if i == |bs| || (!bs[i].free && Payload(bs[i]) == pointer) then i else LiveAt(bs, pointer, i + 1)
  }

  function Release(h: Heap, pointer: nat): Heap {
    var k := LiveAt(h.blocks, pointer, 0);
    if k == |h.blocks| then h
    else h.(blocks := Freed(h.blocks, k), used := h.used - h.blocks[k].requested)
  }

  // ---------- What they keep ----------

  lemma ExpandKeeps(h: Heap, minimum: nat, granted: bool)
    requires Inv(h)
    ensures var (r, ok) := Expand(h, minimum, granted);
            && Inv(r.(ready := r.ready || ok)) && Used(r.blocks) == Used(h.blocks)
            && (ok ==> r.blocks != [] && Fits(r.blocks[|r.blocks| - 1], GrowthFor(h.mapped, minimum) - HEADER))
            && (ok <==> granted && GrowthFor(h.mapped, minimum) > 0) && (!ok ==> r == h) && r.used == h.used && r.ready == h.ready
  {
    hide Tiles, Coalesced, Used, Requested;
    var added := GrowthFor(h.mapped, minimum);
    if added > 0 && granted {
      GrownKeeps(h.blocks, h.mapped, added);
      assert Grown(h.blocks, h.mapped, added) != [];
    }
  }

  lemma InitialiseKeeps(h: Heap, granted: bool)
    requires Inv(h)
    ensures Inv(Initialise(h, granted)) && Used(Initialise(h, granted).blocks) == Used(h.blocks)
  {
    hide Inv;
    if !h.ready {
      ExpandKeeps(h, PAGE_SIZE, granted);
    }
  }

  /** No free block is large enough, and the heap may not or cannot grow by enough pages. */
  predicate NoRoom(h: Heap, capacity: nat, granted: bool)
    requires h.mapped <= MAX_SIZE
  {
    (forall i :: 0 <= i < |h.blocks| ==> !Fits(h.blocks[i], capacity)) && (!granted || GrowthFor(h.mapped, capacity + HEADER) == 0)
  }

  /** A request fails only for want of a large enough block and of permission or room to grow. */
  lemma ChooseKeeps(h: Heap, capacity: nat, granted: bool)
    requires Inv(h) && h.ready && capacity > 0
    ensures var (g, k) := Choose(h, capacity, granted);
            && Inv(g) && g.ready && Used(g.blocks) == Used(h.blocks) && g.used == h.used
            && (k == |g.blocks| <==> NoRoom(h, capacity, granted))
            && (k == |g.blocks| ==> g == h)
  {
    hide Tiles, Coalesced, Used, Requested, Grown;
    if FirstFit(h.blocks, capacity, 0) == |h.blocks| {
      ExpandKeeps(h, capacity + HEADER, granted);
      var (grown, ok) := Expand(h, capacity + HEADER, granted);
      if ok {
        assert Fits(grown.blocks[|grown.blocks| - 1], capacity);
      }
    }
  }

  /**
   * An allocation hands out a block that was not in use, of the size asked for, and changes no other live block.
   * It fails exactly for a bad size, before initialisation, or when no block fits and the heap cannot grow.
   */
  lemma AllocateEffect(h: Heap, size: nat, granted: bool)
    requires Inv(h)
    ensures var (r, pointer) := Allocate(h, size, granted);
            && Inv(r)
            && (pointer == 0 <==> !h.ready || size == 0 || TooLarge(size) || NoRoom(h, AlignUp(size + CANARY), granted))
            && (pointer == 0 ==> r == h)
            && (pointer != 0 ==> exists b :: b !in Used(h.blocks) && Used(r.blocks) == Used(h.blocks) + {b}
                                             && Payload(b) == pointer && b.requested == size && r.used == h.used + size)
  {
    hide Tiles, Coalesced, Used, Requested, Choose, Taken;
    if h.ready && size > 0 && !TooLarge(size) {
      var capacity := AlignUp(size + CANARY);
      ChooseKeeps(h, capacity, granted);
      var (g, k) := Choose(h, capacity, granted);
      if k < |g.blocks| {
        TakenKeeps(g.blocks, k, size, START, START + g.mapped);
        var b := Taken(g.blocks, k, capacity, size)[k];
        assert Payload(b) == Payload(g.blocks[k]) && b !in Used(h.blocks) && b.requested == size;
      }
    }
  }

  /** The space a request takes in a block: its bytes and the guard word, rounded up to sixteen. */
  function SpaceFor(size: nat): nat {
    (size + 19) / 16 * 16
  }

  /** Initialisation makes the first page one free block, once. */
  lemma InitialiseMeans(h: Heap, granted: bool)
    requires Inv(h)
    ensures Initialise(h, granted) == if h.ready || !granted then h else Heap(true, [Block(0xD000_0000, 4064, 0, true)], 4096, 0)
  {
    assert !h.ready ==> h.blocks == [] && h.mapped == 0 && h.used == 0;
  }

  /** An allocation succeeds exactly for a size up to 16 MiB less 20 bytes, with a block free for it or room to grow. */
  lemma AllocateIff(h: Heap, size: nat, granted: bool)
    requires Inv(h)
    ensures Allocate(h, size, granted).1 != 0 <==>
              && h.ready && 0 < size <= 0xFF_FFEC
              && ((exists b :: b in h.blocks && b.free && b.capacity >= SpaceFor(size)) || (granted && SpaceFor(size) + 32 <= 0x100_0000 - h.mapped))
  {
    hide Tiles, Coalesced, Used, Requested, Allocate, GrowthFor;
    AllocateEffect(h, size, granted);
    assert AlignUp(size + CANARY) == SpaceFor(size);
    if exists b :: b in h.blocks && b.free && b.capacity >= SpaceFor(size) {
      var b :| b in h.blocks && b.free && b.capacity >= SpaceFor(size);
      var i :| 0 <= i < |h.blocks| && h.blocks[i] == b;
      assert Fits(h.blocks[i], SpaceFor(size));
    }
  }

  /** The block handed out is the lowest that fits, and no more than a header and sixteen bytes larger than needed. */
  lemma AllocateFirst(h: Heap, size: nat, granted: bool)
    requires Inv(h) && Allocate(h, size, granted).1 != 0
    ensures var (r, pointer) := Allocate(h, size, granted);
            && (exists b :: b in r.blocks && b.address + 32 == pointer && !b.free && b.requested == size && SpaceFor(size) <= b.capacity < SpaceFor(size) + 48)
            && (forall b :: b in h.blocks && b.free && b.capacity >= SpaceFor(size) ==> pointer <= b.address + 32)
  {
    hide Coalesced, Used, Requested, Tiles;
    var (r, pointer) := Allocate(h, size, granted);
    var n := SpaceFor(size);
    assert AlignUp(size + CANARY) == n;
    var (g, k) := Choose(h, n, granted);
    assert r.blocks == Taken(g.blocks, k, n, size);
    TakenIs(g.blocks, k, n, size);
    assert r.blocks[k] in r.blocks;
    forall b | b in h.blocks && b.free && b.capacity >= n ensures pointer <= b.address + 32 {
      var i :| 0 <= i < |h.blocks| && h.blocks[i] == b;
      assert Fits(h.blocks[i], n);
      if k < i {
        InOrder(h.blocks, START, START + h.mapped, k, i);
      }
    }
  }

  lemma TakenIs(bs: seq<Block>, i: nat, capacity: nat, size: nat)
    requires i < |bs| && Fits(bs[i], capacity)
    ensures var r := Taken(bs, i, capacity, size);
            && i < |r| && r[i].address == bs[i].address && !r[i].free && r[i].requested == size
            && capacity <= r[i].capacity < capacity + HEADER + ALIGNMENT
  {
  }

  lemma LiveIsUnique(bs: seq<Block>, b: Block, low: nat, high: nat)
    requires Tiles(bs, low, high) && b in Used(bs)
    ensures var k := LiveAt(bs, Payload(b), 0); k < |bs| && bs[k] == b
  {
    var i :| 0 <= i < |bs| && bs[i] == b;
    var k := LiveAt(bs, Payload(b), 0);
    assert k <= i;
    if k < i {
      InOrder(bs, low, high, k, i);
    }
  }

  /** Releasing a live block takes exactly that block out of use; anything else changes nothing. */
  lemma ReleaseEffect(h: Heap, pointer: nat)
    requires Inv(h)
    ensures var r := Release(h, pointer);
            && Inv(r) && r.mapped == h.mapped && r.ready == h.ready
            && Used(r.blocks) == set b | b in Used(h.blocks) && Payload(b) != pointer
  {
    hide Tiles, Coalesced, Requested, Freed;
    var k := LiveAt(h.blocks, pointer, 0);
    if k < |h.blocks| {
      FreedKeeps(h.blocks, k, START, START + h.mapped);
      FreedNotEmpty(h.blocks, k);
      forall b | b in Used(h.blocks) && Payload(b) == pointer ensures b == h.blocks[k] {
        LiveIsUnique(h.blocks, b, START, START + h.mapped);
      }
    }
  }

  lemma FreedNotEmpty(bs: seq<Block>, i: nat)
    requires i < |bs|
    ensures Freed(bs, i) != []
  {
  }

  // ---------- Runs ----------

  datatype Event = Setup(granted: bool) | Malloc(size: nat, mayGrow: bool) | Free(pointer: nat)

  function Step(h: Heap, e: Event): Heap
    requires h.mapped <= MAX_SIZE
  {
    match e
    case Setup(granted) => Initialise(h, granted)
    case Malloc(size, mayGrow) => Allocate(h, size, mayGrow).0
    case Free(pointer) => Release(h, pointer)
  }

  function Run(es: seq<Event>): (h: Heap)
    ensures Inv(h)
  {
    if es == [] then EMPTY
    else
      var before := Run(es[..|es| - 1]);
      StepKeepsInv(before, es[|es| - 1]);
      Step(before, es[|es| - 1])
  }

  lemma StepKeepsInv(h: Heap, e: Event)
    requires Inv(h)
    ensures Inv(Step(h, e))
  {
    hide Inv;
    match e
    case Setup(granted) => InitialiseKeeps(h, granted);
    case Malloc(size, mayGrow) => AllocateEffect(h, size, mayGrow);
    case Free(pointer) => ReleaseEffect(h, pointer);
  }

  /**
   * A live block lies in the mapped region, is aligned, and holds its request and its guard word;
   * all of that lies apart from every other block, header and payload.
   */
  lemma LiveBlocksApart(h: Heap, a: Block, b: Block)
    requires Inv(h) && a in Used(h.blocks) && b in h.blocks
    ensures Aligned(Payload(a)) && START + HEADER <= Payload(a) && Payload(a) + a.requested + CANARY <= START + h.mapped
    ensures a != b ==> Payload(a) + a.requested + CANARY <= b.address || End(b) <= a.address
  {
    var i: nat :| i < |h.blocks| && h.blocks[i] == a;
    var j: nat :| j < |h.blocks| && h.blocks[j] == b;
    WithinRow(h.blocks, START, START + h.mapped, i);
    AlignedSum(a.address, HEADER);
    if i < j {
      InOrder(h.blocks, START, START + h.mapped, i, j);
    } else if j < i {
      InOrder(h.blocks, START, START + h.mapped, j, i);
    }
  }

  lemma CoalescedAt(bs: seq<Block>, i: nat)
    requires Coalesced(bs) && i + 1 < |bs|
    ensures bs[i].free ==> !bs[i + 1].free
  {
    var j := i + 1;
    assert !(bs[i].free && bs[j].free);
  }

  /** With nothing in use the heap is one free block as large as it can be. */
  lemma NothingUsed(h: Heap)
    requires Inv(h) && h.ready && Used(h.blocks) == {}
    ensures h.blocks == [Block(START, h.mapped - HEADER, 0, true)] && h.used == 0
  {
    forall i | 0 <= i < |h.blocks| ensures h.blocks[i].free {
      assert h.blocks[i] !in Used(h.blocks);
    }
    if |h.blocks| > 1 {
      CoalescedAt(h.blocks, 0);
    }
    assert h.blocks == [h.blocks[0]] && Requested([h.blocks[0]]) == 0;
  }

  function ReleaseAll(h: Heap, pointers: seq<nat>): Heap {
    if pointers == [] then h else Release(ReleaseAll(h, pointers[..|pointers| - 1]), pointers[|pointers| - 1])
  }

  lemma {:induction false} ReleaseAllEffect(h: Heap, pointers: seq<nat>)
    requires Inv(h)
    ensures var r := ReleaseAll(h, pointers);
            Inv(r) && r.mapped == h.mapped && r.ready == h.ready && Used(r.blocks) == set b | b in Used(h.blocks) && Payload(b) !in pointers
  {
    if pointers != [] {
      var front, last := pointers[..|pointers| - 1], pointers[|pointers| - 1];
      ReleaseAllEffect(h, front);
      ReleaseEffect(ReleaseAll(h, front), last);
      assert forall p :: p in pointers <==> p in front || p == last;
    }
  }

  /** Releasing every live block, in whatever order, leaves one block of the mapped size less one header. */
  lemma AllFreed(h: Heap, pointers: seq<nat>)
    requires Inv(h) && h.ready && forall b :: b in Used(h.blocks) ==> Payload(b) in pointers
    ensures var r := ReleaseAll(h, pointers); r.blocks == [Block(START, h.mapped - HEADER, 0, true)] && r.used == 0
  {
    ReleaseAllEffect(h, pointers);
    NothingUsed(ReleaseAll(h, pointers));
  }
}
