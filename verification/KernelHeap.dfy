/** kmalloc and kfree on the linked headers, proved against the row of blocks. */
module KernelHeap {
  import opened Heap
  import opened HeapRuns
  import opened HeapList

  /** Whether a header at a has a byte in common with the block of this capacity or the header after it. */
  predicate Overwrites(block: nat, capacity: nat, a: nat) {
    block < a + HEADER && a < block + HEADER + capacity + HEADER
  }

  /**
   * Besides the headers of the list, memory holds those that merging took off the list, until the bytes are handed
   * out again: `stale` keeps them as they were left.
   */
  class Store {
    var headers: Headers
    var stale: Headers
    var guards: map<nat, nat>
    var first: nat
    var mapped: nat
    var used: int
    var initialized: bool
    var panicked: bool
    ghost var blocks: seq<Block>

    ghost predicate Listed()
      reads this
    {
      Linked(headers, blocks) && (first == if blocks == [] then 0 else START) && AllFree(stale)
    }

    ghost predicate Valid()
      reads this
    {
      Listed() && Inv(View())
    }

    /** Where memory is known to hold a header, on the list or off it. */
    ghost function Known(): set<nat>
      reads this
    {
      headers.Keys + stale.Keys
    }

    ghost function View(): Heap
      reads this
    {
      Heap(initialized, blocks, mapped, used)
    }

    /** The guard word behind a live block still holds its cookie. */
    predicate Intact(b: Block)
      reads this
    {
      var at := Payload(b) + b.requested;
      at in guards && guards[at] == Cookie(b.address, b.capacity, b.requested)
    }

    constructor ()
      ensures Valid() && View() == EMPTY && !panicked
    {
      headers, stale, guards, first, mapped, used, initialized, panicked := map[], map[], map[], 0, 0, 0, false, false;
      blocks := [];
    }

    method FindFreeBlock(capacity: nat) returns (block: nat, ghost k: nat)
      requires Listed() && Row(blocks, mapped)
      ensures k == FirstFit(blocks, capacity, 0)
      ensures block == if k < |blocks| then blocks[k].address else 0
      ensures block == 0 <==> k == |blocks|
      ensures block == 0 <==> forall b :: b in blocks ==> !Fits(b, capacity)
    {
      hide FirstFit, Cookie, Tiles, Coalesced;
      block, k := first, 0;
      if blocks != [] {
        TilesSorted(blocks, START, START + mapped);
        FirstAddress(blocks, mapped);
      }
      while block != 0
        invariant k <= |blocks| && block == (if k < |blocks| then blocks[k].address else 0) && (block == 0 <==> k == |blocks|)
        invariant forall j :: 0 <= j < k ==> !Fits(blocks[j], capacity)
        decreases |blocks| - k
      {
        NextHeader(headers, blocks, k);
        HeadersAreOk(headers, blocks, mapped, k);
        assert HeaderOk(headers[block], block, mapped);
        if headers[block].free && headers[block].capacity >= capacity {
          break;
        }
        block, k := headers[block].next, k + 1;
      }
      FirstFitIs(blocks, capacity, k);
    }

    method FindLast(ghost high: nat) returns (last: nat)
      requires Listed() && blocks != [] && high <= mapped && Tiles(blocks, START, START + high)
      ensures last == blocks[|blocks| - 1].address
    {
      hide Cookie, Tiles;
      TilesSorted(blocks, START, START + high);
      FirstAddress(blocks, high);
      last := first;
      ghost var k := 0;
      NextHeader(headers, blocks, k);
      while headers[last].next != 0
        invariant k < |blocks| && last == blocks[k].address && HasHeader(headers, blocks, k)
        invariant headers[last].next == if k + 1 < |blocks| then blocks[k + 1].address else 0
        decreases |blocks| - k
      {
        HeadersAreOk(headers, blocks, high, k);
        assert HeaderOk(headers[last], last, mapped);
        assert headers[last].next > last;
        last, k := headers[last].next, k + 1;
        NextHeader(headers, blocks, k);
      }
    }

    method BytesToAdd(minimum: nat) returns (added: nat)
      requires mapped <= MAX_SIZE
      ensures added == GrowthFor(mapped, minimum)
    {
      if minimum == 0 || minimum > MAX_SIZE - mapped {
        return 0;
      }
      var pages := (minimum + PAGE_SIZE - 1) / PAGE_SIZE;
      added := pages * PAGE_SIZE;
      if added > MAX_SIZE - mapped {
        return 0;
      }
    }

    /** Whole pages are added at the end; the flag says whether they could all be had. */
    method ExpandHeap(minimum: nat, granted: bool) returns (ok: bool)
      requires Listed() && Row(blocks, mapped)
      modifies this`headers, this`mapped, this`first, this`blocks
      ensures Listed() && Row(blocks, mapped) && (View(), ok) == Expand(old(View()), minimum, granted)
      ensures old(headers.Keys) <= headers.Keys
    {
      hide Cookie, Tiles, Coalesced, Linked, Grown, GrowthFor, Refreshed;
      var added := BytesToAdd(minimum);
      if added == 0 || !granted {
        return false;
      }
      GrownKeeps(blocks, mapped, added);
      ghost var grown := Grown(blocks, mapped, added);
      var end := START + mapped;
      mapped := mapped + added;
      if first == 0 {
        NoHeaders(headers);
        first := START;
        headers := map[START := Refreshed(Header(MAGIC, added - HEADER, 0, 0, 0, 0, true), START)];
        FirstGrowth(end - START, added);
        OneBlock(headers, grown[0]);
      } else {
        var last := FindLast(end - START);
        AppendBlock(last, end, added);
      }
      blocks := grown;
      FirstAddress(grown, mapped);
      return true;
    }

    method AppendBlock(last: nat, end: nat, added: nat)
      requires Linked(headers, blocks) && blocks != [] && last == blocks[|blocks| - 1].address
      requires added >= PAGE_SIZE && end >= START && Tiles(blocks, START, end)
      requires Tiles(Grown(blocks, end - START, added), START, end + added)
      modifies this`headers
      ensures Linked(headers, Grown(blocks, end - START, added)) && old(headers.Keys) <= headers.Keys
    {
      hide Cookie, Tiles, Linked, Sorted;
      ghost var k := |blocks| - 1;
      TilesSorted(blocks, START, end);
      TilesSorted(Grown(blocks, end - START, added), START, end + added);
      FirstAddress(blocks, end - START);
      NextHeader(headers, blocks, k);
      if headers[last].free {
        RewrittenLinked(headers, blocks, k, blocks[k].(capacity := blocks[k].capacity + added));
        headers := Rewritten(headers, last, headers[last].capacity + added, headers[last].requested, true);
        assert Grown(blocks, end - START, added) == blocks[k := blocks[k].(capacity := blocks[k].capacity + added)];
      } else {
        ExtendedLinked(headers, blocks, Block(end, added - HEADER, 0, true));
        headers := ExtendedHeaders(headers, last, end, added - HEADER);
      }
    }

    method SplitBlock(block: nat, capacity: nat, ghost k: nat)
      requires Linked(headers, blocks) && Tiles(blocks, START, START + mapped) && k < |blocks| && block == blocks[k].address
      requires Fits(blocks[k], capacity) && Aligned(capacity) && capacity >= ALIGNMENT
      modifies this`headers, this`blocks
      ensures Linked(headers, blocks) && blocks == SplitAt(old(blocks), k, capacity) && old(headers.Keys) <= headers.Keys
    {
      hide Cookie, Linked, Tiles, Sorted, Refreshed;
      TilesSorted(blocks, START, START + mapped);
      FirstAddress(blocks, mapped);
      NextHeader(headers, blocks, k);
      if headers[block].capacity < capacity + HEADER + ALIGNMENT {
        assert SplitAt(blocks, k, capacity) == blocks;
        return;
      }
      if k + 1 < |blocks| {
        Neighbours(blocks, k, START, START + mapped);
      }
      CutLinked(headers, blocks, k, capacity);
      ghost var cut := CutHeaders(headers, block, capacity);
      var rest, next := block + HEADER + capacity, headers[block].next;
      headers := headers[rest := Refreshed(Header(MAGIC, headers[block].capacity - capacity - HEADER, 0, 0, block, next, true), rest)];
      if next != 0 {
        headers := headers[next := Refreshed(headers[next].(previous := rest), next)];
      }
      headers := headers[block := Refreshed(headers[block].(capacity := capacity, next := rest), block)];
      assert headers == cut;
      blocks := SplitAt(blocks, k, capacity);
    }

    /** Joins a block with the one after it when that is free; the header of that one stays behind in memory. */
    method MergeWithNext(block: nat, ghost k: nat)
      requires Linked(headers, blocks) && Tiles(blocks, START, START + mapped) && k < |blocks| && block == blocks[k].address
      requires AllFree(stale)
      modifies this`headers, this`blocks, this`stale
      ensures Linked(headers, blocks) && blocks == Merged(old(blocks), k) && AllFree(stale) && old(Known()) <= Known()
    {
      hide Cookie, Linked, Tiles, Sorted, Refreshed, JoinHeaders;
      TilesSorted(blocks, START, START + mapped);
      FirstAddress(blocks, mapped);
      NextHeader(headers, blocks, k);
      var next := headers[block].next;
      if next == 0 {
        return;
      }
      HeadersAreOk(headers, blocks, mapped, k + 1);
      assert HeaderOk(headers[next], next, mapped);
      if !headers[next].free {
        return;
      }
      Neighbours(blocks, k, START, START + mapped);
      assert block + HEADER + headers[block].capacity == next;
      JoinLinked(headers, blocks, k);
      NextHeader(headers, blocks, k + 1);
      OrderedAt(blocks, k, k + 2);
      Unlink(block, next);
      blocks := Merged(blocks, k);
    }

    /** The header writes of a merge. */
    method Unlink(block: nat, next: nat)
      requires block in headers && headers[block].next == next && next in headers && next != block
      requires var after := headers[next].next; after != 0 ==> after in headers && after != next && after != block
      modifies this`headers, this`stale
      ensures headers == JoinHeaders(old(headers), block) && stale == old(stale)[next := old(headers[next])]
      ensures headers.Keys == old(headers.Keys) - {next}
    {
      hide Cookie;
      var capacity, after := headers[block].capacity + HEADER + headers[next].capacity, headers[next].next;
      stale := stale[next := headers[next]];
      headers := headers - {next};
      if after != 0 {
        headers := headers[after := Refreshed(headers[after].(previous := block), after)];
      }
      headers := headers[block := Refreshed(headers[block].(capacity := capacity, next := after), block)];
    }

    method HeapInit(granted: bool) returns (ok: bool)
      requires Valid()
      modifies this`headers, this`mapped, this`first, this`blocks, this`initialized
      ensures Valid() && View() == Initialise(old(View()), granted) && ok == initialized
    {
      if initialized {
        return true;
      }
      InitialiseKeeps(View(), granted);
      ok := ExpandHeap(PAGE_SIZE, granted);
      if ok {
        initialized := true;
      }
    }

    /** First fit, growing once when nothing fits. */
    method ChooseBlock(capacity: nat, granted: bool) returns (block: nat, ghost k: nat)
      requires Valid() && initialized && capacity > 0
      modifies this`headers, this`mapped, this`first, this`blocks
      ensures Valid() && (View(), k) == Choose(old(View()), capacity, granted)
      ensures block == if k < |blocks| then blocks[k].address else 0
      ensures (block == 0 <==> k == |blocks|) && old(headers.Keys) <= headers.Keys
    {
      hide Linked, Tiles, Coalesced, Requested, FirstFit, Expand;
      ChooseKeeps(View(), capacity, granted);
      block, k := FindFreeBlock(capacity);
      if block == 0 {
        var ok := ExpandHeap(capacity + HEADER, granted);
        if ok {
          block, k := FindFreeBlock(capacity);
        } else {
          k := |blocks|;
        }
      }
    }

    method TakeBlock(block: nat, capacity: nat, size: nat, ghost k: nat)
      requires Linked(headers, blocks) && Tiles(blocks, START, START + mapped) && k < |blocks| && block == blocks[k].address
      requires Fits(blocks[k], capacity) && capacity == AlignUp(size + CANARY)
      modifies this`headers, this`blocks, this`guards
      ensures old(headers.Keys) <= headers.Keys
      ensures Linked(headers, blocks) && blocks == Taken(old(blocks), k, capacity, size) && k < |blocks| && Intact(blocks[k])
      ensures blocks[k].address == block && blocks[k].requested == size
      ensures guards == old(guards)[block + HEADER + size := guards[block + HEADER + size]]
    {
      hide Cookie, Linked, Tiles, Sorted, AlignUp;
      AlignUpSize(capacity, size);
      SplitTiles(blocks, k, capacity, mapped);
      SplitBlock(block, capacity, k);
      TilesSorted(blocks, START, START + mapped);
      FirstAddress(blocks, mapped);
      NextHeader(headers, blocks, k);
      ghost var b := blocks[k].(requested := size, free := false);
      RewrittenLinked(headers, blocks, k, b);
      headers := Rewritten(headers, block, headers[block].capacity, size, false);
      blocks := blocks[k := b];
      guards := guards[block + HEADER + headers[block].requested := headers[block].cookie];
    }

    /** The chosen block goes into use: all other guard words are kept. */
    method HandOut(block: nat, capacity: nat, size: nat, ghost k: nat)
      requires Valid() && initialized && k < |blocks| && block == blocks[k].address
      requires size > 0 && Fits(blocks[k], capacity) && capacity == AlignUp(size + CANARY)
      modifies this`headers, this`blocks, this`guards, this`used, this`stale
      ensures forall a :: a in old(Known()) && !Overwrites(block, capacity, a) ==> a in Known()
      ensures Valid() && View() == old(View()).(blocks := Taken(old(blocks), k, capacity, size), used := old(used) + size)
      ensures forall b :: b in Used(blocks) && Payload(b) == block + HEADER ==> Intact(b)
      ensures forall b :: b in old(Used(blocks)) ==> Intact(b) == old(Intact(b))
    {
      hide Linked, Tiles, Coalesced, Cookie, Taken, Requested, AlignUp;
      TakenKeeps(blocks, k, size, START, START + mapped);
      TakeBlock(block, capacity, size, k);
      stale := map a | a in stale && !Overwrites(block, capacity, a) :: stale[a];
      used := used + size;
      KeptApart(View(), blocks[k]);
    }

    /** Returns 0, or the address of a new block with its guard word in place. */
    method Kmalloc(size: nat, granted: bool) returns (pointer: nat)
      requires Valid()
      modifies this`headers, this`mapped, this`first, this`blocks, this`used, this`guards, this`stale
      ensures Valid() && (View(), pointer) == Allocate(old(View()), size, granted)
      ensures forall a :: a in old(Known()) && !(pointer >= HEADER && Overwrites(pointer - HEADER, AlignUp(size + CANARY), a)) ==> a in Known()
      ensures forall b :: b in Used(blocks) && Payload(b) == pointer ==> Intact(b)
      ensures forall b :: b in old(Used(blocks)) ==> Intact(b) == old(Intact(b))
    {
      hide Linked, Inv, Choose, Cookie, Taken, Used, AlignUp;
      if !initialized || size == 0 || TooLarge(size) {
        return 0;
      }
      var capacity := AlignUp(size + CANARY);
      ChooseKeeps(View(), capacity, granted);
      var block, k := ChooseBlock(capacity, granted);
      if block == 0 {
        return 0;
      }
      HandOut(block, capacity, size, k);
      return block + HEADER;
    }

    /** Marks a block free and joins it with a free block after it and before it. */
    method FreeBlock(block: nat, ghost k: nat)
      requires Valid() && initialized && k < |blocks| && block == blocks[k].address && !blocks[k].free
      modifies this`headers, this`blocks, this`used, this`stale
      ensures old(Known()) <= Known()
      ensures Valid() && View() == old(View()).(blocks := Freed(old(blocks), k), used := old(used) - old(blocks)[k].requested)
    {
      hide Linked, Tiles, Coalesced, Cookie, Requested, Sorted, Merged;
      FreedKeeps(blocks, k, START, START + mapped);
      MarkBlock(block, k);
      MergedKeeps(blocks, k, START, START + mapped);
      MergeWithNext(block, k);
      MergeBack(block, k);
    }

    method MarkBlock(block: nat, ghost k: nat)
      requires Linked(headers, blocks) && Tiles(blocks, START, START + mapped) && k < |blocks| && block == blocks[k].address && !blocks[k].free
      modifies this`headers, this`blocks, this`used
      ensures Linked(headers, blocks) && Tiles(blocks, START, START + mapped)
      ensures blocks == Marked(old(blocks), k) && used == old(used) - old(blocks)[k].requested && headers.Keys == old(headers.Keys)
    {
      hide Linked, Tiles, Cookie, Sorted;
      TilesSorted(blocks, START, START + mapped);
      FirstAddress(blocks, mapped);
      NextHeader(headers, blocks, k);
      MarkedKeeps(blocks, k, START, START + mapped);
      RewrittenLinked(headers, blocks, k, blocks[k].(requested := 0, free := true));
      used := used - headers[block].requested;
      headers := Rewritten(headers, block, headers[block].capacity, 0, true);
      blocks := Marked(blocks, k);
    }

    method MergeBack(block: nat, ghost k: nat)
      requires Linked(headers, blocks) && Tiles(blocks, START, START + mapped) && k < |blocks| && block == blocks[k].address
      requires AllFree(stale)
      modifies this`headers, this`blocks, this`stale
      ensures Linked(headers, blocks) && AllFree(stale) && old(Known()) <= Known()
      ensures blocks == if k > 0 && old(blocks)[k - 1].free then Merged(old(blocks), k - 1) else old(blocks)
    {
      hide Linked, Tiles, Cookie, Sorted, Merged;
      TilesSorted(blocks, START, START + mapped);
      FirstAddress(blocks, mapped);
      NextHeader(headers, blocks, k);
      var previous := headers[block].previous;
      if previous != 0 {
        HeadersAreOk(headers, blocks, mapped, k - 1);
        assert HeaderOk(headers[previous], previous, mapped);
        if headers[previous].free {
          MergeWithNext(previous, k - 1);
        }
      }
    }

    /**
     * Frees a block; anything but null and a live block with its guard word intact stops the kernel, unless bytes
     * where no header is known pass for one. `stray` and `word` are what memory holds there and at its guard word,
     * and what such a free does is not described. After a block is freed a header is known, marked free, until its
     * bytes are handed out again.
     */
    method Kfree(pointer: nat, stray: Header, word: nat) returns (fooled: bool)
      requires Valid() && !panicked
      modifies this`headers, this`blocks, this`used, this`panicked, this`stale
      ensures fooled <==> InHeap(pointer, old(mapped)) && pointer - HEADER !in old(Known()) && Passes(stray, word, pointer - HEADER, old(mapped))
      ensures !fooled ==> Valid() && old(Known()) <= Known() && View() == if panicked then old(View()) else Release(old(View()), pointer)
      ensures pointer == 0 || fooled || panicked || (pointer >= HEADER && pointer - HEADER in Known())
      ensures panicked <==>
                && pointer != 0 && !fooled
                && (LiveAt(old(blocks), pointer, 0) == |old(blocks)| || !old(Intact(blocks[LiveAt(blocks, pointer, 0)])))
    {
      hide Linked, Inv, Cookie, Freed;
      FreeCheck(View(), headers, pointer);
      fooled := false;
      if pointer == 0 {
        return;
      }
      if pointer < START + HEADER || pointer >= START + mapped || pointer % ALIGNMENT != 0 {
        panicked := true;
        return;
      }
      var block := pointer - HEADER;
      if block !in headers && block !in stale {
        fooled := Passes(stray, word, block, mapped);
        panicked := !fooled;
        return;
      }
      var header := if block in headers then headers[block] else stale[block];
      if !LooksUsed(header, block, mapped) || pointer + header.requested !in guards || guards[pointer + header.requested] != header.cookie {
        panicked := true;
        return;
      }
      FreeBlock(block, LiveAt(blocks, pointer, 0));
    }
  }

  predicate AllFree(hs: Headers) {
    forall a :: a in hs ==> hs[a].free
  }

  /** A pointer that is released, or was not live before, is not live afterwards. */
  lemma ReleasedIsDead(h: Heap, released: nat, pointer: nat)
    requires Inv(h) && (pointer == released || LiveAt(h.blocks, pointer, 0) == |h.blocks|)
    ensures var r := Release(h, released); LiveAt(r.blocks, pointer, 0) == |r.blocks|
  {
    hide Inv, Release;
    ReleaseEffect(h, released);
    LiveIff(h.blocks, pointer);
    LiveIff(Release(h, released).blocks, pointer);
  }

  lemma LiveIff(bs: seq<Block>, pointer: nat)
    ensures LiveAt(bs, pointer, 0) < |bs| <==> exists b :: b in Used(bs) && Payload(b) == pointer
  {
    var k := LiveAt(bs, pointer, 0);
    assert k < |bs| ==> bs[k] in Used(bs);
  }

  lemma LiveIsKnown(h: Heap, hs: Headers, pointer: nat)
    requires Inv(h) && Linked(hs, h.blocks) && LiveAt(h.blocks, pointer, 0) < |h.blocks|
    ensures pointer >= HEADER && pointer - HEADER in hs
  {
    hide Inv, Linked, LooksUsed;
    FreeCheck(h, hs, pointer);
  }

  /** Freeing a live block twice stops the kernel, whatever memory holds elsewhere and whatever is freed in between. */
  method FreeTwice(store: Store, pointer: nat, others: seq<nat>, stray: Header, word: nat)
    requires store.Valid() && !store.panicked && LiveAt(store.blocks, pointer, 0) < |store.blocks|
    requires forall i :: 0 <= i < |others| ==> others[i] >= HEADER && others[i] - HEADER in store.Known()
    modifies store
    ensures store.panicked
  {
    hide Linked, Inv, Passes, LiveAt, Release, AllFree, Used;
    ghost var before := store.View();
    LiveIsKnown(before, store.headers, pointer);
    var fooled := store.Kfree(pointer, stray, word);
    if store.panicked {
      return;
    }
    ReleasedIsDead(before, pointer, pointer);
    for i := 0 to |others|
      invariant store.Valid() && !store.panicked
      invariant pointer >= HEADER && pointer - HEADER in store.Known()
      invariant LiveAt(store.blocks, pointer, 0) == |store.blocks|
      invariant forall j :: 0 <= j < |others| ==> others[j] - HEADER in store.Known()
    {
      before := store.View();
      fooled := store.Kfree(others[i], stray, word);
      if store.panicked {
        return;
      }
      ReleasedIsDead(before, others[i], pointer);
    }
    fooled := store.Kfree(pointer, stray, word);
  }

  /** The check made before a block is freed: a sound header of a block in use, with room for its guard word. */
  predicate LooksUsed(h: Header, address: nat, mapped: nat) {
    HeaderOk(h, address, mapped) && !h.free && h.capacity >= CANARY && h.requested <= h.capacity - CANARY
  }

  /** Bytes pass for a block in use when they look like its header and the guard word matches. */
  predicate Passes(h: Header, word: nat, address: nat, mapped: nat) {
    LooksUsed(h, address, mapped) && word == h.cookie
  }

  predicate InHeap(pointer: nat, mapped: nat) {
    START + HEADER <= pointer < START + mapped && pointer % ALIGNMENT == 0
  }

  /** What the checks find out: an address is a live block's exactly when a header of a used block is before it. */
  lemma FreeCheck(h: Heap, hs: Headers, pointer: nat)
    requires Inv(h) && Linked(hs, h.blocks)
    ensures var k := LiveAt(h.blocks, pointer, 0);
            && (k < |h.blocks| ==> h.ready && InHeap(pointer, h.mapped) && pointer == h.blocks[k].address + HEADER
                                   && HasHeader(hs, h.blocks, k) && LooksUsed(hs[pointer - HEADER], pointer - HEADER, h.mapped))
            && (k == |h.blocks| && pointer >= HEADER && pointer - HEADER in hs ==> hs[pointer - HEADER].free)
  {
    hide Cookie, HeaderOf;
    var k := LiveAt(h.blocks, pointer, 0);
    if k < |h.blocks| {
      UsedHeader(h, hs, k);
    } else if pointer >= HEADER && pointer - HEADER in hs {
      var b :| b in h.blocks && b.address == pointer - HEADER;
      var i: nat :| i < |h.blocks| && h.blocks[i] == b;
      FreeHeader(hs, h.blocks, i);
    }
  }

  lemma FreeHeader(hs: Headers, bs: seq<Block>, i: nat)
    requires Linked(hs, bs) && i < |bs|
    ensures bs[i].address in hs && hs[bs[i].address].free == bs[i].free
  {
    assert HasHeader(hs, bs, i);
  }

  lemma UsedHeader(h: Heap, hs: Headers, k: nat)
    requires Inv(h) && Linked(hs, h.blocks) && k < |h.blocks| && !h.blocks[k].free
    ensures h.ready && InHeap(Payload(h.blocks[k]), h.mapped) && HasHeader(hs, h.blocks, k)
    ensures LooksUsed(hs[h.blocks[k].address], h.blocks[k].address, h.mapped)
  {
    WithinRow(h.blocks, START, START + h.mapped, k);
    HeadersAreOk(hs, h.blocks, h.mapped, k);
    AlignedSum(h.blocks[k].address, HEADER);
  }

  lemma FirstAddress(bs: seq<Block>, mapped: nat)
    requires Tiles(bs, START, START + mapped)
    ensures |bs| > 0 && bs[0].address == START
  {
  }

  lemma SplitTiles(bs: seq<Block>, k: nat, capacity: nat, mapped: nat)
    requires Tiles(bs, START, START + mapped) && k < |bs| && Fits(bs[k], capacity) && Aligned(capacity) && capacity >= ALIGNMENT
    ensures var r := SplitAt(bs, k, capacity); Tiles(r, START, START + mapped) && r[k].address == bs[k].address
  {
    PiecesTile(bs[k], capacity);
    assert SplitAt(bs, k, capacity) == Splice(bs, k, k + 1, Pieces(bs[k], capacity));
    SpliceTiles(bs, k, k + 1, Pieces(bs[k], capacity), START, START + mapped);
  }

  /** No other live block's guard word is where this one's is. */
  lemma KeptApart(h: Heap, b: Block)
    requires Inv(h) && b in Used(h.blocks)
    ensures forall c :: c in Used(h.blocks) && c != b ==> Payload(c) + c.requested != Payload(b) + b.requested
    ensures forall c :: c in Used(h.blocks) && Payload(c) == Payload(b) ==> c == b
  {
    forall c | c in Used(h.blocks) && c != b
      ensures Payload(c) + c.requested != Payload(b) + b.requested && Payload(c) != Payload(b)
    {
      LiveBlocksApart(h, b, c);
      LiveBlocksApart(h, c, b);
    }
  }

  lemma FirstGrowth(mapped: nat, added: nat)
    requires added >= PAGE_SIZE
    ensures Grown([], mapped, added) == [Block(START + mapped, added - HEADER, 0, true)]
  {
  }

  lemma OrderedAt(bs: seq<Block>, i: nat, j: nat)
    requires Sorted(bs) && i < j
    ensures j < |bs| ==> bs[i].address < bs[j].address
  {
  }

  lemma NoHeaders(hs: Headers)
    requires Linked(hs, [])
    ensures hs.Keys == {}
  {
  }

  lemma OneBlock(hs: Headers, b: Block)
    requires hs == map[b.address := Refreshed(Header(MAGIC, b.capacity, b.requested, 0, 0, 0, b.free), b.address)]
    ensures Linked(hs, [b])
  {
    assert HasHeader(hs, [b], 0);
  }

  lemma FirstFitIs(bs: seq<Block>, capacity: nat, k: nat)
    requires k <= |bs| && (k < |bs| ==> Fits(bs[k], capacity)) && forall j :: 0 <= j < k ==> !Fits(bs[j], capacity)
    ensures k == FirstFit(bs, capacity, 0)
  {
  }
}
