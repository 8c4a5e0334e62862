/** The kernel heap as a row of blocks: first fit with splitting, growth at the end and merging on free. */
module Heap {
  const START: nat := 0xD000_0000
  const MAX_SIZE: nat := 0x100_0000
  const ALIGNMENT: nat := 16
  const HEADER: nat := 32
  const CANARY: nat := 4
  const PAGE_SIZE: nat := 4096

  datatype Block = Block(address: nat, capacity: nat, requested: nat, free: bool)

  function Payload(b: Block): nat {
    b.address + HEADER
  }

  function End(b: Block): nat {
    b.address + HEADER + b.capacity
  }

  predicate Aligned(n: nat) {
    n % ALIGNMENT == 0
  }

  predicate BlockOk(b: Block) {
    && Aligned(b.address) && Aligned(b.capacity) && b.capacity >= ALIGNMENT
    && if b.free then b.requested == 0 else 0 < b.requested && b.requested + CANARY <= b.capacity
  }

  // ---------- The invariant ----------

  /** The blocks lie end to end and fill the addresses from low to high. */
  ghost predicate Tiles(bs: seq<Block>, low: nat, high: nat) {
    && |bs| > 0 && bs[0].address == low && End(bs[|bs| - 1]) == high
    && (forall i :: 0 <= i < |bs| ==> BlockOk(bs[i]))
    && (forall i, j :: 0 <= i < |bs| && j == i + 1 < |bs| ==> bs[j].address == End(bs[i]))
  }

  ghost predicate Coalesced(bs: seq<Block>) {
    forall i, j :: 0 <= i < |bs| && j == i + 1 < |bs| ==> !(bs[i].free && bs[j].free)
  }

  function Requested(bs: seq<Block>): nat {
    if bs == [] then 0 else Requested(bs[..|bs| - 1]) + bs[|bs| - 1].requested
  }

  function Used(bs: seq<Block>): set<Block> {
    set b | b in bs && !b.free
  }

  datatype Heap = Heap(ready: bool, blocks: seq<Block>, mapped: nat, used: int)

  const EMPTY: Heap := Heap(false, [], 0, 0)

  /** The blocks fill the mapped pages, and no two free ones touch. */
  ghost predicate Row(bs: seq<Block>, mapped: nat) {
    && mapped <= MAX_SIZE && mapped % PAGE_SIZE == 0 && (mapped > 0 <==> bs != [])
    && (bs != [] ==> Tiles(bs, START, START + mapped) && Coalesced(bs))
  }

  ghost predicate Inv(h: Heap) {
    Row(h.blocks, h.mapped) && h.used == Requested(h.blocks) && (h.ready <==> h.mapped > 0)
  }

  // ---------- Operations on the row ----------

  function AlignUp(n: nat): (r: nat)
    ensures Aligned(r) && n <= r < n + ALIGNMENT
  {
    (n + ALIGNMENT - 1) / ALIGNMENT * ALIGNMENT
  }

  /** Bytes added for a request: whole pages, or none when the limit would be passed. */
  function GrowthFor(mapped: nat, minimum: nat): (added: nat)
    requires mapped <= MAX_SIZE
    ensures added % PAGE_SIZE == 0 && mapped + added <= MAX_SIZE && (added > 0 ==> minimum <= added < minimum + PAGE_SIZE)
    ensures mapped % PAGE_SIZE == 0 ==> (added == 0 <==> minimum == 0 || minimum > MAX_SIZE - mapped)
  {
    var added := (minimum + PAGE_SIZE - 1) / PAGE_SIZE * PAGE_SIZE;
    assert mapped % PAGE_SIZE == 0 ==> (added <= MAX_SIZE - mapped <==> minimum <= MAX_SIZE - mapped);
    if minimum == 0 || added > MAX_SIZE - mapped then 0 else added
  }

  function Grown(bs: seq<Block>, mapped: nat, added: nat): seq<Block>
    requires added >= PAGE_SIZE
  {
    if bs != [] && bs[|bs| - 1].free then
      bs[..|bs| - 1] + [bs[|bs| - 1].(capacity := bs[|bs| - 1].capacity + added)]
    else bs + [Block(START + mapped, added - HEADER, 0, true)]
  }

  predicate Fits(b: Block, capacity: nat) {
    b.free && b.capacity >= capacity
  }

  /** The first free block that is large enough; the length when there is none. */
  function FirstFit(bs: seq<Block>, capacity: nat, i: nat): (k: nat)
    requires i <= |bs|
    ensures i <= k <= |bs| && (k < |bs| ==> Fits(bs[k], capacity))
    ensures forall j :: i <= j < k ==> !Fits(bs[j], capacity)
    decreases |bs| - i
  {
    if i == |bs| || Fits(bs[i], capacity) then i else FirstFit(bs, capacity, i + 1)
  }

  /** A block cut down to a capacity, with the rest as a free block when that is worth a header of its own. */
  function Pieces(b: Block, capacity: nat): (ps: seq<Block>)
    ensures 1 <= |ps| <= 2
  {
    if b.capacity < capacity + HEADER + ALIGNMENT then [b]
    else [b.(capacity := capacity), Block(b.address + HEADER + capacity, b.capacity - capacity - HEADER, 0, true)]
  }

  function SplitAt(bs: seq<Block>, i: nat, capacity: nat): (r: seq<Block>)
    requires i < |bs|
    ensures i < |r|
  {
    bs[..i] + Pieces(bs[i], capacity) + bs[i + 1..]
  }

  function Taken(bs: seq<Block>, i: nat, capacity: nat, size: nat): seq<Block>
    requires i < |bs|
  {
    var s := SplitAt(bs, i, capacity);
    s[i := s[i].(requested := size, free := false)]
  }

  function Join(a: Block, b: Block): Block {
    a.(capacity := a.capacity + HEADER + b.capacity)
  }

  /** Joins block i with the next one if that is free. */
  function Merged(bs: seq<Block>, i: nat): (r: seq<Block>)
    requires i < |bs|
    ensures i < |r| && r[..i] == bs[..i] && r[i].address == bs[i].address
  {
    if i + 1 < |bs| && bs[i + 1].free then
      bs[..i] + [Join(bs[i], bs[i + 1])] + bs[i + 2..]
    else bs
  }

  function Marked(bs: seq<Block>, i: nat): (r: seq<Block>)
    requires i < |bs|
    ensures |r| == |bs|
  {
    bs[i := bs[i].(requested := 0, free := true)]
  }

  function Freed(bs: seq<Block>, i: nat): seq<Block>
    requires i < |bs|
  {
    var joined := Merged(Marked(bs, i), i);
    if i > 0 && joined[i - 1].free then Merged(joined, i - 1) else joined
  }

  // ---------- Replacing part of the row ----------

  function Splice(bs: seq<Block>, i: nat, j: nat, mid: seq<Block>): seq<Block>
    requires i <= j <= |bs|
  {
    bs[..i] + mid + bs[j..]
  }

  /** A stretch of the row may be exchanged for another that covers the same addresses. */
  lemma SpliceTiles(bs: seq<Block>, i: nat, j: nat, mid: seq<Block>, low: nat, high: nat)
    requires Tiles(bs, low, high) && i < j <= |bs| && Tiles(mid, bs[i].address, End(bs[j - 1]))
    ensures Tiles(Splice(bs, i, j, mid), low, high)
  {
    var r := Splice(bs, i, j, mid);
    forall k, l | 0 <= k < |r| && l == k + 1 < |r| ensures r[l].address == End(r[k]) {
      assert r[k] == if k < i then bs[k] else if k < i + |mid| then mid[k - i] else bs[k - i - |mid| + j];
      assert r[l] == if l < i then bs[l] else if l < i + |mid| then mid[l - i] else bs[l - i - |mid| + j];
    }
  }

  lemma {:induction false} RequestedAppend(a: seq<Block>, b: seq<Block>)
    ensures Requested(a + b) == Requested(a) + Requested(b)
  {
    if b == [] {
      assert a + b == a;
    } else {
      RequestedAppend(a, b[..|b| - 1]);
      assert (a + b)[..|a + b| - 1] == a + b[..|b| - 1];
    }
  }

  lemma SpliceRequested(bs: seq<Block>, i: nat, j: nat, mid: seq<Block>)
    requires i <= j <= |bs|
    ensures Requested(Splice(bs, i, j, mid)) + Requested(bs[i..j]) == Requested(bs) + Requested(mid)
  {
    assert bs == bs[..i] + bs[i..j] + bs[j..];
    RequestedAppend(bs[..i] + bs[i..j], bs[j..]);
    RequestedAppend(bs[..i], bs[i..j]);
    RequestedAppend(bs[..i] + mid, bs[j..]);
    RequestedAppend(bs[..i], mid);
  }

  /** Earlier blocks end before later ones begin. */
  lemma {:induction false} InOrder(bs: seq<Block>, low: nat, high: nat, i: nat, j: nat)
    requires Tiles(bs, low, high) && i < j < |bs|
    ensures End(bs[i]) <= bs[j].address
    decreases j - i
  {
    if i + 1 < j {
      InOrder(bs, low, high, i + 1, j);
      var k := i + 1;
      assert bs[k].address == End(bs[i]);
    }
  }

  lemma WithinRow(bs: seq<Block>, low: nat, high: nat, i: nat)
    requires Tiles(bs, low, high) && i < |bs|
    ensures low <= bs[i].address && End(bs[i]) <= high
  {
    if i > 0 {
      InOrder(bs, low, high, 0, i);
    }
    if i < |bs| - 1 {
      InOrder(bs, low, high, i, |bs| - 1);
    }
  }

  lemma SpliceUsed(bs: seq<Block>, i: nat, j: nat, mid: seq<Block>, low: nat, high: nat)
    requires Tiles(bs, low, high) && i <= j <= |bs|
    ensures Used(Splice(bs, i, j, mid)) == (Used(bs) - Used(bs[i..j])) + Used(mid)
  {
    var r := Splice(bs, i, j, mid);
    forall b ensures b in r <==> b in bs[..i] || b in mid || b in bs[j..] {
    }
    forall b | b in bs[i..j] ensures b !in bs[..i] && b !in bs[j..] {
      var k :| i <= k < j && bs[k] == b;
      forall l: nat | l < |bs| && l != k ensures bs[l] != b {
        if l < k {
          InOrder(bs, low, high, l, k);
        } else {
          InOrder(bs, low, high, k, l);
        }
      }
    }
    assert bs == bs[..i] + bs[i..j] + bs[j..];
  }

  // ---------- What each operation keeps ----------

  lemma AppendedUsed(front: seq<Block>, b: Block)
    requires b.free && b.requested == 0
    ensures Used(front + [b]) == Used(front) && Requested(front + [b]) == Requested(front)
  {
    RequestedAppend(front, [b]);
    assert Requested([b]) == 0;
    assert forall x :: x in front + [b] <==> x in front || x == b;
  }

  lemma AppendedTiles(front: seq<Block>, b: Block, low: nat, middle: nat)
    requires BlockOk(b) && b.free && b.address == middle
    requires if front == [] then middle == low else Tiles(front, low, middle) && Coalesced(front) && !front[|front| - 1].free
    ensures Tiles(front + [b], low, End(b)) && Coalesced(front + [b])
  {
    var r := front + [b];
    forall i, j | 0 <= i < |r| && j == i + 1 < |r| ensures r[j].address == End(r[i]) && !(r[i].free && r[j].free) {
      assert r[i] == front[i];
      assert j < |front| ==> r[j] == front[j];
    }
  }

  lemma FrontTiles(bs: seq<Block>, low: nat, high: nat)
    requires Tiles(bs, low, high) && Coalesced(bs) && bs[|bs| - 1].free && |bs| > 1
    ensures var front := bs[..|bs| - 1];
            Tiles(front, low, bs[|bs| - 1].address) && Coalesced(front) && !front[|front| - 1].free
  {
    var i, j := |bs| - 2, |bs| - 1;
    assert bs[j].address == End(bs[i]) && !bs[i].free;
  }

  /** The new pages join a free last block, or become a free block of their own. */
  lemma GrownKeeps(bs: seq<Block>, mapped: nat, added: nat)
    requires added >= PAGE_SIZE && added % PAGE_SIZE == 0 && mapped % PAGE_SIZE == 0
    requires bs == [] ==> mapped == 0
    requires bs != [] ==> Tiles(bs, START, START + mapped) && Coalesced(bs)
    ensures var r := Grown(bs, mapped, added);
            && Tiles(r, START, START + mapped + added) && Coalesced(r) && Used(r) == Used(bs) && Requested(r) == Requested(bs)
            && Fits(r[|r| - 1], added - HEADER)
  {
    hide Tiles, Coalesced, Used, Requested, Aligned;
    var r := Grown(bs, mapped, added);
    PagesAreAligned(mapped);
    PagesAreAligned(added);
    PagesAreAligned(START);
    AlignedSum(START, mapped);
    AlignedSum(added, added);
    if bs != [] && bs[|bs| - 1].free {
      var front, last := bs[..|bs| - 1], bs[|bs| - 1];
      assert bs == front + [last];
      LastBlock(bs, START, START + mapped);
      AlignedSum(last.capacity, added);
      AppendedUsed(front, last);
      AppendedUsed(front, r[|r| - 1]);
      if |bs| > 1 {
        FrontTiles(bs, START, START + mapped);
      }
      AppendedTiles(front, r[|r| - 1], START, last.address);
    } else {
      AppendedUsed(bs, r[|r| - 1]);
      AppendedTiles(bs, r[|r| - 1], START, START + mapped);
    }
  }

  lemma AlignedSum(a: nat, b: nat)
    requires Aligned(a) && Aligned(b)
    ensures Aligned(a + b) && Aligned(a + HEADER) && (a >= HEADER ==> Aligned(a - HEADER))
  {
  }

  lemma PagesAreAligned(n: nat)
    requires n % PAGE_SIZE == 0
    ensures Aligned(n)
  {
    var k := n / PAGE_SIZE;
    assert n == ALIGNMENT * (256 * k);
  }

  lemma LastBlock(bs: seq<Block>, low: nat, high: nat)
    requires Tiles(bs, low, high)
    ensures BlockOk(bs[|bs| - 1]) && End(bs[|bs| - 1]) == high && (|bs| == 1 ==> bs[0].address == low)
    ensures bs[|bs| - 1].free ==> bs[|bs| - 1].requested == 0
  {
  }

  lemma PiecesTile(b: Block, capacity: nat)
    requires BlockOk(b) && b.free && b.capacity >= capacity && Aligned(capacity) && capacity >= ALIGNMENT
    ensures Tiles(Pieces(b, capacity), b.address, End(b)) && Pieces(b, capacity)[0].capacity >= capacity
    ensures forall p :: p in Pieces(b, capacity) ==> p.free
  {
  }

  /** The block handed out is new, is cut from the one that was found, and no other live block is touched. */
  lemma TakenKeeps(bs: seq<Block>, i: nat, size: nat, low: nat, high: nat)
    requires Tiles(bs, low, high) && Coalesced(bs) && size > 0 && i < |bs| && Fits(bs[i], AlignUp(size + CANARY))
    ensures var r := Taken(bs, i, AlignUp(size + CANARY), size);
            && Tiles(r, low, high) && Coalesced(r) && i < |r| && r[i].address == bs[i].address && !r[i].free && r[i].requested == size
            && Used(r) == Used(bs) + {r[i]} && r[i] !in Used(bs) && Requested(r) == Requested(bs) + size
  {
    var capacity := AlignUp(size + CANARY);
    PiecesTile(bs[i], capacity);
    TakenIsSplice(bs, i, capacity, size, low, high);
    TakenCoalesced(bs, i, capacity, size);
    TakenIsNew(bs, i, Taken(bs, i, capacity, size)[i], low, high);
  }

  lemma TakenIsSplice(bs: seq<Block>, i: nat, capacity: nat, size: nat, low: nat, high: nat)
    requires Tiles(bs, low, high) && i < |bs| && size > 0 && size + CANARY <= capacity && Fits(bs[i], capacity) && Aligned(capacity)
    ensures var r := Taken(bs, i, capacity, size);
            Tiles(r, low, high) && i < |r| && r[i] == Pieces(bs[i], capacity)[0].(requested := size, free := false)
            && Used(r) == Used(bs) + {r[i]} && Requested(r) == Requested(bs) + size
  {
    hide Tiles, Used, Requested;
    var taken := TakenPieces(bs[i], capacity, size);
    assert Taken(bs, i, capacity, size) == Splice(bs, i, i + 1, taken);
    assert bs[i..i + 1] == [bs[i]];
    OneTaken(bs, i, capacity, size, low, high);
    SpliceTiles(bs, i, i + 1, taken, low, high);
    SpliceUsed(bs, i, i + 1, taken, low, high);
    SpliceRequested(bs, i, i + 1, taken);
  }

  function TakenPieces(b: Block, capacity: nat, size: nat): (ps: seq<Block>)
    ensures 1 <= |ps| <= 2
  {
    var ps := Pieces(b, capacity);
    ps[0 := ps[0].(requested := size, free := false)]
  }

  lemma OneTaken(bs: seq<Block>, i: nat, capacity: nat, size: nat, low: nat, high: nat)
    requires Tiles(bs, low, high) && i < |bs| && size > 0 && size + CANARY <= capacity && Fits(bs[i], capacity) && Aligned(capacity)
    ensures var ps := TakenPieces(bs[i], capacity, size);
            && Tiles(ps, bs[i].address, End(bs[i])) && Requested(ps) == size && Used(ps) == {ps[0]}
            && Requested([bs[i]]) == 0 && Used([bs[i]]) == {}
  {
    hide Aligned;
    var ps := TakenPieces(bs[i], capacity, size);
    AlignUpSize(capacity, size);
    PiecesTile(bs[i], capacity);
    assert ps[..1] == [ps[0]];
    assert Requested([ps[0]]) == size;
  }

  lemma AlignUpSize(capacity: nat, size: nat)
    requires Aligned(capacity) && capacity >= size + CANARY
    ensures capacity >= ALIGNMENT
  {
  }

  lemma TakenCoalesced(bs: seq<Block>, i: nat, capacity: nat, size: nat)
    requires i < |bs| && Coalesced(bs) && bs[i].free
    ensures Coalesced(Taken(bs, i, capacity, size))
  {
    var r := Taken(bs, i, capacity, size);
    var extra := |r| - |bs|;
    forall k, l | 0 <= k < |r| && l == k + 1 < |r| ensures !(r[k].free && r[l].free) {
      assert k < i ==> r[k] == bs[k];
      assert l < i ==> r[l] == bs[l];
      assert k > i + extra ==> r[k] == bs[k - extra];
      assert l > i + extra ==> r[l] == bs[l - extra];
    }
  }

  lemma TakenIsNew(bs: seq<Block>, i: nat, b: Block, low: nat, high: nat)
    requires Tiles(bs, low, high) && i < |bs| && bs[i].free && b.address == bs[i].address && !b.free
    ensures b !in Used(bs)
  {
    if b in bs {
      var k :| 0 <= k < |bs| && bs[k] == b;
      if k < i {
        InOrder(bs, low, high, k, i);
      }
      if i < k {
        InOrder(bs, low, high, i, k);
      }
    }
  }

  lemma MarkedKeeps(bs: seq<Block>, i: nat, low: nat, high: nat)
    requires Tiles(bs, low, high) && i < |bs| && !bs[i].free
    ensures var r := Marked(bs, i);
            Tiles(r, low, high) && Used(r) == Used(bs) - {bs[i]} && Requested(r) + bs[i].requested == Requested(bs)
  {
    var b := bs[i].(requested := 0, free := true);
    assert Marked(bs, i) == Splice(bs, i, i + 1, [b]);
    assert Tiles([b], bs[i].address, End(bs[i]));
    SpliceTiles(bs, i, i + 1, [b], low, high);
    SpliceUsed(bs, i, i + 1, [b], low, high);
    SpliceRequested(bs, i, i + 1, [b]);
    assert bs[i..i + 1] == [bs[i]];
    assert Requested([b]) == 0 && Requested([bs[i]]) == bs[i].requested;
    assert Used([b]) == {} && Used([bs[i]]) == {bs[i]};
  }

  lemma JoinTiles(a: Block, b: Block)
    requires BlockOk(a) && BlockOk(b) && a.free && b.free && b.address == End(a)
    ensures Tiles([Join(a, b)], a.address, End(b))
    ensures Used([Join(a, b)]) == Used([a, b]) == {} && Requested([Join(a, b)]) == Requested([a, b]) == 0
  {
    hide Aligned;
    AlignedSum(a.capacity, b.capacity);
    AlignedSum(a.capacity + HEADER, b.capacity);
    assert [a, b][..1] == [a];
    assert Requested([a]) == 0;
  }

  lemma Neighbours(bs: seq<Block>, i: nat, low: nat, high: nat)
    requires Tiles(bs, low, high) && i + 1 < |bs|
    ensures BlockOk(bs[i]) && BlockOk(bs[i + 1]) && bs[i + 1].address == End(bs[i])
  {
    var j := i + 1;
    assert bs[j].address == End(bs[i]);
  }

  lemma MergedKeeps(bs: seq<Block>, i: nat, low: nat, high: nat)
    requires Tiles(bs, low, high) && i < |bs| && bs[i].free
    ensures var r := Merged(bs, i); Tiles(r, low, high) && Used(r) == Used(bs) && Requested(r) == Requested(bs)
  {
    hide Used, Requested, BlockOk, Tiles;
    var j := i + 1;
    if j < |bs| && bs[j].free {
      Neighbours(bs, i, low, high);
      var mid := [Join(bs[i], bs[j])];
      JoinTiles(bs[i], bs[j]);
      assert Merged(bs, i) == Splice(bs, i, i + 2, mid);
      assert bs[i..i + 2] == [bs[i], bs[j]];
      SpliceTiles(bs, i, i + 2, mid, low, high);
      SpliceUsed(bs, i, i + 2, mid, low, high);
      SpliceRequested(bs, i, i + 2, mid);
    }
  }

  /** Only the blocks next to the one just freed can be free as well, and they have been joined to it. */
  lemma FreedCoalesced(bs: seq<Block>, i: nat)
    requires i < |bs| && Coalesced(bs) && !bs[i].free
    ensures Coalesced(Freed(bs, i))
  {
    var marked := Marked(bs, i);
    var joined := Merged(marked, i);
    var gone := |bs| - |joined|;
    forall k | 0 <= k < |joined| ensures joined[k].free == (if k < i then bs[k].free else k == i || bs[k + gone].free) {
    }
    forall k, l | i <= k && l == k + 1 < |joined| ensures !(joined[k].free && joined[l].free) {
      assert k > i ==> !(bs[k + gone].free && bs[l + gone].free);
      var n := i + 1;
      assert k == i && gone == 1 ==> !(bs[n].free && bs[n + 1].free);
    }
    forall k, l | 0 <= k && l == k + 1 < i ensures !(joined[k].free && joined[l].free) {
      assert !(bs[k].free && bs[l].free);
    }
    PreviousCoalesced(joined, i);
  }

  lemma PreviousCoalesced(joined: seq<Block>, i: nat)
    requires i < |joined| && joined[i].free
    requires forall k, l :: i <= k && l == k + 1 < |joined| ==> !(joined[k].free && joined[l].free)
    requires forall k, l :: 0 <= k && l == k + 1 < i ==> !(joined[k].free && joined[l].free)
    ensures Coalesced(if i > 0 && joined[i - 1].free then Merged(joined, i - 1) else joined)
  {
    if i > 0 && joined[i - 1].free {
      var r := Merged(joined, i - 1);
      forall k, l | 0 <= k < |r| && l == k + 1 < |r| ensures !(r[k].free && r[l].free) {
        assert k < i - 1 ==> r[k] == joined[k];
        assert l < i - 1 ==> r[l] == joined[l];
        assert k >= i ==> r[k] == joined[k + 1];
        assert l >= i ==> r[l] == joined[l + 1];
        assert k < i - 1 && l == i - 1 ==> !joined[k].free;
        var m := k + 1;
        assert k >= i - 1 ==> !(joined[m].free && joined[m + 1].free);
      }
    }
  }

  /** Freeing one live block takes exactly it out of use, joins its free neighbours and keeps the row whole. */
  lemma FreedKeeps(bs: seq<Block>, i: nat, low: nat, high: nat)
    requires Tiles(bs, low, high) && Coalesced(bs) && i < |bs| && !bs[i].free
    ensures var r := Freed(bs, i);
            && Tiles(r, low, high) && Coalesced(r)
            && Used(r) == Used(bs) - {bs[i]} && Requested(r) + bs[i].requested == Requested(bs)
  {
    hide Tiles, Coalesced, Used, Requested;
    var marked := Marked(bs, i);
    MarkedKeeps(bs, i, low, high);
    MergedKeeps(marked, i, low, high);
    var joined := Merged(marked, i);
    if i > 0 && joined[i - 1].free {
      MergedKeeps(joined, i - 1, low, high);
    }
    FreedCoalesced(bs, i);
  }
}
