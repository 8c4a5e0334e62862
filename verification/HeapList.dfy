/** The heap as the kernel keeps it: headers in a doubly linked list, with cookies and guard words. */
module HeapList {
  import opened Binary
  import opened Heap

  const MAGIC: nat := 0x4845_4150
  const COOKIE_SEED: nat := 0xEF05_C0DE

  datatype Header = Header(magic: nat, capacity: nat, requested: nat, cookie: nat, previous: nat, next: nat, free: bool)

  type Headers = map<nat, Header>

  function Cookie(address: nat, capacity: nat, requested: nat): nat {
    Xor(Xor(Xor(COOKIE_SEED, address), capacity), requested)
  }

  function Refreshed(h: Header, address: nat): Header {
    h.(cookie := Cookie(address, h.capacity, h.requested))
  }

  /** The check made on a header before it is trusted. */
  predicate HeaderOk(h: Header, address: nat, mapped: nat) {
    && START <= address && address + HEADER <= START + mapped && h.magic == MAGIC
    && address + HEADER + h.capacity <= START + mapped && h.cookie == Cookie(address, h.capacity, h.requested)
  }

  /** A header in which only the capacity, only the size asked for, or only the cookie was altered is not trusted. */
  lemma AlteredHeaderRefused(h: Header, address: nat, mapped: nat, value: nat)
    requires HeaderOk(h, address, mapped)
    ensures HeaderOk(h.(capacity := value), address, mapped) ==> value == h.capacity
    ensures HeaderOk(h.(requested := value), address, mapped) ==> value == h.requested
    ensures HeaderOk(h.(cookie := value), address, mapped) ==> value == h.cookie
    ensures HeaderOk(h.(magic := value), address, mapped) ==> value == h.magic
  {
    hide Xor;
    var base := Xor(COOKIE_SEED, address);
    XorCancel(Xor(base, h.capacity), Xor(base, value), h.requested);
    XorCancel(h.capacity, value, base);
    XorCancel(base, base, h.capacity);
    XorCancel(base, base, value);
    XorCancel(h.requested, value, Xor(base, h.capacity));
    XorCancel(Xor(base, h.capacity), Xor(base, h.capacity), h.requested);
    XorCancel(Xor(base, h.capacity), Xor(base, h.capacity), value);
  }

  // ---------- The list stands for the row ----------

  function HeaderOf(bs: seq<Block>, i: nat): Header
    requires i < |bs|
  {
    Header(MAGIC, bs[i].capacity, bs[i].requested, Cookie(bs[i].address, bs[i].capacity, bs[i].requested),
           if i == 0 then 0 else bs[i - 1].address, if i + 1 == |bs| then 0 else bs[i + 1].address, bs[i].free)
  }

  function Addresses(bs: seq<Block>): set<nat> {
    set b | b in bs :: b.address
  }

  /** Memory holds the header of block i where that block begins. */
  predicate HasHeader(hs: Headers, bs: seq<Block>, i: nat)
    requires i < |bs|
  {
    bs[i].address in hs && hs[bs[i].address] == HeaderOf(bs, i)
  }

  ghost predicate Linked(hs: Headers, bs: seq<Block>) {
    hs.Keys == Addresses(bs) && forall i: nat :: i < |bs| ==> HasHeader(hs, bs, i)
  }

  ghost predicate Sorted(bs: seq<Block>) {
    forall i: nat, j: nat :: i < j < |bs| ==> bs[i].address < bs[j].address
  }

  lemma TilesSorted(bs: seq<Block>, low: nat, high: nat)
    requires Tiles(bs, low, high)
    ensures Sorted(bs)
  {
    forall i: nat, j: nat | i < j < |bs| ensures bs[i].address < bs[j].address {
      InOrder(bs, low, high, i, j);
    }
  }

  lemma HeadersAreOk(hs: Headers, bs: seq<Block>, mapped: nat, i: nat)
    requires Linked(hs, bs) && Tiles(bs, START, START + mapped) && i < |bs|
    ensures HasHeader(hs, bs, i) && HeaderOk(hs[bs[i].address], bs[i].address, mapped)
  {
    WithinRow(bs, START, START + mapped, i);
  }

  /** In a sorted row the blocks of a stretch begin elsewhere than the others. */
  lemma StretchApart(bs: seq<Block>, i: nat, j: nat, b: Block, c: Block)
    requires Sorted(bs) && i <= j <= |bs| && b in bs[i..j] && (c in bs[..i] || c in bs[j..])
    ensures b.address != c.address
  {
    var k: nat :| i <= k < j && bs[k] == b;
    var l: nat :| (l < i || j <= l < |bs|) && bs[l] == c;
    assert l < k ==> bs[l].address < bs[k].address;
    assert k < l ==> bs[k].address < bs[l].address;
  }

  lemma JoinedAddresses(a: seq<Block>, b: seq<Block>)
    ensures Addresses(a + b) == Addresses(a) + Addresses(b)
  {
    assert forall x :: x in a + b <==> x in a || x in b;
  }

  lemma SpliceAddresses(bs: seq<Block>, i: nat, j: nat, mid: seq<Block>)
    requires Sorted(bs) && i <= j <= |bs|
    ensures Addresses(Splice(bs, i, j, mid)) == (Addresses(bs) - Addresses(bs[i..j])) + Addresses(mid)
  {
    var before, inside, after := Addresses(bs[..i]), Addresses(bs[i..j]), Addresses(bs[j..]);
    assert bs == bs[..i] + bs[i..j] + bs[j..];
    JoinedAddresses(bs[..i] + bs[i..j], bs[j..]);
    JoinedAddresses(bs[..i], bs[i..j]);
    JoinedAddresses(bs[..i] + mid, bs[j..]);
    JoinedAddresses(bs[..i], mid);
    forall x | x in inside ensures x !in before + after {
      if x in before + after {
        var b: Block :| b in bs[i..j] && b.address == x;
        var c: Block :| (c in bs[..i] || c in bs[j..]) && c.address == x;
        StretchApart(bs, i, j, b, c);
        assert false;
      }
    }
  }

  /** Headers before the change stay as they are: the changed stretch still begins at the same address. */
  lemma HeaderBefore(bs: seq<Block>, i: nat, j: nat, mid: seq<Block>, x: nat)
    requires i < j <= |bs| && |mid| > 0 && mid[0].address == bs[i].address && x < i
    ensures HeaderOf(Splice(bs, i, j, mid), x) == HeaderOf(bs, x)
  {
    hide Cookie;
  }

  lemma HeaderAfter(bs: seq<Block>, i: nat, j: nat, mid: seq<Block>, y: nat)
    requires i < j <= y < |bs| && |mid| > 0
    ensures var r := Splice(bs, i, j, mid); var x := y - j + i + |mid|;
            x < |r| && r[x] == bs[y] && HeaderOf(r, x) == if y == j then HeaderOf(bs, y).(previous := mid[|mid| - 1].address) else HeaderOf(bs, y)
  {
    hide Cookie;
    var r := Splice(bs, i, j, mid);
    var x := y - j + i + |mid|;
    assert r[x] == bs[y];
    assert y + 1 < |bs| ==> r[x + 1] == bs[y + 1];
    assert y > j ==> r[x - 1] == bs[y - 1];
    assert y == j ==> r[x - 1] == mid[|mid| - 1];
  }

  /** A stretch of the list is exchanged: its own headers and the one after it change, no others. */
  lemma SpliceLinked(hs: Headers, hs': Headers, bs: seq<Block>, i: nat, j: nat, mid: seq<Block>)
    requires Linked(hs, bs) && i < j <= |bs| && |mid| > 0 && mid[0].address == bs[i].address
    requires forall y: nat :: y < |bs| && (y < i || y > j) ==> bs[y].address in hs' && hs'[bs[y].address] == hs[bs[y].address]
    requires forall l: nat :: l < |mid| ==> mid[l].address in hs' && hs'[mid[l].address] == HeaderOf(Splice(bs, i, j, mid), i + l)
    requires j < |bs| ==> bs[j].address in hs' && hs'[bs[j].address] == HeaderOf(bs, j).(previous := mid[|mid| - 1].address)
    requires hs'.Keys == Addresses(Splice(bs, i, j, mid))
    ensures Linked(hs', Splice(bs, i, j, mid))
  {
    hide HeaderOf, Addresses;
    var r := Splice(bs, i, j, mid);
    forall x: nat | x < |r| ensures HasHeader(hs', r, x) {
      if x < i {
        assert HasHeader(hs, bs, x);
        HeaderBefore(bs, i, j, mid, x);
        assert r[x] == bs[x];
      } else if x < i + |mid| {
        var l := x - i;
        assert r[x] == mid[l];
      } else {
        assert HasHeader(hs, bs, x - i - |mid| + j);
        HeaderAfter(bs, i, j, mid, x - i - |mid| + j);
      }
    }
  }

  // ---------- The header writes of each operation ----------

  lemma NextHeader(hs: Headers, bs: seq<Block>, k: nat)
    requires Linked(hs, bs) && Sorted(bs) && k < |bs| && bs[0].address > 0
    ensures HasHeader(hs, bs, k)
    ensures var next := hs[bs[k].address].next;
            if k + 1 < |bs| then next == bs[k + 1].address > 0 && next in hs && hs[next] == HeaderOf(bs, k + 1) else next == 0
    ensures var previous := hs[bs[k].address].previous;
            if k > 0 then previous == bs[k - 1].address > 0 && previous in hs && hs[previous] == HeaderOf(bs, k - 1) else previous == 0
  {
    hide Cookie;
    var m := k + 1;
    assert m < |bs| ==> bs[0].address < bs[m].address;
    assert HasHeader(hs, bs, k) && (m < |bs| ==> HasHeader(hs, bs, m)) && (k > 0 ==> HasHeader(hs, bs, k - 1));
    assert k > 1 ==> bs[0].address < bs[k - 1].address;
  }

  /** One header is rewritten in place, with its address and links kept. */
  function Rewritten(hs: Headers, a: nat, capacity: nat, requested: nat, free: bool): Headers
    requires a in hs
  {
    hs[a := Refreshed(hs[a].(capacity := capacity, requested := requested, free := free), a)]
  }

  lemma RewrittenLinked(hs: Headers, bs: seq<Block>, k: nat, b: Block)
    requires Linked(hs, bs) && Sorted(bs) && k < |bs| && b.address == bs[k].address && b.address in hs
    ensures Linked(Rewritten(hs, b.address, b.capacity, b.requested, b.free), bs[k := b])
  {
    hide Cookie, Addresses;
    var hs' := Rewritten(hs, b.address, b.capacity, b.requested, b.free);
    assert bs[k := b] == Splice(bs, k, k + 1, [b]);
    OneAddress(bs, k, b);
    assert HasHeader(hs, bs, k) && (k + 1 < |bs| ==> HasHeader(hs, bs, k + 1));
    forall y: nat | y < |bs| && y != k ensures bs[y].address in hs' && hs'[bs[y].address] == hs[bs[y].address] {
      assert HasHeader(hs, bs, y);
    }
    SpliceLinked(hs, hs', bs, k, k + 1, [b]);
  }

  lemma OneAddress(bs: seq<Block>, k: nat, b: Block)
    requires Sorted(bs) && k < |bs| && b.address == bs[k].address
    ensures Addresses(Splice(bs, k, k + 1, [b])) == Addresses(bs)
  {
    SpliceAddresses(bs, k, k + 1, [b]);
    assert bs[k..k + 1] == [bs[k]];
    assert Addresses([b]) == Addresses([bs[k]]) == {b.address};
    assert bs[k] in bs;
  }

  /** Cutting a block in two: a new header between it and the next one. */
  function CutHeaders(hs: Headers, a: nat, capacity: nat): Headers
    requires a in hs && hs[a].capacity >= capacity + HEADER && (hs[a].next != 0 ==> hs[a].next in hs)
  {
    var h := hs[a];
    var rest := a + HEADER + capacity;
    var made := hs[rest := Refreshed(Header(MAGIC, h.capacity - capacity - HEADER, 0, 0, a, h.next, true), rest)];
    var back := if h.next != 0 then made[h.next := Refreshed(hs[h.next].(previous := rest), h.next)] else made;
    back[a := Refreshed(h.(capacity := capacity, next := rest), a)]
  }

  lemma CutLinked(hs: Headers, bs: seq<Block>, k: nat, capacity: nat)
    requires Linked(hs, bs) && Sorted(bs) && k < |bs| && bs[0].address > 0
    requires bs[k].capacity >= capacity + HEADER + ALIGNMENT && (k + 1 < |bs| ==> bs[k + 1].address == End(bs[k]))
    ensures bs[k].address in hs && hs[bs[k].address].capacity >= capacity + HEADER
    ensures hs[bs[k].address].next != 0 ==> hs[bs[k].address].next in hs
    ensures Linked(CutHeaders(hs, bs[k].address, capacity), SplitAt(bs, k, capacity))
  {
    hide Addresses, CutHeaders, HeaderOf, Pieces, Sorted;
    CutHere(hs, bs, k, capacity);
    var mid := Pieces(bs[k], capacity);
    CutAddresses(hs, bs, k, capacity);
    forall y: nat | y < |bs| && (y < k || y > k + 1)
      ensures bs[y].address in CutHeaders(hs, bs[k].address, capacity)
      ensures bs[y].address in hs && CutHeaders(hs, bs[k].address, capacity)[bs[y].address] == hs[bs[y].address]
    {
      CutElsewhere(hs, bs, k, capacity, y);
    }
    SpliceLinked(hs, CutHeaders(hs, bs[k].address, capacity), bs, k, k + 1, mid);
  }

  /** The three headers a cut writes. */
  lemma CutHere(hs: Headers, bs: seq<Block>, k: nat, capacity: nat)
    requires Linked(hs, bs) && Sorted(bs) && k < |bs| && bs[0].address > 0
    requires bs[k].capacity >= capacity + HEADER + ALIGNMENT && (k + 1 < |bs| ==> bs[k + 1].address == End(bs[k]))
    ensures HasHeader(hs, bs, k) && hs[bs[k].address].capacity >= capacity + HEADER && (k + 1 < |bs| ==> HasHeader(hs, bs, k + 1))
    ensures hs[bs[k].address].next != 0 ==> hs[bs[k].address].next in hs
    ensures var hs', mid := CutHeaders(hs, bs[k].address, capacity), Pieces(bs[k], capacity);
            && |mid| == 2 && mid[0].address == bs[k].address
            && mid[0].address in hs' && hs'[mid[0].address] == HeaderOf(Splice(bs, k, k + 1, mid), k)
            && mid[1].address in hs' && hs'[mid[1].address] == HeaderOf(Splice(bs, k, k + 1, mid), k + 1)
            && (k + 1 < |bs| ==> bs[k + 1].address in hs' && hs'[bs[k + 1].address] == HeaderOf(bs, k + 1).(previous := mid[1].address))
  {
    hide Cookie, Addresses, Sorted;
    NextHeader(hs, bs, k);
    var mid := Pieces(bs[k], capacity);
    var r := Splice(bs, k, k + 1, mid);
    assert r[k] == mid[0] && r[k + 1] == mid[1];
    assert k > 0 ==> r[k - 1] == bs[k - 1];
    assert k + 1 < |bs| ==> r[k + 2] == bs[k + 1];
  }

  lemma CutElsewhere(hs: Headers, bs: seq<Block>, k: nat, capacity: nat, y: nat)
    requires Linked(hs, bs) && Sorted(bs) && k < |bs| && HasHeader(hs, bs, k) && y < |bs| && (y < k || y > k + 1)
    requires bs[k].capacity >= capacity + HEADER && (k + 1 < |bs| ==> bs[k + 1].address == End(bs[k]) && HasHeader(hs, bs, k + 1))
    ensures bs[y].address in CutHeaders(hs, bs[k].address, capacity) && bs[y].address in hs
    ensures CutHeaders(hs, bs[k].address, capacity)[bs[y].address] == hs[bs[y].address]
  {
    hide Cookie, Addresses;
    assert HasHeader(hs, bs, y);
    assert y < k ==> bs[y].address < bs[k].address;
    assert y > k + 1 ==> bs[k + 1].address < bs[y].address;
  }

  lemma CutAddresses(hs: Headers, bs: seq<Block>, k: nat, capacity: nat)
    requires Linked(hs, bs) && Sorted(bs) && k < |bs| && bs[k].capacity >= capacity + HEADER + ALIGNMENT
    requires bs[k].address in hs && hs[bs[k].address].capacity >= capacity + HEADER && (hs[bs[k].address].next != 0 ==> hs[bs[k].address].next in hs)
    ensures CutHeaders(hs, bs[k].address, capacity).Keys == Addresses(Splice(bs, k, k + 1, Pieces(bs[k], capacity)))
  {
    hide HasHeader, CutHeaders, Sorted;
    var mid := Pieces(bs[k], capacity);
    SpliceAddresses(bs, k, k + 1, mid);
    assert bs[k..k + 1] == [bs[k]];
    assert Addresses([bs[k]]) == {bs[k].address} && Addresses(mid) == {bs[k].address, mid[1].address};
    CutKeys(hs, bs[k].address, capacity);
    assert bs[k] in bs;
  }

  lemma CutKeys(hs: Headers, a: nat, capacity: nat)
    requires a in hs && hs[a].capacity >= capacity + HEADER && (hs[a].next != 0 ==> hs[a].next in hs)
    ensures CutHeaders(hs, a, capacity).Keys == hs.Keys + {a + HEADER + capacity}
  {
    hide Cookie;
  }

  /** Joining a block with the next one: the next header is forgotten. */
  function JoinHeaders(hs: Headers, a: nat): Headers
    requires a in hs && hs[a].next in hs && hs[a].next != a
    requires var after := hs[hs[a].next].next; after != 0 ==> after in hs && after != hs[a].next
  {
    var h := hs[a];
    var n := hs[h.next];
    var cleared := hs - {h.next};
    var back := if n.next != 0 then cleared[n.next := Refreshed(hs[n.next].(previous := a), n.next)] else cleared;
    back[a := Refreshed(h.(capacity := h.capacity + HEADER + n.capacity, next := n.next), a)]
  }

  lemma JoinLinked(hs: Headers, bs: seq<Block>, k: nat)
    requires Linked(hs, bs) && Sorted(bs) && k + 1 < |bs| && bs[0].address > 0 && bs[k + 1].free
    ensures var a := bs[k].address;
            && a in hs && hs[a].next in hs && hs[a].next != a
            && (hs[hs[a].next].next != 0 ==> hs[hs[a].next].next in hs && hs[hs[a].next].next != hs[a].next)
            && Linked(JoinHeaders(hs, a), Merged(bs, k))
  {
    hide Addresses, JoinHeaders, HeaderOf, Sorted, Join;
    JoinHere(hs, bs, k);
    var mid := [Join(bs[k], bs[k + 1])];
    JoinAddresses(hs, bs, k);
    forall y: nat | y < |bs| && (y < k || y > k + 2)
      ensures bs[y].address in JoinHeaders(hs, bs[k].address)
      ensures bs[y].address in hs && JoinHeaders(hs, bs[k].address)[bs[y].address] == hs[bs[y].address]
    {
      JoinElsewhere(hs, bs, k, y);
    }
    assert Merged(bs, k) == Splice(bs, k, k + 2, mid);
    SpliceLinked(hs, JoinHeaders(hs, bs[k].address), bs, k, k + 2, mid);
  }

  lemma JoinElsewhere(hs: Headers, bs: seq<Block>, k: nat, y: nat)
    requires Linked(hs, bs) && Sorted(bs) && k + 1 < |bs| && bs[0].address > 0 && y < |bs| && (y < k || y > k + 2)
    ensures var a := bs[k].address;
            && a in hs && hs[a].next in hs && hs[a].next != a
            && (hs[hs[a].next].next != 0 ==> hs[hs[a].next].next in hs && hs[hs[a].next].next != hs[a].next)
    ensures bs[y].address in JoinHeaders(hs, bs[k].address) && bs[y].address in hs
    ensures JoinHeaders(hs, bs[k].address)[bs[y].address] == hs[bs[y].address]
  {
    hide Cookie, Addresses;
    NextHeader(hs, bs, k);
    NextHeader(hs, bs, k + 1);
    assert HasHeader(hs, bs, y);
  }

  /** The two headers a join writes. */
  lemma JoinHere(hs: Headers, bs: seq<Block>, k: nat)
    requires Linked(hs, bs) && Sorted(bs) && k + 1 < |bs| && bs[0].address > 0
    ensures var a := bs[k].address;
            && a in hs && hs[a].next == bs[k + 1].address && hs[a].next in hs && hs[a].next != a
            && (hs[hs[a].next].next != 0 ==> hs[hs[a].next].next in hs && hs[hs[a].next].next != hs[a].next)
    ensures var hs', b := JoinHeaders(hs, bs[k].address), Join(bs[k], bs[k + 1]);
            && b.address == bs[k].address && b.address in hs' && hs'[b.address] == HeaderOf(Splice(bs, k, k + 2, [b]), k)
            && (k + 2 < |bs| ==> bs[k + 2].address in hs' && hs'[bs[k + 2].address] == HeaderOf(bs, k + 2).(previous := b.address))
  {
    hide Cookie, Addresses;
    NextHeader(hs, bs, k);
    NextHeader(hs, bs, k + 1);
    var r := Splice(bs, k, k + 2, [Join(bs[k], bs[k + 1])]);
    assert k > 0 ==> r[k - 1] == bs[k - 1];
    assert k + 2 < |bs| ==> r[k + 1] == bs[k + 2] && bs[k].address < bs[k + 2].address;
  }

  lemma JoinAddresses(hs: Headers, bs: seq<Block>, k: nat)
    requires Linked(hs, bs) && Sorted(bs) && k + 1 < |bs|
    requires var a := bs[k].address; a in hs && hs[a].next == bs[k + 1].address && hs[a].next != a
    requires var next := hs[bs[k].address].next; next in hs && (hs[next].next != 0 ==> hs[next].next in hs && hs[next].next != next)
    ensures JoinHeaders(hs, bs[k].address).Keys == Addresses(Splice(bs, k, k + 2, [Join(bs[k], bs[k + 1])]))
  {
    hide HasHeader, Sorted, Cookie;
    var mid := [Join(bs[k], bs[k + 1])];
    assert mid[0].address == bs[k].address;
    SpliceAddresses(bs, k, k + 2, mid);
    assert bs[k..k + 2] == [bs[k], bs[k + 1]];
    assert Addresses([bs[k], bs[k + 1]]) == {bs[k].address, bs[k + 1].address} && Addresses(mid) == {bs[k].address};
    assert JoinHeaders(hs, bs[k].address).Keys == hs.Keys - {bs[k + 1].address};
  }

  /** A header for new pages after the last block. */
  function ExtendedHeaders(hs: Headers, last: nat, a: nat, capacity: nat): Headers
    requires last in hs
  {
    hs[a := Refreshed(Header(MAGIC, capacity, 0, 0, last, 0, true), a)][last := Refreshed(hs[last].(next := a), last)]
  }

  lemma ExtendedLinked(hs: Headers, bs: seq<Block>, b: Block)
    requires Linked(hs, bs) && Sorted(bs + [b]) && bs != [] && b.free && b.requested == 0 && bs[|bs| - 1].address in hs
    ensures Linked(ExtendedHeaders(hs, bs[|bs| - 1].address, b.address, b.capacity), bs + [b])
  {
    hide Cookie;
    var n := |bs| - 1;
    var r := bs + [b];
    assert HasHeader(hs, bs, n);
    forall i: nat | i < |r| ensures HasHeader(ExtendedHeaders(hs, bs[n].address, b.address, b.capacity), r, i) {
      assert i < n ==> r[i].address < r[n].address;
      assert i <= n ==> r[i].address < r[n + 1].address;
      assert i < n ==> HasHeader(hs, bs, i);
    }
    assert Addresses(r) == Addresses(bs) + {b.address};
  }
}
