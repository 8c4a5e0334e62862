/** The walk along a device's capability list to its message-signalled interrupt registers. */
module Capabilities {
  import opened Bytes

  const CONFIG_BYTES: nat := 256
  const MAX_NODES: nat := 48
  const MSI_ID: byte := 0x05

  type Config = c: seq<byte> | |c| == CONFIG_BYTES witness Zeros(CONFIG_BYTES)

  datatype Layout = Layout(
    capability: byte, address: byte, upper: byte, data: byte, mask: byte, pending: byte,
    capable: byte, is64: byte, perVector: byte)

  datatype Parse = Found(layout: Layout) | NotFound | Malformed

  predicate ValidPointer(offset: nat) {
    0x40 <= offset <= 0xFC && offset % 4 == 0
  }

  /** The check made on a layout before its registers are used. */
  predicate ValidLayout(l: Layout) {
    var data := l.capability + if l.is64 != 0 then 12 else 8;
    && ValidPointer(l.capability) && l.capable <= 7 && l.is64 <= 1 && l.perVector <= 1
    && l.address == (l.capability + 4) % 256
    && data + 1 < CONFIG_BYTES && l.data == data
    && l.upper == (if l.is64 != 0 then (l.capability + 8) % 256 else 0)
    && if l.perVector == 0 then l.mask == 0 && l.pending == 0
       else data + 4 + 7 < CONFIG_BYTES && l.mask == data + 4 && l.pending == data + 8
  }

  function ParseNode(c: Config, offset: nat): Parse
    requires ValidPointer(offset)
  {
    var control: nat := ReadU16(c, offset + 2);
    Node(offset, control / 2 % 8, control / 16 % 8, control / 128 % 2, control / 256 % 2)
  }

  /** Where the registers of a node are, given the fields of its control word. */
  function Node(offset: nat, capable: byte, enabled: byte, is64: byte, perVector: byte): Parse {
    var data := offset + if is64 != 0 then 12 else 8;
    var last := if perVector != 0 then data + 8 + 3 else data + 1;
    if enabled > capable || last >= CONFIG_BYTES then Malformed
    else Found(Layout(offset, (offset + 4) % 256, if is64 != 0 then (offset + 8) % 256 else 0, data,
                      if perVector != 0 then data + 4 else 0, if perVector != 0 then data + 8 else 0, capable, is64, perVector))
  }

  /** What the parser accepts, the register code accepts. */
  lemma ParsedLayoutIsValid(c: Config, offset: nat)
    requires ValidPointer(offset) && ParseNode(c, offset).Found?
    ensures ValidLayout(ParseNode(c, offset).layout) && ParseNode(c, offset).layout.capability == offset
  {
  }

  /**
   * The two control bytes of an interrupt node: bits 1 to 3 count the messages the device can send and bits 4 to 6
   * those enabled, bit 7 says that the address is 64 bits wide, and bit 8 that each message has a mask bit. The
   * address follows at 4, its upper half at 8, then the data and the mask.
   */
  lemma NodeMeans(c: Config, o: nat)
    requires ValidPointer(o)
    ensures var low, high, r := c[o + 2], c[o + 3], ParseNode(c, o);
            var wide, masked := low / 128 == 1, high % 2 == 1;
            var data := o + if wide then 12 else 8;
            && (r.Found? <==> low / 16 % 8 <= low / 2 % 8 && data + (if masked then 11 else 1) < 256) && r != NotFound
            && (r.Found? ==>
                  && r.layout.capability == o && r.layout.capable == low / 2 % 8
                  && r.layout.is64 == (if wide then 1 else 0) && r.layout.perVector == (if masked then 1 else 0)
                  && r.layout.address == o + 4 && r.layout.upper == (if wide then o + 8 else 0) && r.layout.data == data
                  && r.layout.mask == (if masked then data + 4 else 0) && r.layout.pending == (if masked then data + 8 else 0))
  {
    hide Node;
    var low, high := c[o + 2], c[o + 3];
    ControlBits(low, high);
    NodeAt(o, low / 2 % 8, low / 16 % 8, low / 128, high % 2);
  }

  lemma NodeAt(o: nat, capable: byte, enabled: byte, is64: byte, perVector: byte)
    requires ValidPointer(o)
    ensures var r := Node(o, capable, enabled, is64, perVector);
            var data := o + if is64 != 0 then 12 else 8;
            && (r.Found? <==> enabled <= capable && data + (if perVector != 0 then 11 else 1) < 256) && r != NotFound
            && (r.Found? ==> r.layout == Layout(o, o + 4, if is64 != 0 then o + 8 else 0, data,
                                                if perVector != 0 then data + 4 else 0, if perVector != 0 then data + 8 else 0,
                                                capable, is64, perVector))
  {
  }

  lemma ControlBits(low: byte, high: byte)
    ensures var control := low + 256 * high;
            && control / 2 % 8 == low / 2 % 8 && control / 16 % 8 == low / 16 % 8
            && control / 128 % 2 == low / 128 && control / 256 % 2 == high % 2
  {
    LowBits(low, high);
    MiddleBits(low, high);
    assert (low + 256 * high) / 128 == low / 128 + 2 * high;
    assert (low + 256 * high) / 256 == high;
  }

  lemma LowBits(low: byte, high: byte)
    ensures (low + 256 * high) / 2 % 8 == low / 2 % 8
  {
    assert (low + 256 * high) / 2 == low / 2 + 8 * (16 * high);
  }

  lemma MiddleBits(low: byte, high: byte)
    ensures (low + 256 * high) / 16 % 8 == low / 16 % 8
  {
    assert (low + 256 * high) / 16 == low / 16 + 8 * (2 * high);
  }

  // ---------- The walk without a limit ----------

  datatype Walk = At(node: nat) | Ended | Broken

  function Offsets(): set<nat> {
    set k: nat | k < MAX_NODES :: 0x40 + 4 * k
  }

  lemma OffsetsAreValid(offset: nat)
    ensures ValidPointer(offset) <==> offset in Offsets()
  {
    if ValidPointer(offset) {
      var k := (offset - 0x40) / 4;
      assert offset == 0x40 + 4 * k;
    }
  }

  lemma {:induction false} FirstOffsets(n: nat)
    ensures |set k: nat | k < n :: 0x40 + 4 * k| == n
  {
    var s := set k: nat | k < n :: 0x40 + 4 * k;
    if n == 0 {
      assert s == {};
    } else {
      FirstOffsets(n - 1);
      var t := set k: nat | k < n - 1 :: 0x40 + 4 * k;
      assert s == t + {0x40 + 4 * (n - 1)};
    }
  }

  /** The first interrupt capability from an offset on, given the nodes already seen. */
  function Follow(c: Config, offset: nat, visited: set<nat>): Walk
    requires visited <= Offsets()
    decreases |Offsets() - visited|
  {
    OffsetsAreValid(offset);
    if !ValidPointer(offset) || offset in visited then Broken
    else if c[offset] == MSI_ID then At(offset)
    else if c[offset + 1] == 0 then Ended
    else
      assert Offsets() - (visited + {offset}) < Offsets() - visited;
      SmallerSet(Offsets() - (visited + {offset}), Offsets() - visited);
      Follow(c, c[offset + 1], visited + {offset})
  }

  lemma {:induction false} SmallerSet<T>(a: set<T>, b: set<T>)
    requires a < b
    ensures |a| < |b|
  {
    var x :| x in b && x !in a;
    SubsetSize(a, b - {x});
  }

  lemma {:induction false} SubsetSize<T>(a: set<T>, b: set<T>)
    requires a <= b
    ensures |a| <= |b|
  {
    if a != {} {
      var x :| x in a;
      SubsetSize(a - {x}, b - {x});
    }
  }

  // ---------- Chains ----------

  /** A list of distinct valid nodes, each but the last pointing to the next, none but the last an interrupt one. */
  ghost predicate Chain(c: Config, nodes: seq<nat>) {
    && nodes != [] && ValidPointer(nodes[0]) && nodes[0] !in nodes[1..]
    && (|nodes| > 1 ==> c[nodes[0]] != MSI_ID && c[nodes[0] + 1] == nodes[1] != 0 && Chain(c, nodes[1..]))
  }

  function Last(nodes: seq<nat>): nat
    requires nodes != []
  {
    nodes[|nodes| - 1]
  }

  lemma {:induction false} LastIsValid(c: Config, nodes: seq<nat>)
    requires Chain(c, nodes)
    ensures ValidPointer(Last(nodes))
  {
    if |nodes| > 1 {
      LastIsValid(c, nodes[1..]);
    }
  }

  /** How a chain ends decides the walk: at an interrupt node, or at a node with no successor. */
  ghost predicate Leads(c: Config, nodes: seq<nat>, w: Walk)
    requires Chain(c, nodes)
  {
    LastIsValid(c, nodes);
    match w
    case At(n) => n == Last(nodes) && c[n] == MSI_ID
    case Ended => c[Last(nodes)] != MSI_ID && c[Last(nodes) + 1] == 0
    case Broken => false
  }

  /** The walk finds the end of any acyclic chain, however long the chain is. */
  lemma {:induction false} ChainIsFollowed(c: Config, nodes: seq<nat>, visited: set<nat>, w: Walk)
    requires Chain(c, nodes) && Leads(c, nodes, w) && visited <= Offsets() && forall n :: n in nodes ==> n !in visited
    ensures Follow(c, nodes[0], visited) == w
    decreases |nodes|
  {
    OffsetsAreValid(nodes[0]);
    assert nodes[0] in nodes;
    if |nodes| > 1 {
      assert Last(nodes[1..]) == Last(nodes);
      ChainIsFollowed(c, nodes[1..], visited + {nodes[0]}, w);
    }
  }

  /** Conversely, whatever the walk finds is at the end of such a chain. */
  lemma {:induction false} FollowedIsChain(c: Config, first: nat, visited: set<nat>) returns (nodes: seq<nat>)
    requires visited <= Offsets() && Follow(c, first, visited) != Broken
    ensures Chain(c, nodes) && nodes[0] == first && Leads(c, nodes, Follow(c, first, visited)) && forall n :: n in nodes ==> n !in visited
    decreases |Offsets() - visited|
  {
    OffsetsAreValid(first);
    if c[first] == MSI_ID || c[first + 1] == 0 {
      nodes := [first];
    } else {
      SmallerSet(Offsets() - (visited + {first}), Offsets() - visited);
      var rest := FollowedIsChain(c, c[first + 1], visited + {first});
      nodes := [first] + rest;
      assert nodes[1..] == rest && Last(nodes) == Last(rest);
    }
  }

  // ---------- The walk as it is made, at most 48 nodes ----------

  /** Where the walk starts, if the device has a list at all. */
  function ParseSpec(c: Config): Parse {
    if ReadU16(c, 0x06) / 16 % 2 == 0 || c[0x34] == 0 then NotFound
    else
      match Follow(c, c[0x34], {})
      case At(n) => if ValidPointer(n) then ParseNode(c, n) else Malformed
      case Ended => NotFound
      case Broken => Malformed
  }

  /** The parser finds exactly the interrupt node at the end of a chain that begins at byte 0x34. */
  lemma ParseIffChain(c: Config, n: nat)
    requires ValidPointer(n) && ParseNode(c, n).Found?
    ensures ParseSpec(c) == ParseNode(c, n) <==>
              c[6] / 16 % 2 == 1 && c[0x34] != 0 && exists nodes :: Chain(c, nodes) && nodes[0] == c[0x34] && Last(nodes) == n && c[n] == MSI_ID
  {
    hide ParseNode;
    assert ReadU16(c, 6) / 16 % 2 == c[6] / 16 % 2;
    if ParseSpec(c) == ParseNode(c, n) {
      var w := Follow(c, c[0x34], {});
      var nodes := FollowedIsChain(c, c[0x34], {});
      NodeFound(c, w.node);
      NodeFound(c, n);
      assert Chain(c, nodes) && nodes[0] == c[0x34] && Last(nodes) == n;
    }
    if c[6] / 16 % 2 == 1 && c[0x34] != 0 && exists nodes :: Chain(c, nodes) && nodes[0] == c[0x34] && Last(nodes) == n && c[n] == MSI_ID {
      var nodes :| Chain(c, nodes) && nodes[0] == c[0x34] && Last(nodes) == n && c[n] == MSI_ID;
      ChainIsFollowed(c, nodes, {}, At(n));
    }
  }

  lemma NodeFound(c: Config, n: nat)
    ensures ValidPointer(n) && ParseNode(c, n).Found? ==> ParseNode(c, n).layout.capability == n
  {
  }

  lemma AllVisited(visited: set<nat>)
    requires visited <= Offsets() && |visited| == MAX_NODES
    ensures visited == Offsets()
  {
    FirstOffsets(MAX_NODES);
    if visited < Offsets() {
      SmallerSet(visited, Offsets());
    }
  }

  /** The limit on nodes never matters: 48 distinct nodes are all there can be. */
  method ParseLayout(configuration: seq<byte>) returns (r: Parse)
    ensures |configuration| < CONFIG_BYTES ==> r == Malformed
    ensures |configuration| >= CONFIG_BYTES ==> r == ParseSpec(configuration[..CONFIG_BYTES])
  {
    if |configuration| < CONFIG_BYTES {
      return Malformed;
    }
    var c: Config := configuration[..CONFIG_BYTES];
    if ReadU16(c, 0x06) / 16 % 2 == 0 || c[0x34] == 0 {
      return NotFound;
    }
    var offset: nat, visited: set<nat> := c[0x34], {};
    for count := 0 to MAX_NODES
      invariant visited <= Offsets() && |visited| == count
      invariant Follow(c, offset, visited) == Follow(c, c[0x34], {})
    {
      OffsetsAreValid(offset);
      if !ValidPointer(offset) || offset in visited {
        return Malformed;
      }
      if c[offset] == MSI_ID {
        r := ParseNode(c, offset);
        return;
      }
      var next := c[offset + 1];
      if next == 0 {
        return NotFound;
      }
      visited := visited + {offset};
      offset := next;
    }
    AllVisited(visited);
    OffsetsAreValid(offset);
    return Malformed;
  }
}
