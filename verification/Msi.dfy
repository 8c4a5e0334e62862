/** Programming a device's message registers as a transaction, when any write may silently be dropped. */
module Msi {
  import opened Bytes
  import opened Capabilities

  // ---------- Registers in configuration space ----------

  datatype Register = Register(offset: nat, wide: bool)

  function Width(r: Register): nat {
    if r.wide then 4 else 2
  }

  predicate Inside(r: Register) {
    r.offset + Width(r) <= CONFIG_BYTES
  }

  predicate Fits(r: Register, v: u32) {
    r.wide || v < 0x1_0000
  }

  predicate Apart(r: Register, q: Register) {
    r.offset + Width(r) <= q.offset || q.offset + Width(q) <= r.offset
  }

  function Get(c: Config, r: Register): (v: u32)
    requires Inside(r)
    ensures Fits(r, v)
  {
    if r.wide then ReadU32(c, r.offset) else ReadU16(c, r.offset)
  }

  function Encoding(r: Register, v: u32): (s: seq<byte>)
    requires Fits(r, v)
    ensures |s| == Width(r)
  {
    if r.wide then Le32(v) else Le16(v)
  }

  function Put(c: Config, r: Register, v: u32): Config
    requires Inside(r) && Fits(r, v)
  {
    c[..r.offset] + Encoding(r, v) + c[r.offset + Width(r)..]
  }

  lemma GetPut(c: Config, r: Register, v: u32)
    requires Inside(r) && Fits(r, v)
    ensures Get(Put(c, r, v), r) == v
  {
    var s := Put(c, r, v);
    assert s[r.offset..r.offset + Width(r)] == Encoding(r, v);
    ReadingIsBytes(s, r, v);
  }

  lemma ReadingIsBytes(c: Config, r: Register, v: u32)
    requires Inside(r) && Fits(r, v)
    ensures Get(c, r) == v <==> c[r.offset..r.offset + Width(r)] == Encoding(r, v)
  {
    hide ReadU16, ReadU32, Le16, Le32;
    if r.wide {
      Le32RoundTrip(c, r.offset, v);
    } else {
      Le16RoundTrip(c, r.offset, v);
    }
  }

  lemma GetPutApart(c: Config, r: Register, v: u32, q: Register)
    requires Inside(r) && Fits(r, v) && Inside(q) && Apart(r, q)
    ensures Get(Put(c, r, v), q) == Get(c, q)
  {
    var s := Put(c, r, v);
    assert forall i :: q.offset <= i < q.offset + Width(q) ==> s[i] == c[i];
  }

  /** Equal readings mean equal bytes. */
  lemma GetIsBytes(c: Config, d: Config, r: Register, i: nat)
    requires Inside(r) && Get(c, r) == Get(d, r) && r.offset <= i < r.offset + Width(r)
    ensures c[i] == d[i]
  {
    hide Encoding, Get;
    ReadingIsBytes(c, r, Get(c, r));
    ReadingIsBytes(d, r, Get(d, r));
    assert c[i] == c[r.offset..r.offset + Width(r)][i - r.offset];
    assert d[i] == d[r.offset..r.offset + Width(r)][i - r.offset];
  }

  // ---------- The registers of a layout ----------

  function Control(l: Layout): (r: Register)
    requires ValidLayout(l)
    ensures Inside(r)
  {
    Register((l.capability + 2) % 256, false)
  }

  function Address(l: Layout): (r: Register)
    requires ValidLayout(l)
    ensures Inside(r)
  {
    Register(l.address, true)
  }

  function Upper(l: Layout): (r: Register)
    requires ValidLayout(l)
    ensures l.is64 != 0 ==> Inside(r)
  {
    Register(l.upper, true)
  }

  function Data(l: Layout): (r: Register)
    requires ValidLayout(l)
    ensures Inside(r)
  {
    Register(l.data, false)
  }

  function Mask(l: Layout): (r: Register)
    requires ValidLayout(l)
    ensures l.perVector != 0 ==> Inside(r)
  {
    Register(l.mask, true)
  }

  function Registers(l: Layout): (rs: seq<Register>)
    requires ValidLayout(l)
    ensures forall r :: r in rs ==> Inside(r)
  {
    [Control(l), Address(l), Data(l)] + (if l.is64 != 0 then [Upper(l)] else []) + if l.perVector != 0 then [Mask(l)] else []
  }

  /** The registers of a layout do not overlap. */
  lemma RegistersApart(l: Layout)
    requires ValidLayout(l)
    ensures Apart(Control(l), Address(l)) && Apart(Control(l), Data(l)) && Apart(Address(l), Data(l))
    ensures l.is64 != 0 ==> Apart(Upper(l), Control(l)) && Apart(Upper(l), Address(l)) && Apart(Upper(l), Data(l))
    ensures l.perVector != 0 ==> Apart(Mask(l), Control(l)) && Apart(Mask(l), Address(l)) && Apart(Mask(l), Data(l))
    ensures l.is64 != 0 && l.perVector != 0 ==> Apart(Upper(l), Mask(l))
  {
  }

  lemma RegisterFacts(l: Layout)
    requires ValidLayout(l)
    ensures Control(l) in Registers(l) && Address(l) in Registers(l) && Data(l) in Registers(l)
    ensures l.is64 != 0 ==> Upper(l) in Registers(l)
    ensures l.perVector != 0 ==> Mask(l) in Registers(l)
    ensures Address(l).wide && Upper(l).wide && Mask(l).wide && !Control(l).wide && !Data(l).wide
    ensures Control(l) != Data(l) && Control(l) != Address(l) && Data(l) != Address(l)
    ensures l.is64 != 0 ==> Upper(l) != Control(l) && Upper(l) != Address(l) && Upper(l) != Data(l)
    ensures l.perVector != 0 ==> Mask(l) != Control(l) && Mask(l) != Address(l) && Mask(l) != Data(l) && (l.is64 != 0 ==> Mask(l) != Upper(l))
  {
    var rs := [Control(l), Address(l), Data(l)];
    assert rs[0] in rs && rs[1] in rs && rs[2] in rs;
  }

  /** Where the registers of a layout lie, relative to the capability. */
  lemma RegisterOffsets(l: Layout)
    requires ValidLayout(l)
    ensures var data := l.capability + if l.is64 != 0 then 12 else 8;
            && Control(l) == Register(l.capability + 2, false) && Address(l) == Register(l.capability + 4, true)
            && (l.is64 != 0 ==> Upper(l) == Register(l.capability + 8, true)) && Data(l) == Register(data, false)
            && (l.perVector != 0 ==> Mask(l) == Register(data + 4, true))
  {
  }

  lemma RegisterIsOne(l: Layout, r: Register)
    requires ValidLayout(l) && r in Registers(l)
    ensures r == Control(l) || r == Address(l) || r == Data(l) || (l.is64 != 0 && r == Upper(l)) || (l.perVector != 0 && r == Mask(l))
  {
  }

  predicate InSome(rs: seq<Register>, i: nat) {
    exists k :: 0 <= k < |rs| && rs[k].offset <= i < rs[k].offset + Width(rs[k])
  }

  /** Nothing but the layout's registers differs. */
  ghost predicate OnlyRegisters(c: Config, d: Config, l: Layout)
    requires ValidLayout(l)
  {
    forall i :: 0 <= i < CONFIG_BYTES && !InSome(Registers(l), i) ==> c[i] == d[i]
  }

  lemma PutOnlyRegister(c: Config, d: Config, l: Layout, r: Register, v: u32)
    requires ValidLayout(l) && OnlyRegisters(c, d, l) && r in Registers(l) && Inside(r) && Fits(r, v)
    ensures OnlyRegisters(c, Put(d, r, v), l)
  {
    var k :| 0 <= k < |Registers(l)| && Registers(l)[k] == r;
    forall i | 0 <= i < CONFIG_BYTES && !InSome(Registers(l), i) ensures c[i] == Put(d, r, v)[i] {
      assert !(Registers(l)[k].offset <= i < Registers(l)[k].offset + Width(Registers(l)[k]));
    }
  }

  /** A device that differs in its registers only, and reads the same in each, is the same. */
  lemma SameReadings(c: Config, d: Config, l: Layout)
    requires ValidLayout(l) && OnlyRegisters(c, d, l) && forall r :: r in Registers(l) ==> Get(c, r) == Get(d, r)
    ensures c == d
  {
    forall i: nat | i < CONFIG_BYTES ensures c[i] == d[i] {
      if InSome(Registers(l), i) {
        var k :| 0 <= k < |Registers(l)| && Registers(l)[k].offset <= i < Registers(l)[k].offset + Width(Registers(l)[k]);
        assert Registers(l)[k] in Registers(l);
        GetIsBytes(c, d, Registers(l)[k], i);
      }
    }
  }

  // ---------- Words ----------

  /** The control word with the enable bit and the count of enabled messages cleared, every other bit kept. */
  function Disabled(control: nat): (r: u32)
    requires control < 0x1_0000
    ensures r < 0x1_0000
  {
    control / 128 * 128 + control / 2 % 8 * 2
  }

  function Enabled(control: nat): (r: u32)
    requires control < 0x1_0000
    ensures r < 0x1_0000
  {
    Disabled(control) + 1
  }

  function MaskSet(mask: u32): u32 {
    mask - mask % 2 + 1
  }

  function MaskCleared(mask: u32): u32 {
    mask - mask % 2
  }

  /** The enable bit as given, no messages enabled beyond the first, and every other bit kept. */
  predicate ControlBecomes(before: nat, after: nat, enable: nat) {
    after % 2 == enable && after / 16 % 8 == 0 && after / 2 % 8 == before / 2 % 8 && after / 128 == before / 128
  }

  lemma ControlWords(control: nat)
    requires control < 0x1_0000
    ensures ControlBecomes(control, Disabled(control), 0) && ControlBecomes(control, Enabled(control), 1)
  {
    WordOf(control / 128, control / 2 % 8, 0);
    WordOf(control / 128, control / 2 % 8, 1);
  }

  lemma WordOf(high: nat, bits: nat, enable: nat)
    requires bits < 8 && enable < 2
    ensures var w := high * 128 + bits * 2 + enable; w % 2 == enable && w / 16 % 8 == 0 && w / 2 % 8 == bits && w / 128 == high
  {
    var w := high * 128 + bits * 2 + enable;
    assert w / 2 == 8 * (8 * high) + bits;
    assert w / 16 == 8 * high;
  }

  /** The first message's mask bit as given, and every other bit kept. */
  predicate MaskBecomes(before: nat, after: nat, bit: nat) {
    after % 2 == bit && after / 2 == before / 2
  }

  lemma MaskWords(mask: u32)
    ensures MaskBecomes(mask, MaskSet(mask), 1) && MaskBecomes(mask, MaskCleared(mask), 0) && MaskCleared(MaskSet(mask)) == MaskCleared(mask)
  {
  }

  /** The address that reaches a processor, and the data that names a vector. */
  function MessageAddress(processor: byte): u32 {
    0xFEE0_0000 + 0x1000 * processor
  }

  /** A message is accepted exactly when it is for some processor and some device vector. */
  lemma MessageOkIff(address: u32, data: u32)
    ensures MessageOk(address, data) <==> (exists p: byte :: address == MessageAddress(p)) && 32 <= data <= 254
  {
    if MessageOk(address, data) {
      var p := address / 0x1000 % 0x100;
      assert address == MessageAddress(p);
    }
  }

  predicate MessageOk(address: u32, data: u32) {
    address / 0x10_0000 == 0xFEE && address % 0x1000 == 0 && 0x20 <= data <= 0xFE
  }

  // ---------- The transaction ----------

  datatype Saved = Saved(layout: Layout, control: u32, address: u32, upper: u32, data: u32, mask: u32, valid: bool)

  const NO_LAYOUT: Layout := Layout(0, 0, 0, 0, 0, 0, 0, 0, 0)
  const CLEARED: Saved := Saved(NO_LAYOUT, 0, 0, 0, 0, 0, false)

  /** Every register of the layout reads as given; a register the device does not have is not looked at. */
  predicate Reads(c: Config, l: Layout, control: u32, address: u32, upper: u32, data: u32, mask: u32)
    requires ValidLayout(l)
  {
    && Get(c, Control(l)) == control && Get(c, Address(l)) == address && Get(c, Data(l)) == data
    && (l.is64 != 0 ==> Get(c, Upper(l)) == upper) && (l.perVector != 0 ==> Get(c, Mask(l)) == mask)
  }

  /** The saved state describes the registers as they are in this configuration. */
  predicate Describes(s: Saved, c: Config) {
    s.valid && ValidLayout(s.layout) && Reads(c, s.layout, s.control, s.address, s.upper, s.data, s.mask)
  }

  lemma DescribedIsSame(s: Saved, c: Config, d: Config)
    requires Describes(s, c) && Describes(s, d) && OnlyRegisters(c, d, s.layout)
    ensures c == d
  {
    hide Get, OnlyRegisters, Registers, Control, Address, Upper, Data, Mask, ValidLayout;
    forall r | r in Registers(s.layout) ensures Get(c, r) == Get(d, r) {
      RegisterIsOne(s.layout, r);
    }
    SameReadings(c, d, s.layout);
  }

  /** No other register of the layout reads differently. */
  predicate OthersKept(c: Config, d: Config, l: Layout, r: Register)
    requires ValidLayout(l)
  {
    && (r != Control(l) ==> Get(d, Control(l)) == Get(c, Control(l)))
    && (r != Address(l) ==> Get(d, Address(l)) == Get(c, Address(l)))
    && (r != Data(l) ==> Get(d, Data(l)) == Get(c, Data(l)))
    && (l.is64 != 0 && r != Upper(l) ==> Get(d, Upper(l)) == Get(c, Upper(l)))
    && (l.perVector != 0 && r != Mask(l) ==> Get(d, Mask(l)) == Get(c, Mask(l)))
  }

  lemma PutKeepsOthers(c: Config, l: Layout, r: Register, v: u32)
    requires ValidLayout(l) && r in Registers(l) && Inside(r) && Fits(r, v)
    ensures OthersKept(c, Put(c, r, v), l, r)
  {
    hide Put, Get, Registers, Control, Address, Upper, Data, Mask, ValidLayout;
    RegistersApart(l);
    RegisterIsOne(l, r);
    if r != Control(l) {
      GetPutApart(c, r, v, Control(l));
    }
    if r != Address(l) {
      GetPutApart(c, r, v, Address(l));
    }
    if r != Data(l) {
      GetPutApart(c, r, v, Data(l));
    }
    if l.is64 != 0 && r != Upper(l) {
      GetPutApart(c, r, v, Upper(l));
    }
    if l.perVector != 0 && r != Mask(l) {
      GetPutApart(c, r, v, Mask(l));
    }
  }

  /** What programming asks for: nothing saved yet, a proper message, and a device of the kind the layout says. */
  predicate Programmable(s: Saved, c: Config, l: Layout, address: u32, data: u32) {
    && ValidLayout(l) && !s.valid && MessageOk(address, data)
    && (Get(c, Control(l)) / 128 % 2 != 0) == (l.is64 != 0) && (Get(c, Control(l)) / 256 % 2 != 0) == (l.perVector != 0)
  }

  /** Programming is possible exactly for a proper message, with nothing saved, on a device whose control bits agree. */
  lemma ProgrammableIff(s: Saved, c: Config, l: Layout, address: u32, data: u32)
    ensures Programmable(s, c, l, address, data) <==>
              && ValidLayout(l) && l.capability <= 252 && !s.valid && (exists p: byte :: address == MessageAddress(p)) && 32 <= data <= 254
              && (c[l.capability + 2] / 128 == 1 <==> l.is64 != 0) && (c[l.capability + 3] % 2 == 1 <==> l.perVector != 0)
  {
    hide MessageOk, Get, ValidLayout, Control;
    MessageOkIff(address, data);
    if ValidLayout(l) {
      ControlIs(c, l);
      ControlBits(c[l.capability + 2], c[l.capability + 3]);
    }
  }

  lemma ControlIs(c: Config, l: Layout)
    requires ValidLayout(l)
    ensures l.capability + 3 < CONFIG_BYTES && Get(c, Control(l)) == (c[l.capability + 2] as int) + 256 * (c[l.capability + 3] as int)
  {
  }

  /** Disabled, and masked where the device can be: it sends nothing. */
  predicate Silent(c: Config, l: Layout)
    requires ValidLayout(l)
  {
    Get(c, Control(l)) % 2 == 0 && (l.perVector != 0 ==> Get(c, Mask(l)) % 2 == 1)
  }

  /** A write to part of the message while the device could send it. */
  predicate Exposes(c: Config, l: Layout, r: Register)
    requires ValidLayout(l)
  {
    r != Control(l) && r != Mask(l) && !Silent(c, l)
  }

  class Device {
    var config: Config
    var state: Saved
    /** How many writes the device has ignored. */
    ghost var dropped: nat
    /** How many writes to the message were made while the device could send it. */
    ghost var exposed: nat

    /** A write the device may ignore without saying so. */
    method Write(r: Register, v: u32)
      requires Inside(r) && Fits(r, v)
      modifies this`config, this`dropped
      ensures dropped >= old(dropped) && config == if dropped == old(dropped) then Put(old(config), r, v) else old(config)
    {
      var taken: bool := *;
      if taken {
        config := Put(config, r, v);
      } else {
        dropped := dropped + 1;
      }
    }

    /** A write and the reading back that shows whether it took effect. */
    method WriteAndCheck(r: Register, v: u32, l: Layout, ghost original: Config) returns (ok: bool)
      requires ValidLayout(l) && r in Registers(l) && Inside(r) && Fits(r, v) && OnlyRegisters(original, config, l)
      modifies this`config, this`dropped, this`exposed
      ensures dropped >= old(dropped) && (dropped == old(dropped) ==> ok)
      ensures exposed == old(exposed) + if old(Exposes(config, l, r)) then 1 else 0
      ensures ok == (Get(config, r) == v) && OthersKept(old(config), config, l, r) && OnlyRegisters(original, config, l)
    {
      hide Put, Get, OnlyRegisters, Registers, Exposes;
      exposed := exposed + if Exposes(config, l, r) then 1 else 0;
      GetPut(config, r, v);
      PutKeepsOthers(config, l, r, v);
      PutOnlyRegister(original, config, l, r, v);
      Write(r, v);
      ok := Get(config, r) == v;
    }

    /** Writes the address, its upper half if there is one, and the data, checking each. */
    method WriteMessage(l: Layout, address: u32, upper: u32, data: u32, ghost original: Config) returns (ok: bool)
      requires ValidLayout(l) && data < 0x1_0000 && OnlyRegisters(original, config, l)
      modifies this`config, this`dropped, this`exposed
      ensures dropped >= old(dropped) && (dropped == old(dropped) ==> ok)
      ensures old(Silent(config, l)) ==> exposed == old(exposed)
      ensures OnlyRegisters(original, config, l) && Get(config, Control(l)) == old(Get(config, Control(l)))
      ensures l.perVector != 0 ==> Get(config, Mask(l)) == old(Get(config, Mask(l)))
      ensures ok ==> Get(config, Address(l)) == address && Get(config, Data(l)) == data && (l.is64 != 0 ==> Get(config, Upper(l)) == upper)
    {
      hide Get, OnlyRegisters, Registers, Control, Address, Upper, Data, Mask, ValidLayout;
      RegisterFacts(l);
      var a := WriteAndCheck(Address(l), address, l, original);
      var u := true;
      if l.is64 != 0 {
        u := WriteAndCheck(Upper(l), upper, l, original);
      }
      var d := WriteAndCheck(Data(l), data, l, original);
      ok := a && u && d;
    }

    /** Puts the saved registers back; on success they all read as saved and the saved state is gone. */
    method Restore() returns (ok: bool)
      requires state.control < 0x1_0000 && state.data < 0x1_0000
      modifies this`config, this`dropped, this`exposed, this`state
      ensures dropped >= old(dropped) && (dropped == old(dropped) ==> (ok <==> old(state).valid && ValidLayout(old(state).layout)))
      ensures dropped == old(dropped) ==> exposed == old(exposed)
      ensures !(old(state).valid && ValidLayout(old(state).layout)) ==> !ok && config == old(config)
      ensures ok ==> Describes(old(state), config) && OnlyRegisters(old(config), config, old(state).layout) && state == CLEARED
      ensures !ok ==> state == old(state)
      ensures old(state).valid && ValidLayout(old(state).layout) ==> OnlyRegisters(old(config), config, old(state).layout)
    {
      hide Get, OnlyRegisters, Registers, Control, Address, Upper, Data, Mask, ValidLayout, Disabled;
      if !state.valid || !ValidLayout(state.layout) {
        return false;
      }
      var l := state.layout;
      ghost var original := config;
      SameOnly(config, l);
      RegisterFacts(l);
      ControlWords(Get(config, Control(l)));
      var quiet := WriteAndCheck(Control(l), Disabled(Get(config, Control(l))), l, original);
      var masked := true;
      if l.perVector != 0 {
        MaskWords(Get(config, Mask(l)));
        masked := WriteAndCheck(Mask(l), MaskSet(Get(config, Mask(l))), l, original);
      }
      var message := WriteMessage(l, state.address, state.upper, state.data, original);
      var unmasked := true;
      if l.perVector != 0 {
        unmasked := WriteAndCheck(Mask(l), state.mask, l, original);
      }
      if !quiet || !masked || !message || !unmasked {
        return false;
      }
      ok := WriteAndCheck(Control(l), state.control, l, original);
      if ok {
        state := CLEARED;
      }
    }

    /**
     * Saves the registers and writes the message, stopping at the first write that did not take effect.
     * Success means every register holds the new message; failure with nothing saved means nothing has changed.
     */
    method Program(l: Layout, address: u32, data: u32) returns (ok: bool)
      modifies this`config, this`dropped, this`exposed, this`state
      ensures dropped >= old(dropped) && (ok ==> Programmable(old(state), old(config), l, address, data))
      ensures dropped == old(dropped) && Programmable(old(state), old(config), l, address, data) ==> ok
      ensures ok ==> ValidLayout(l) && MessageOk(address, data) && Describes(state, old(config)) && state.layout == l
      ensures ok ==> Get(config, Address(l)) == address && Get(config, Data(l)) == data && (l.is64 != 0 ==> Get(config, Upper(l)) == 0)
      ensures ok ==> ControlBecomes(old(Get(config, Control(l))), Get(config, Control(l)), 1)
      ensures ok && l.perVector != 0 ==> MaskBecomes(old(Get(config, Mask(l))), Get(config, Mask(l)), 0)
      ensures ok ==> OnlyRegisters(old(config), config, l) && exposed == old(exposed)
      ensures !ok && !state.valid ==> config == old(config)
      ensures !ok && state.valid && !old(state).valid ==>
                ValidLayout(l) && Describes(state, old(config)) && OnlyRegisters(old(config), config, l)
      ensures old(state).valid ==> !ok && config == old(config) && state == old(state)
    {
      hide Get, OnlyRegisters, ControlBecomes, MaskBecomes, Upper, Data, Address, Control, Mask, ValidLayout;
      if !ValidLayout(l) || state.valid || !MessageOk(address, data) {
        return false;
      }
      RegisterFacts(l);
      state := Saved(l, Get(config, Control(l)), Get(config, Address(l)), if l.is64 != 0 then Get(config, Upper(l)) else 0,
                     Get(config, Data(l)), if l.perVector != 0 then Get(config, Mask(l)) else 0, true);
      if (state.control / 128 % 2 != 0) != (l.is64 != 0) || (state.control / 256 % 2 != 0) != (l.perVector != 0) {
        state := CLEARED;
        return false;
      }
      SameOnly(config, l);
      ok := WriteNew(l, address, data, config);
      if ok {
        return;
      }
      ghost var before := config;
      ghost var saved := state;
      var restored := Restore();
      if restored {
        OnlyTransitive(old(config), before, config, l);
        DescribedIsSame(saved, old(config), config);
      } else {
        OnlyTransitive(old(config), before, config, l);
      }
      return false;
    }

    /** Disable, mask, write the message, enable, unmask: each step only if the one before took effect. */
    method WriteNew(l: Layout, address: u32, data: u32, ghost original: Config) returns (ok: bool)
      requires ValidLayout(l) && data < 0x1_0000 && OnlyRegisters(original, config, l)
      requires state.control < 0x1_0000
      modifies this`config, this`dropped, this`exposed
      ensures exposed == old(exposed)
      ensures dropped >= old(dropped) && (dropped == old(dropped) ==> ok)
      ensures OnlyRegisters(original, config, l)
      ensures ok ==> Get(config, Address(l)) == address && Get(config, Data(l)) == data && (l.is64 != 0 ==> Get(config, Upper(l)) == 0)
      ensures ok ==> ControlBecomes(state.control, Get(config, Control(l)), 1)
      ensures ok && l.perVector != 0 ==> MaskBecomes(state.mask, Get(config, Mask(l)), 0)
    {
      hide Get, OnlyRegisters, Registers, Control, Address, Upper, Data, Mask, ValidLayout, Disabled, Enabled;
      RegisterFacts(l);
      ControlWords(state.control);
      MaskWords(state.mask);
      var mask := 0;
      ok := WriteAndCheck(Control(l), Disabled(state.control), l, original);
      if ok && l.perVector != 0 {
        mask := MaskSet(state.mask);
        ok := WriteAndCheck(Mask(l), mask, l, original);
      }
      if ok {
        ok := WriteAndCheck(Address(l), address, l, original);
      }
      if ok && l.is64 != 0 {
        ok := WriteAndCheck(Upper(l), 0, l, original);
      }
      if ok {
        ok := WriteAndCheck(Data(l), data, l, original);
      }
      if ok {
        ok := WriteAndCheck(Control(l), Enabled(state.control), l, original);
      }
      if ok && l.perVector != 0 {
        ok := WriteAndCheck(Mask(l), MaskCleared(mask), l, original);
      }
    }
  }

  lemma OnlyTransitive(a: Config, b: Config, c: Config, l: Layout)
    requires ValidLayout(l) && OnlyRegisters(a, b, l) && OnlyRegisters(b, c, l)
    ensures OnlyRegisters(a, c, l)
  {
  }

  /** What a successful program saved and a successful restore wrote back is the configuration before both. */
  lemma RestoreUndoesProgram(s: Saved, before: Config, programmed: Config, restored: Config)
    requires Describes(s, before) && OnlyRegisters(before, programmed, s.layout)
    requires Describes(s, restored) && OnlyRegisters(programmed, restored, s.layout)
    ensures restored == before
  {
    OnlyTransitive(before, programmed, restored, s.layout);
    DescribedIsSame(s, before, restored);
  }

  lemma SameOnly(c: Config, l: Layout)
    requires ValidLayout(l)
    ensures OnlyRegisters(c, c, l)
  {
  }
}
