/** When saves, deletions, formats and boots succeed, what they make of each name, and how long it lasts. */
module Durability {
  import opened Bytes
  import opened JournalCodec
  import opened JournalLog
  import opened Ramfs
  import opened Persistent

  // ---------- When an operation succeeds ----------

  /** The device reads what it is asked to, the commit write lands, and it reports both writes. */
  predicate Works(io: AppendIo) {
    io.readsOk && io.preparedReported && io.commitLands && io.commitReported && io.readBackOk
  }

  /** How many records the journal has room for. */
  function Capacity(disk: seq<Sector>): nat {
    if |disk| <= 65 then 0
    else match DecodeSuperblock(disk[|disk| - 65])
         case None => 0
         case Some(n) => n
  }

  /** Table and log in step, with a sequence number and a sector left. */
  ghost predicate Accepting(m: Machine) {
    Inv(m) && Synced(m) && m.memory.next != 0 && |Landed(m.attempts)| < Capacity(m.disk)
  }

  lemma RecordsFit(disk: seq<Sector>)
    requires |disk| > 65 && Records(disk).Some?
    ensures DataSectors(disk, Start(disk), REGION_SECTORS) == Some(Capacity(disk))
  {
    hide DecodeSuperblock, Scan, Classify;
  }

  lemma AppendSucceeds(m: Machine, e: Entry, io: AppendIo)
    requires Inv(m) && m.memory.On? && m.memory.enabled && e.sequence == m.memory.next && ValidEntry(e)
    ensures AppendSpec(m.disk, Start(m.disk), REGION_SECTORS, e, io).1 <==> Accepting(m) && Works(io)
  {
    hide DecodeSuperblock, Scan, Classify, AppendSpec, Replay, InitialFiles, ValidName, WellFormed, Agrees, RegionBlank;
    AppendEffect(m.disk, Start(m.disk), REGION_SECTORS, e, io);
    RecordsFit(m.disk);
    LastIsPositive(m);
  }

  /** Records have sequence numbers above zero, so a machine is not in step and stuck at once. */
  lemma LastIsPositive(m: Machine)
    requires Inv(m) && m.memory.On? && m.memory.enabled
    ensures Stuck(m) ==> LastSequence(0, Landed(m.attempts)) != 0
  {
    hide DecodeSuperblock, Classify, Replay, InitialFiles, WellFormed, Agrees, RegionBlank;
    var log := Landed(m.attempts);
    if Stuck(m) {
      var n := DataSectors(m.disk, Start(m.disk), REGION_SECTORS).value;
      ScanIffShape(LogKinds(m.disk, Start(m.disk), n), 0, log);
      assert Newer(log[|log| - 1].sequence, Before(0, log, |log| - 1));
    }
  }

  /** A save on an enabled journal succeeds exactly when the name and the text are good and there is room for both. */
  lemma SaveSucceedsIff(m: Machine, name: CString, contents: CString, io: AppendIo)
    requires Inv(m) && m.memory.On? && m.memory.enabled
    ensures SaveOutcome(m.disk, m.memory, name, contents, io).2 <==>
              && Accepting(m) && Works(io)
              && ValidName(name) && |contents| < 256 && (Lookup(m.memory.files, name).Some? || |m.memory.files| < 16)
  {
    hide Inv, AppendSpec, Accepting, ValidName;
    WithinLimits(m);
    if m.memory.next != 0 {
      var e := Entry(Write, m.memory.next, name, contents);
      AppliesIff(m.memory.files, e);
      if ValidName(name) && |contents| < 256 {
        AppendSucceeds(m, e, io);
      }
    } else {
      NeedsNumber(m);
    }
  }

  lemma WithinLimits(m: Machine)
    requires Inv(m) && m.memory.On?
    ensures |m.memory.files| <= 16
  {
    hide WellFormed;
    FileCount(m.memory.files);
  }

  lemma FileCount(files: seq<File>)
    requires WellFormed(files)
    ensures |files| <= 16
  {
  }

  lemma NeedsNumber(m: Machine)
    ensures Accepting(m) ==> m.memory.On? && m.memory.next != 0
  {
    hide Inv;
  }

  lemma DeleteSucceedsIff(m: Machine, name: CString, io: AppendIo)
    requires Inv(m) && m.memory.On? && m.memory.enabled
    ensures DeleteOutcome(m.disk, m.memory, name, io).2 <==>
              Accepting(m) && Works(io) && ValidName(name) && Lookup(m.memory.files, name).Some?
  {
    hide Inv, AppendSpec, Accepting, ValidName, Lookup;
    if m.memory.next != 0 {
      var e := Entry(Remove, m.memory.next, name, []);
      AppliesIff(m.memory.files, e);
      if ValidName(name) {
        AppendSucceeds(m, e, io);
      }
    } else {
      NeedsNumber(m);
    }
  }

  /** Without a journal the same checks decide, and the disk is left alone. */
  lemma VolatileSucceedsIff(m: Machine, name: CString, contents: CString, io: AppendIo)
    requires Inv(m) && m.memory.On? && !m.memory.enabled
    ensures var (disk, memory, ok) := SaveOutcome(m.disk, m.memory, name, contents, io);
            && (ok <==> ValidName(name) && |contents| < 256 && (Lookup(m.memory.files, name).Some? || |m.memory.files| < 16))
            && disk == m.disk && (!ok ==> memory == m.memory)
    ensures var (disk, memory, ok) := DeleteOutcome(m.disk, m.memory, name, io);
            && (ok <==> ValidName(name) && Lookup(m.memory.files, name).Some?) && disk == m.disk && (!ok ==> memory == m.memory)
  {
    hide Inv, ValidName;
    WithinLimits(m);
  }

  // ---------- What a successful operation means ----------

  /** A save stores exactly these contents under exactly this name, and takes the next sequence number. */
  lemma SaveMeans(m: Machine, name: CString, contents: CString, io: AppendIo, other: seq<byte>)
    requires Inv(m) && m.memory.On? && SaveOutcome(m.disk, m.memory, name, contents, io).2
    ensures var memory := SaveOutcome(m.disk, m.memory, name, contents, io).1;
            && memory.On? && memory.enabled == m.memory.enabled
            && (m.memory.enabled && m.memory.next < U32_MAX ==> memory.next == m.memory.next + 1)
            && Lookup(memory.files, other) == if other == name then Some(contents) else Lookup(m.memory.files, other)
  {
    hide Inv, AppendSpec, Lookup, ValidName, WellFormed;
    DistinctFiles(m);
    if m.memory.enabled {
      ApplyMeans(m.memory.files, Entry(Write, m.memory.next, name, contents), other);
    } else {
      LookupWritten(m.memory.files, name, contents, other);
    }
  }

  lemma DeleteMeans(m: Machine, name: CString, io: AppendIo, other: seq<byte>)
    requires Inv(m) && m.memory.On? && DeleteOutcome(m.disk, m.memory, name, io).2
    ensures var memory := DeleteOutcome(m.disk, m.memory, name, io).1;
            && memory.On? && memory.enabled == m.memory.enabled
            && (m.memory.enabled && m.memory.next < U32_MAX ==> memory.next == m.memory.next + 1)
            && Lookup(memory.files, other) == if other == name then None else Lookup(m.memory.files, other)
  {
    hide Inv, AppendSpec, Lookup, ValidName, WellFormed;
    DistinctFiles(m);
    if m.memory.enabled {
      ApplyMeans(m.memory.files, Entry(Remove, m.memory.next, name, []), other);
    } else {
      LookupRemoved(m.memory.files, name, other);
    }
  }

  lemma DistinctFiles(m: Machine)
    requires Inv(m) && m.memory.On?
    ensures Distinct(m.memory.files)
  {
  }

  // ---------- Formatting and booting ----------

  /** The region of the journal is blank and the table holds the three names it started with. */
  lemma FormatSucceedsIff(m: Machine, io: FormatIo)
    requires Inv(m) && m.memory.On?
    ensures FormatOutcome(m.disk, m.memory, io).2 <==>
              && !m.memory.enabled && SameNames(m.memory.files, InitialFiles())
              && (forall i :: |m.disk| - 65 <= i < |m.disk| ==> m.disk[i] == Zeros(SECTOR_SIZE))
              && io == FormatIo(true, true, true, true, true, true)
    ensures FormatOutcome(m.disk, m.memory, io).2 ==>
              var r := Step(m, Format(io)); Accepting(r) && r.memory == On(true, 1, m.memory.files) && Capacity(r.disk) == 64
  {
    hide DecodeSuperblock, EncodeSuperblock, Classify, Scan, InitialFiles, SameNames, WellFormed, Synced;
    BlankIff(m.disk);
    if RegionBlank(m.disk) {
      BlankSuperblock(m.disk[Start(m.disk)]);
      SuperblockDecodeIffEncoded(EncodeSuperblock(64), 64);
    }
    if FormatOutcome(m.disk, m.memory, io).2 {
      StepKeepsInv(m, Format(io));
      FormattedIsSynced(m, io);
    }
  }

  lemma BlankIff(disk: seq<Sector>)
    requires |disk| > REGION_SECTORS
    ensures RegionBlank(disk) <==> forall i :: |disk| - 65 <= i < |disk| ==> disk[i] == Zeros(SECTOR_SIZE)
  {
    forall i | |disk| - 65 <= i < |disk| ensures AllZero(disk[i]) <==> disk[i] == Zeros(SECTOR_SIZE) {
      AllZeroIsZeros(disk[i]);
    }
  }

  lemma FormattedIsSynced(m: Machine, io: FormatIo)
    requires Inv(m) && m.memory.On? && FormatOutcome(m.disk, m.memory, io).2 && Inv(Step(m, Format(io)))
    ensures Synced(Step(m, Format(io))) && Landed(Step(m, Format(io)).attempts) == []
  {
    hide DecodeSuperblock, EncodeSuperblock, Classify, Scan, InitialFiles, SameNames, WellFormed;
  }

  /** A boot with working reads can write again exactly when there is a journal with sequence numbers left. */
  lemma BootAccepts(m: Machine)
    requires Inv(m)
    ensures var booted := Step(m, Boot(GOOD_BOOT));
            var last := LastSequence(0, Landed(m.attempts));
            && booted.memory.On? && booted.disk == m.disk && booted.attempts == m.attempts
            && (booted.memory.enabled <==> !RegionBlank(m.disk) && last < U32_MAX)
            && (booted.memory.enabled ==> booted.memory.next == last + 1 && Synced(booted))
  {
    hide DecodeSuperblock, Classify, Scan, InitialFiles, Replay, SameNames, WellFormed;
    StepKeepsInv(m, Boot(GOOD_BOOT));
    if RegionBlank(m.disk) {
      BlankSuperblock(m.disk[Start(m.disk)]);
    } else {
      NotBehind(m);
    }
  }

  lemma NotBehind(m: Machine)
    requires Inv(m) && !RegionBlank(m.disk)
    ensures DecodeSuperblock(m.disk[Start(m.disk)]).Some?
  {
    hide DecodeSuperblock, Classify, Scan, InitialFiles, Replay, SameNames, WellFormed;
  }

  /** Without a superblock there is no journal, and the kernel goes on with the initial files. */
  lemma BootWithoutJournal(disk: seq<Sector>, io: BootIo)
    requires |disk| <= 65 || forall n :: 0 < n <= 1024 ==> disk[|disk| - 65] != EncodeSuperblock(n)
    ensures BootMemory(disk, io) == On(false, 0, InitialFiles())
  {
    hide DecodeSuperblock, EncodeSuperblock, Classify, InitialFiles, Replay, Scan;
    if |disk| > 65 && DecodeSuperblock(disk[|disk| - 65]).Some? {
      SuperblockDecodeIffEncoded(disk[|disk| - 65], DecodeSuperblock(disk[|disk| - 65]).value);
    }
  }

  /** A journal too large for its region, or in no recoverable shape, stops the boot. */
  lemma BootRefusesJournal(disk: seq<Sector>, io: BootIo, n: nat, kinds: seq<Kind>)
    requires |disk| > 65 && 0 < n <= 1024 && disk[|disk| - 65] == EncodeSuperblock(n) && io.available && io.superblockRead
    requires n > 64 || (kinds == LogKinds(disk, |disk| - 65, n) && forall log :: !LogShape(kinds, 0, log))
    ensures BootMemory(disk, io) == BootFailed
  {
    hide DecodeSuperblock, EncodeSuperblock, Classify, InitialFiles, Replay, Scan;
    SuperblockDecodeIffEncoded(disk[|disk| - 65], n);
    if n <= 64 && Records(disk).Some? {
      ScanIffShape(kinds, 0, Records(disk).value);
    }
  }

  /** What a boot makes of a journal: one that does not replay, one that cannot be gone on with, or one that can. */
  lemma BootOutcome(disk: seq<Sector>, io: BootIo, n: nat, log: seq<Entry>)
    requires 65 < |disk| <= U64_MAX && 0 < n <= 64 && disk[|disk| - 65] == EncodeSuperblock(n)
    requires LogShape(LogKinds(disk, |disk| - 65, n), 0, log)
    ensures var memory := BootMemory(disk, io);
            && (!(io.available && io.superblockRead) ==> memory == On(false, 0, InitialFiles()))
            && (io.available && io.superblockRead ==>
                  if !io.replayReads || Replay(InitialFiles(), log).None? then memory == BootFailed
                  else if !io.sequenceReads || LastSequence(0, log) == U32_MAX then memory == On(false, 0, Replay(InitialFiles(), log).value)
                  else if !io.windowOpened then memory == BootFailed
                  else memory == On(true, LastSequence(0, log) + 1, Replay(InitialFiles(), log).value))
  {
    hide DecodeSuperblock, EncodeSuperblock, Classify, InitialFiles, Replay;
    SuperblockDecodeIffEncoded(disk[|disk| - 65], n);
    ScanIffShape(LogKinds(disk, |disk| - 65, n), 0, log);
  }

  // ---------- Many operations in a row ----------

  /** A save or deletion that the table would make, on a device that works. */
  predicate Possible(m: Memory, ev: Event) {
    m.On? &&
    match ev
    case Save(name, contents, io) =>
      Works(io) && ValidName(name) && |contents| < 256 && (Lookup(m.files, name).Some? || |m.files| < 16)
    case Delete(name, io) => Works(io) && ValidName(name) && Lookup(m.files, name).Some?
    case Boot(_) => false
    case Format(_) => false
  }

  predicate AllPossible(m: Machine, events: seq<Event>)
    decreases |events|
  {
    events == [] || (Possible(m.memory, events[0]) && AllPossible(Step(m, events[0]), events[1..]))
  }

  /** The machine after one more acknowledged record. */
  ghost predicate OneMore(m: Machine, r: Machine) {
    && Inv(r) && m.memory.On? && Synced(r) && r.memory.next == m.memory.next + 1 && Capacity(r.disk) == Capacity(m.disk)
    && |r.attempts| == |m.attempts| + 1 && m.attempts <= r.attempts && r.attempts[|m.attempts|].acked && r.attempts[|m.attempts|].landed
    && |Landed(r.attempts)| == |Landed(m.attempts)| + 1
  }

  /** One such operation is acknowledged and leaves the machine ready for the next. */
  lemma Acknowledged(m: Machine, ev: Event)
    requires Accepting(m) && m.memory.next < U32_MAX && Possible(m.memory, ev)
    ensures OneMore(m, Step(m, ev))
  {
    hide Step, Accepting, OneMore, Works, ValidName, Lookup;
    match ev {
      case Save(name, contents, io) => AcknowledgedSave(m, name, contents, io);
      case Delete(name, io) => AcknowledgedDelete(m, name, io);
    }
  }

  lemma AcknowledgedSave(m: Machine, name: CString, contents: CString, io: AppendIo)
    requires Accepting(m) && m.memory.next < U32_MAX && Possible(m.memory, Save(name, contents, io))
    ensures OneMore(m, Step(m, Save(name, contents, io)))
  {
    hide Inv, Lookup, AppendSpec, Landed, Accepting, Synced, Works, ValidName;
    AcceptingIs(m);
    SaveSucceedsIff(m, name, contents, io);
    StepKeepsInv(m, Save(name, contents, io));
    SaveMeans(m, name, contents, io, name);
    RecordedOne(m, Entry(Write, m.memory.next, name, contents), Save(name, contents, io), io);
  }

  lemma AcknowledgedDelete(m: Machine, name: CString, io: AppendIo)
    requires Accepting(m) && m.memory.next < U32_MAX && Possible(m.memory, Delete(name, io))
    ensures OneMore(m, Step(m, Delete(name, io)))
  {
    hide Inv, Lookup, AppendSpec, Landed, Accepting, Synced, Works, ValidName;
    AcceptingIs(m);
    DeleteSucceedsIff(m, name, io);
    StepKeepsInv(m, Delete(name, io));
    DeleteMeans(m, name, io, name);
    RecordedOne(m, Entry(Remove, m.memory.next, name, []), Delete(name, io), io);
  }

  lemma AcceptingIs(m: Machine)
    requires Accepting(m)
    ensures Inv(m) && Synced(m) && m.memory.On? && m.memory.enabled && m.memory.next != 0
  {
    hide Inv;
  }

  lemma RecordedOne(m: Machine, e: Entry, ev: Event, io: AppendIo)
    requires Accepting(m) && e.sequence == m.memory.next && Apply(m.memory.files, e).Some?
    requires Step(m, ev) == Published(m, e, io) && Publish(m.disk, m.memory, e, io).2 && Inv(Step(m, ev))
    ensures var r := Step(m, ev);
            && Synced(r) && Capacity(r.disk) == Capacity(m.disk)
            && r.attempts == m.attempts + [Attempt(e, true, true)] && Landed(r.attempts) == Landed(m.attempts) + [e]
  {
    hide Step, DecodeSuperblock, Classify, Scan, AppendSpec, InitialFiles, Replay, Apply, WellFormed, Agrees, RegionBlank, CommitLanded;
    PublishDisk(m, e, io);
    LandedSnoc(m.attempts, Attempt(e, true, true));
  }

  /** As long as sectors and numbers last, every save and deletion on a working device is acknowledged. */
  lemma {:induction false} AllAcknowledged(m: Machine, events: seq<Event>)
    requires Inv(m) && Synced(m) && m.memory.next != 0 && m.memory.next + |events| <= U32_MAX
    requires |Landed(m.attempts)| + |events| <= Capacity(m.disk) && AllPossible(m, events)
    ensures var r := Run(m, events);
            && Inv(r) && Synced(r) && r.memory.next == m.memory.next + |events|
            && |r.attempts| == |m.attempts| + |events| && m.attempts <= r.attempts
            && |Landed(r.attempts)| == |Landed(m.attempts)| + |events| && Capacity(r.disk) == Capacity(m.disk)
            && forall i :: |m.attempts| <= i < |r.attempts| ==> r.attempts[i].acked && r.attempts[i].landed
    decreases |events|
  {
    hide Inv, Synced, Landed, Capacity, Step, Possible;
    if events != [] {
      Acknowledged(m, events[0]);
      AllAcknowledged(Step(m, events[0]), events[1..]);
    }
  }

  /** A formatted journal takes 64 operations, and no more. */
  lemma FullJournal(m: Machine, events: seq<Event>, name: CString, contents: CString, io: AppendIo)
    requires Inv(m) && Synced(m) && m.memory.next == 1 && Landed(m.attempts) == [] && Capacity(m.disk) == 64
    requires |events| == 64 && AllPossible(m, events)
    ensures var full := Run(m, events); full.memory.On? && full.memory.next == 65 && !SaveOutcome(full.disk, full.memory, name, contents, io).2
  {
    hide Inv, SaveOutcome, Step;
    AllAcknowledged(m, events);
    SaveSucceedsIff(Run(m, events), name, contents, io);
  }

  // ---------- What was saved stays ----------

  /** Attempts on other names do not change what a log makes of this one. */
  lemma {:induction false} OthersKeep(files: seq<File>, attempts: seq<Attempt>, from: nat, name: seq<byte>)
    requires from <= |attempts| && forall k :: from <= k < |attempts| ==> attempts[k].entry.name != name
    ensures ContentAfter(files, Landed(attempts), name) == ContentAfter(files, Landed(attempts[..from]), name)
    decreases |attempts|
  {
    if from == |attempts| {
      assert attempts[..from] == attempts;
    } else {
      var front, last := attempts[..|attempts| - 1], attempts[|attempts| - 1];
      assert front[..from] == attempts[..from];
      OthersKeep(files, front, from, name);
      if last.landed {
        var log := Landed(front);
        assert (log + [last.entry])[..|log|] == log;
      }
    }
  }

  /** An acknowledged save is still there after any later boot, whatever happened in between to other names. */
  lemma SavedStays(m: Machine, name: CString, contents: CString, io: AppendIo, events: seq<Event>)
    requires Inv(m) && m.memory.On? && m.memory.enabled && SaveOutcome(m.disk, m.memory, name, contents, io).2
    requires var saved := Step(m, Save(name, contents, io));
             forall k :: |saved.attempts| <= k < |Run(saved, events).attempts| ==> Run(saved, events).attempts[k].entry.name != name
    ensures var booted := Step(Run(Step(m, Save(name, contents, io)), events), Boot(GOOD_BOOT));
            booted.memory.On? && Lookup(booted.memory.files, name) == Some(contents)
  {
    hide Inv, Lookup, AppendSpec, Landed, Accepting;
    SaveSucceedsIff(m, name, contents, io);
    var e := Entry(Write, m.memory.next, name, contents);
    StepKeepsInv(m, Save(name, contents, io));
    RecordedOne(m, e, Save(name, contents, io), io);
    LastKept(m, Step(m, Save(name, contents, io)), events, e);
  }

  lemma DeletedStays(m: Machine, name: CString, io: AppendIo, events: seq<Event>)
    requires Inv(m) && m.memory.On? && m.memory.enabled && DeleteOutcome(m.disk, m.memory, name, io).2
    requires var deleted := Step(m, Delete(name, io));
             forall k :: |deleted.attempts| <= k < |Run(deleted, events).attempts| ==> Run(deleted, events).attempts[k].entry.name != name
    ensures var booted := Step(Run(Step(m, Delete(name, io)), events), Boot(GOOD_BOOT));
            booted.memory.On? && Lookup(booted.memory.files, name) == None
  {
    hide Inv, Lookup, AppendSpec, Landed, Accepting;
    DeleteSucceedsIff(m, name, io);
    var e := Entry(Remove, m.memory.next, name, []);
    StepKeepsInv(m, Delete(name, io));
    RecordedOne(m, e, Delete(name, io), io);
    LastKept(m, Step(m, Delete(name, io)), events, e);
  }

  lemma LastKept(m: Machine, after: Machine, events: seq<Event>, e: Entry)
    requires Inv(after) && Landed(after.attempts) == Landed(m.attempts) + [e]
    requires forall k :: |after.attempts| <= k < |Run(after, events).attempts| ==> Run(after, events).attempts[k].entry.name != e.name
    ensures var booted := Step(Run(after, events), Boot(GOOD_BOOT));
            booted.memory.On? && Lookup(booted.memory.files, e.name) == if e.operation.Write? then Some(e.content) else None
  {
    hide Inv, Lookup, Run, Step, Replay, WellFormed;
    CrashSafety(after, events);
    var end := Run(after, events);
    OthersKeep(InitialFiles(), end.attempts, |after.attempts|, e.name);
    assert end.attempts[..|after.attempts|] == after.attempts;
  }
}
