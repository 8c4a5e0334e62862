/**
 * The persistent RAM filesystem: a volatile table kept in step with the write-ahead log.
 * A run is any sequence of boots, saves, deletions and formats. Every event carries what the device did:
 * which reads succeeded, which writes landed, which were reported. Losing power inside an operation is the
 * behaviour in which nothing later lands or is reported, followed by a boot, because a boot keeps only the disk.
 */
module Persistent {
  import opened Bytes
  import opened JournalCodec
  import opened JournalLog
  import opened Ramfs

  const REGION_SECTORS: nat := 65

  /** The kernel's volatile state; `On` holds the write capability, the next sequence number and the table. */
  datatype Memory = Off | BootFailed | ApplyPanic | On(enabled: bool, next: u32, files: seq<File>)

  datatype BootIo = BootIo(available: bool, superblockRead: bool, replayReads: bool, sequenceReads: bool, windowOpened: bool)

  datatype FormatIo = FormatIo(available: bool, preflightRead: bool, windowOpened: bool, lands: bool, reported: bool, readBackOk: bool)

  datatype Event =
    | Boot(bootIo: BootIo)
    | Save(name: CString, contents: CString, io: AppendIo)
    | Delete(name: CString, io: AppendIo)
    | Format(formatIo: FormatIo)

  function Start(disk: seq<Sector>): nat {
    if |disk| > REGION_SECTORS then |disk| - REGION_SECTORS else 0
  }

  function Records(disk: seq<Sector>): Option<seq<Entry>> {
    Committed(disk, Start(disk), REGION_SECTORS)
  }

  function Advance(next: u32): u32 {
    if next == U32_MAX then 0 else next + 1
  }

  // ---------- The operations, as functions of disk, memory and device behaviour ----------

  function BootMemory(disk: seq<Sector>, io: BootIo): Memory {
    if |disk| <= REGION_SECTORS || !io.available || !io.superblockRead || DecodeSuperblock(disk[Start(disk)]).None? then
      On(false, 0, InitialFiles())
    else if !io.replayReads || Records(disk).None? then BootFailed
    else
      var entries := Records(disk).value;
      match Replay(InitialFiles(), entries)
      case None => BootFailed
      case Some(files) =>
        if !io.sequenceReads || LastSequence(0, entries) == U32_MAX then On(false, 0, files)
        else if !io.windowOpened then BootFailed
        else On(true, LastSequence(0, entries) + 1, files)
  }

  /** The record a save or deletion would append, if the operation passes the checks before the journal. */
  function SaveRecord(m: Memory, name: CString, contents: CString): Option<Entry>
    requires m.On?
  {
    if m.next == 0 || !CanWrite(m.files, name, contents) then None else Some(Entry(Write, m.next, name, contents))
  }

  function DeleteRecord(m: Memory, name: CString): Option<Entry>
    requires m.On?
  {
    if m.next == 0 || !ValidName(name) || Lookup(m.files, name).None? then None else Some(Entry(Remove, m.next, name, []))
  }

  /** Append first, then apply to the table; a committed record the table refuses would panic. */
  function Publish(disk: seq<Sector>, m: Memory, e: Entry, io: AppendIo): (seq<Sector>, Memory, bool)
    requires m.On?
  {
    var (after, ok) := AppendSpec(disk, Start(disk), REGION_SECTORS, e, io);
    if !ok then (after, m, false)
    else match Apply(m.files, e)
         case None => (after, ApplyPanic, false)
         case Some(files) => (after, On(m.enabled, Advance(m.next), files), true)
  }

  function SaveOutcome(disk: seq<Sector>, m: Memory, name: CString, contents: CString, io: AppendIo): (seq<Sector>, Memory, bool)
    requires m.On?
  {
    if !m.enabled then
      if CanWrite(m.files, name, contents) then (disk, m.(files := Written(m.files, name, contents)), true) else (disk, m, false)
    else match SaveRecord(m, name, contents)
         case None => (disk, m, false)
         case Some(e) => Publish(disk, m, e, io)
  }

  function DeleteOutcome(disk: seq<Sector>, m: Memory, name: CString, io: AppendIo): (seq<Sector>, Memory, bool)
    requires m.On?
  {
    if !m.enabled then
      if ValidName(name) && Lookup(m.files, name).Some? then (disk, m.(files := Removed(m.files, name)), true) else (disk, m, false)
    else match DeleteRecord(m, name)
         case None => (disk, m, false)
         case Some(e) => Publish(disk, m, e, io)
  }

  predicate RegionBlank(disk: seq<Sector>) {
    |disk| > REGION_SECTORS && forall i :: Start(disk) <= i < |disk| ==> AllZero(disk[i])
  }

  /** Whether a format gets as far as writing. */
  predicate FormatAdmitted(disk: seq<Sector>, m: Memory, io: FormatIo)
    requires m.On?
  {
    !m.enabled && SameNames(m.files, InitialFiles()) && |disk| > REGION_SECTORS && io.available && io.preflightRead &&
    RegionBlank(disk) && io.windowOpened
  }

  function FormatOutcome(disk: seq<Sector>, m: Memory, io: FormatIo): (seq<Sector>, Memory, bool)
    requires m.On?
  {
    if !FormatAdmitted(disk, m, io) then (disk, m, false)
    else
      var after := if io.lands then disk[Start(disk) := EncodeSuperblock(REGION_SECTORS - 1)] else disk;
      if io.reported && io.readBackOk && DecodeSuperblock(after[Start(disk)]).Some? then (after, On(true, 1, m.files), true)
      else (after, m, false)
  }

  // ---------- Runs ----------

  /** An operation that reached the journal: whether its commit write landed, whether it returned success. */
  datatype Attempt = Attempt(entry: Entry, landed: bool, acked: bool)

  /**
   * The machine with its history: every attempt so far, and whether the running table started from a replay
   * (or from a format over untouched contents) rather than from volatile edits.
   */
  datatype Machine = Machine(disk: seq<Sector>, memory: Memory, attempts: seq<Attempt>, exact: bool)

  function Landed(attempts: seq<Attempt>): seq<Entry> {
    if attempts == [] then []
    else
      var a := attempts[|attempts| - 1];
      var older := Landed(attempts[..|attempts| - 1]);
      if a.landed then older + [a.entry] else older
  }

  /** History of an operation on an enabled journal that offered record r. */
  function Recorded(m: Machine, r: Option<Entry>, io: AppendIo, ok: bool): seq<Attempt> {
    if r.None? then m.attempts
    else m.attempts + [Attempt(r.value, CommitLanded(m.disk, Start(m.disk), REGION_SECTORS, r.value, io), ok)]
  }

  function Step(m: Machine, ev: Event): Machine {
    match ev
    case Boot(io) => m.(memory := BootMemory(m.disk, io), exact := true)
    case Save(name, contents, io) =>
      if !m.memory.On? then m
      else
        var (disk, memory, ok) := SaveOutcome(m.disk, m.memory, name, contents, io);
        var r := if m.memory.enabled then SaveRecord(m.memory, name, contents) else None;
        Machine(disk, memory, Recorded(m, r, io, ok), m.exact)
    case Delete(name, io) =>
      if !m.memory.On? then m
      else
        var (disk, memory, ok) := DeleteOutcome(m.disk, m.memory, name, io);
        var r := if m.memory.enabled then DeleteRecord(m.memory, name) else None;
        Machine(disk, memory, Recorded(m, r, io, ok), m.exact)
    case Format(io) =>
      if !m.memory.On? then m
      else
        var (disk, memory, ok) := FormatOutcome(m.disk, m.memory, io);
        Machine(disk, memory, m.attempts, if ok then m.memory.files == InitialFiles() else m.exact)
  }

  function Run(m: Machine, events: seq<Event>): Machine
    decreases |events|
  {
    if events == [] then m else Run(Step(m, events[0]), events[1..])
  }

  // ---------- The invariant of every run ----------

  /** The log the run has built: exactly the attempts whose commit write landed, in order. */
  predicate DiskInv(m: Machine) {
    && |m.disk| > REGION_SECTORS && |m.disk| <= U64_MAX
    && (if RegionBlank(m.disk) then Landed(m.attempts) == [] else Records(m.disk) == Some(Landed(m.attempts)))
    && Replay(InitialFiles(), Landed(m.attempts)).Some?
    && forall i :: 0 <= i < |m.attempts| ==> m.attempts[i].acked ==> m.attempts[i].landed
  }

  /** The table agrees with the replay of `log`: in the names always, in the contents when the start was exact. */
  predicate Agrees(m: Machine, log: seq<Entry>)
    requires m.memory.On?
  {
    && Replay(InitialFiles(), log).Some?
    && SameNames(m.memory.files, Replay(InitialFiles(), log).value)
    && (m.exact ==> m.memory.files == Replay(InitialFiles(), log).value)
  }

  /** Table and log in step. */
  predicate Synced(m: Machine) {
    && m.memory.On? && m.memory.enabled && !RegionBlank(m.disk)
    && (m.memory.next == 0 || m.memory.next > LastSequence(0, Landed(m.attempts)))
    && Agrees(m, Landed(m.attempts))
  }

  /** The last record landed although its operation reported failure: the table is one operation behind. */
  predicate Stuck(m: Machine) {
    var log := Landed(m.attempts);
    && m.memory.On? && m.memory.enabled && !RegionBlank(m.disk) && log != []
    && m.memory.next == LastSequence(0, log)
    && Agrees(m, log[..|log| - 1])
  }

  predicate Inv(m: Machine) {
    && DiskInv(m)
    && m.memory != ApplyPanic && (m.memory.On? ==> WellFormed(m.memory.files))
    && (m.memory.On? && m.memory.enabled ==> Synced(m) || Stuck(m))
  }

  lemma LandedSnoc(attempts: seq<Attempt>, a: Attempt)
    ensures Landed(attempts + [a]) == if a.landed then Landed(attempts) + [a.entry] else Landed(attempts)
  {
    assert (attempts + [a])[..|attempts|] == attempts;
  }

  lemma BlankSuperblock(s: Sector)
    requires AllZero(s)
    ensures DecodeSuperblock(s) == None
  {
    assert s[0] == 0 && s[1] == 0 && s[2] == 0 && s[3] == 0;
  }

  lemma RecordsNotBlank(disk: seq<Sector>)
    requires Records(disk).Some?
    ensures !RegionBlank(disk)
  {
    hide DecodeSuperblock, Classify, Scan;
    if RegionBlank(disk) {
      BlankSuperblock(disk[Start(disk)]);
    }
  }

  /** What the append of the next record does to the run's log. */
  lemma PublishDisk(m: Machine, e: Entry, io: AppendIo)
    requires DiskInv(m) && !RegionBlank(m.disk)
    ensures var (after, ok) := AppendSpec(m.disk, Start(m.disk), REGION_SECTORS, e, io);
            var landed := CommitLanded(m.disk, Start(m.disk), REGION_SECTORS, e, io);
            && |after| == |m.disk| && !RegionBlank(after) && (ok <==> landed && io.commitReported && io.readBackOk)
            && after[Start(m.disk)] == m.disk[Start(m.disk)]
            && Records(after) == Some(Landed(m.attempts + [Attempt(e, landed, ok)]))
  {
    hide DecodeSuperblock, Classify, Scan;
    AppendEffect(m.disk, Start(m.disk), REGION_SECTORS, e, io);
    var (after, ok) := AppendSpec(m.disk, Start(m.disk), REGION_SECTORS, e, io);
    RecordsNotBlank(after);
    LandedSnoc(m.attempts, Attempt(e, CommitLanded(m.disk, Start(m.disk), REGION_SECTORS, e, io), ok));
  }

  /** The replay of the log with one more record, next to the running table. */
  lemma AgreesAfter(m: Machine, log: seq<Entry>, e: Entry)
    requires m.memory.On? && Agrees(m, log) && Apply(m.memory.files, e).Some?
    ensures Replay(InitialFiles(), log + [e]).Some?
    ensures SameNames(Apply(m.memory.files, e).value, Replay(InitialFiles(), log + [e]).value)
    ensures m.exact ==> Apply(m.memory.files, e).value == Replay(InitialFiles(), log + [e]).value
  {
    hide InitialFiles;
    var r := Replay(InitialFiles(), log).value;
    ReplaySnoc(InitialFiles(), log, e);
    ApplyByName(m.memory.files, r, e);
  }

  function Published(m: Machine, e: Entry, io: AppendIo): Machine
    requires m.memory.On?
  {
    var (disk, memory, ok) := Publish(m.disk, m.memory, e, io);
    Machine(disk, memory, Recorded(m, Some(e), io, ok), m.exact)
  }

  lemma PublishSynced(m: Machine, e: Entry, io: AppendIo)
    requires DiskInv(m) && Synced(m) && WellFormed(m.memory.files)
    requires e.sequence == m.memory.next != 0 && Apply(m.memory.files, e).Some?
    ensures Inv(Published(m, e, io))
  {
    hide DecodeSuperblock, Classify, Scan, InitialFiles, Apply, AppendSpec, CommitLanded, SameNames, Replay, RegionBlank, Records, Start, WellFormed;
    var log := Landed(m.attempts);
    ApplyWellFormed(m.memory.files, e);
    PublishDisk(m, e, io);
    var (after, ok) := AppendSpec(m.disk, Start(m.disk), REGION_SECTORS, e, io);
    LandedSnoc(m.attempts, Attempt(e, CommitLanded(m.disk, Start(m.disk), REGION_SECTORS, e, io), ok));
    AgreesAfter(m, log, e);
    assert (log + [e])[..|log|] == log;
  }

  lemma PublishStuck(m: Machine, e: Entry, io: AppendIo)
    requires DiskInv(m) && Stuck(m) && WellFormed(m.memory.files) && e.sequence == m.memory.next
    ensures Published(m, e, io) == m.(attempts := m.attempts + [Attempt(e, false, false)])
    ensures Inv(Published(m, e, io))
  {
    hide DecodeSuperblock, Classify, Scan, InitialFiles, Apply, AppendSpec, SameNames, Replay, RegionBlank;
    StaleAppendRefused(m.disk, Start(m.disk), REGION_SECTORS, e, io);
    LandedSnoc(m.attempts, Attempt(e, false, false));
  }

  lemma PublishKeepsInv(m: Machine, e: Entry, io: AppendIo)
    requires Inv(m) && m.memory.On? && m.memory.enabled
    requires e.sequence == m.memory.next != 0 && Apply(m.memory.files, e).Some?
    ensures Inv(Published(m, e, io))
  {
    if Synced(m) {
      PublishSynced(m, e, io);
    } else {
      PublishStuck(m, e, io);
    }
  }

  lemma ReflexiveNames(files: seq<File>)
    ensures SameNames(files, files)
  {
  }

  lemma BootKeepsInv(m: Machine, io: BootIo)
    requires DiskInv(m)
    ensures Inv(Step(m, Boot(io)))
  {
    hide DecodeSuperblock, Classify, Scan, InitialFiles, Apply, SameNames, Replay;
    if RegionBlank(m.disk) {
      BlankSuperblock(m.disk[Start(m.disk)]);
    } else {
      ReflexiveNames(Replay(InitialFiles(), Landed(m.attempts)).value);
      ReplayWellFormed(InitialFiles(), Landed(m.attempts));
    }
  }

  /** A superblock over a blank region makes an empty log. */
  lemma FreshLog(disk: seq<Sector>)
    requires RegionBlank(disk) && |disk| <= U64_MAX
    ensures Records(disk[Start(disk) := EncodeSuperblock(REGION_SECTORS - 1)]) == Some([])
  {
    hide DecodeSuperblock, DecodeSector, EncodeSuperblock;
    var n := REGION_SECTORS - 1;
    var start, after := Start(disk), disk[Start(disk) := EncodeSuperblock(REGION_SECTORS - 1)];
    SuperblockDecodeIffEncoded(EncodeSuperblock(n), n);
    assert DataSectors(after, start, REGION_SECTORS) == Some(n);
    var kinds := LogKinds(after, start, n);
    forall i | 0 <= i < |kinds| ensures kinds[i] == Blank {
      assert after[start + 1..start + 1 + n][i] == disk[start + 1 + i];
    }
    assert AllBlank(kinds);
  }

  lemma FormatKeepsInv(m: Machine, io: FormatIo)
    requires Inv(m)
    ensures Inv(Step(m, Format(io)))
  {
    hide DecodeSuperblock, Classify, Scan, InitialFiles, Apply, SameNames, EncodeSuperblock;
    if RegionBlank(m.disk) {
      FreshLog(m.disk);
      RecordsNotBlank(m.disk[Start(m.disk) := EncodeSuperblock(REGION_SECTORS - 1)]);
      BlankSuperblock(m.disk[Start(m.disk)]);
    }
  }

  lemma StepKeepsInv(m: Machine, ev: Event)
    requires Inv(m)
    ensures Inv(Step(m, ev)) && m.attempts <= Step(m, ev).attempts
  {
    hide DecodeSuperblock, Classify, Scan, InitialFiles, AppendSpec, WellFormed, Written, Removed, Find;
    match ev
    case Boot(io) => BootKeepsInv(m, io);
    case Save(name, contents, io) =>
      if m.memory.On? && m.memory.enabled && SaveRecord(m.memory, name, contents).Some? {
        PublishKeepsInv(m, SaveRecord(m.memory, name, contents).value, io);
      } else if m.memory.On? && CanWrite(m.memory.files, name, contents) {
        WrittenWellFormed(m.memory.files, name, contents);
      }
    case Delete(name, io) =>
      if m.memory.On? && m.memory.enabled && DeleteRecord(m.memory, name).Some? {
        PublishKeepsInv(m, DeleteRecord(m.memory, name).value, io);
      } else if m.memory.On? {
        RemovedWellFormed(m.memory.files, name);
      }
    case Format(io) => FormatKeepsInv(m, io);
  }

  // ---------- Main results ----------

  lemma {:induction false} RunKeepsInv(m: Machine, events: seq<Event>)
    requires Inv(m)
    ensures Inv(Run(m, events))
    ensures m.attempts <= Run(m, events).attempts
    decreases |events|
  {
    hide Step, Inv;
    if events != [] {
      StepKeepsInv(m, events[0]);
      RunKeepsInv(Step(m, events[0]), events[1..]);
    }
  }

  /** A device on which every read succeeds. */
  const GOOD_BOOT: BootIo := BootIo(true, true, true, true, true)

  /**
   * Crash atomicity and durability. After any run, a boot with working reads rebuilds the table by replaying
   * exactly the operations whose commit write landed, in order and without any being refused, so that every name
   * holds what the last of them on that name left there; every operation that returned success is among them; and no
   * run reaches the panic for a committed record that cannot be applied.
   */
  lemma CrashSafety(m: Machine, events: seq<Event>)
    requires Inv(m)
    ensures var end := Run(m, events);
            var booted := Step(end, Boot(GOOD_BOOT));
            && end.memory != ApplyPanic && m.attempts <= end.attempts
            && Replay(InitialFiles(), Landed(end.attempts)).Some?
            && booted.memory.On?
            && booted.memory.files == Replay(InitialFiles(), Landed(end.attempts)).value && WellFormed(booted.memory.files)
            && (forall name :: Lookup(booted.memory.files, name) == ContentAfter(InitialFiles(), Landed(end.attempts), name))
            && forall i :: 0 <= i < |end.attempts| ==> end.attempts[i].acked ==> end.attempts[i].landed
  {
    hide DecodeSuperblock, Classify, Scan, InitialFiles, Apply, WellFormed, Lookup, ContentAfter;
    RunKeepsInv(m, events);
    var end := Run(m, events);
    ReplayWellFormed(InitialFiles(), Landed(end.attempts));
    forall name ensures Lookup(Replay(InitialFiles(), Landed(end.attempts)).value, name) == ContentAfter(InitialFiles(), Landed(end.attempts), name) {
      ReplayMeans(InitialFiles(), Landed(end.attempts), name);
    }
    if RegionBlank(end.disk) {
      BlankSuperblock(end.disk[Start(end.disk)]);
    }
  }

  /** A formatted journal whose log replays is a legitimate start of a run, with its records as the history. */
  lemma InitialisedJournal(disk: seq<Sector>, attempts: seq<Attempt>)
    requires REGION_SECTORS < |disk| <= U64_MAX && Records(disk) == Some(Landed(attempts))
    requires Replay(InitialFiles(), Landed(attempts)).Some?
    requires forall i :: 0 <= i < |attempts| ==> attempts[i].landed
    ensures Inv(Machine(disk, Off, attempts, true))
  {
    RecordsNotBlank(disk);
  }

  /**
   * A save that reports failure leaves the table alone, and the log either alone or longer by exactly that
   * record; in the second case the machine is stuck until the next boot.
   */
  lemma FailedSave(m: Machine, name: CString, contents: CString, io: AppendIo)
    requires Inv(m) && m.memory.On? && m.memory.enabled
    requires !SaveOutcome(m.disk, m.memory, name, contents, io).2
    ensures var after := Step(m, Save(name, contents, io));
            && after.memory == m.memory
            && (|| Records(after.disk) == Records(m.disk)
                || (&& Records(after.disk) == Some(Records(m.disk).value + [Entry(Write, m.memory.next, name, contents)])
                    && Stuck(after)))
  {
    hide DecodeSuperblock, Classify, Scan, InitialFiles, AppendSpec, CommitLanded, Replay, RegionBlank;
    StepKeepsInv(m, Save(name, contents, io));
    var r := SaveRecord(m.memory, name, contents);
    if r.Some? {
      PublishDisk(m, r.value, io);
      LandedSnoc(m.attempts, Attempt(r.value, CommitLanded(m.disk, Start(m.disk), REGION_SECTORS, r.value, io), false));
    }
  }

  lemma FailedDelete(m: Machine, name: CString, io: AppendIo)
    requires Inv(m) && m.memory.On? && m.memory.enabled
    requires !DeleteOutcome(m.disk, m.memory, name, io).2
    ensures var after := Step(m, Delete(name, io));
            && after.memory == m.memory
            && (|| Records(after.disk) == Records(m.disk)
                || (&& Records(after.disk) == Some(Records(m.disk).value + [Entry(Remove, m.memory.next, name, [])])
                    && Stuck(after)))
  {
    hide DecodeSuperblock, Classify, Scan, InitialFiles, AppendSpec, CommitLanded, Replay, RegionBlank;
    StepKeepsInv(m, Delete(name, io));
    var r := DeleteRecord(m.memory, name);
    if r.Some? {
      PublishDisk(m, r.value, io);
      LandedSnoc(m.attempts, Attempt(r.value, CommitLanded(m.disk, Start(m.disk), REGION_SECTORS, r.value, io), false));
    }
  }

  lemma StuckStep(m: Machine, ev: Event)
    requires Inv(m) && Stuck(m) && !ev.Boot?
    ensures Step(m, ev).disk == m.disk && Step(m, ev).memory == m.memory && Stuck(Step(m, ev))
    ensures Landed(Step(m, ev).attempts) == Landed(m.attempts)
  {
    hide DecodeSuperblock, Classify, Scan, InitialFiles, AppendSpec, CommitLanded, Replay, RegionBlank;
    match ev
    case Boot(io) =>
    case Save(name, contents, io) =>
      var r := SaveRecord(m.memory, name, contents);
      if r.Some? {
        PublishStuck(m, r.value, io);
        LandedSnoc(m.attempts, Attempt(r.value, false, false));
      }
    case Delete(name, io) =>
      var r := DeleteRecord(m.memory, name);
      if r.Some? {
        PublishStuck(m, r.value, io);
        LandedSnoc(m.attempts, Attempt(r.value, false, false));
      }
    case Format(io) =>
  }

  /** Once stuck, nothing succeeds and nothing changes until the machine boots again. */
  lemma {:induction false} StuckUntilBoot(m: Machine, events: seq<Event>)
    requires Inv(m) && Stuck(m)
    requires forall i :: 0 <= i < |events| ==> !events[i].Boot?
    ensures Run(m, events).disk == m.disk && Run(m, events).memory == m.memory
    decreases |events|
  {
    if events != [] {
      StuckStep(m, events[0]);
      StepKeepsInv(m, events[0]);
      StuckUntilBoot(Step(m, events[0]), events[1..]);
    }
  }

  /**
   * Formatting checks the three names only. The table survives the next boot exactly when its contents were
   * the initial ones at the time of the format.
   */
  lemma FormatKeepsContentsIff(m: Machine, io: FormatIo)
    requires Inv(m) && m.memory.On? && FormatOutcome(m.disk, m.memory, io).2
    ensures var formatted := Step(m, Format(io));
            var booted := Step(formatted, Boot(GOOD_BOOT));
            && booted.memory.On?
            && SameNames(booted.memory.files, formatted.memory.files)
            && (booted.memory.files == formatted.memory.files <==> m.memory.files == InitialFiles())
  {
    hide DecodeSuperblock, Classify, Scan, InitialFiles, EncodeSuperblock;
    FreshLog(m.disk);
    BlankSuperblock(m.disk[Start(m.disk)]);
    StepKeepsInv(m, Format(io));
    CrashSafety(Step(m, Format(io)), []);
    var formatted := Step(m, Format(io));
    assert Landed(formatted.attempts) == [];
  }

  /** One such loss: a volatile edit of README, then a format, then a boot. */
  lemma FormatCanDropEdit(disk: seq<Sector>)
    requires REGION_SECTORS < |disk| <= U64_MAX && RegionBlank(disk)
    ensures var readme := InitialFiles()[0].name;
            var io := AppendIo(true, true, true, true, true, true);
            var edited := Run(Machine(disk, Off, [], true), [Boot(GOOD_BOOT), Save(readme, [0x78], io), Format(FormatIo(true, true, true, true, true, true))]);
            && edited.memory.On? && edited.memory.enabled && Lookup(edited.memory.files, readme) == Some([0x78])
            && Step(edited, Boot(GOOD_BOOT)).memory.On?
            && Lookup(Step(edited, Boot(GOOD_BOOT)).memory.files, readme) == Some(InitialFiles()[0].contents) != Some([0x78])
  {
    hide DecodeSuperblock, Classify, Scan, EncodeSuperblock, DecodeSector;
    var io := AppendIo(true, true, true, true, true, true);
    var fio := FormatIo(true, true, true, true, true, true);
    var readme := InitialFiles()[0].name;
    var m0 := Machine(disk, Off, [], true);
    BlankSuperblock(disk[Start(disk)]);
    var m1 := Step(m0, Boot(GOOD_BOOT));
    var m2 := Step(m1, Save(readme, [0x78], io));
    var m3 := Step(m2, Format(fio));
    LookupWritten(InitialFiles(), readme, [0x78], readme);
    SuperblockDecodeIffEncoded(EncodeSuperblock(REGION_SECTORS - 1), REGION_SECTORS - 1);
    StepKeepsInv(m0, Boot(GOOD_BOOT));
    StepKeepsInv(m1, Save(readme, [0x78], io));
    FormatKeepsContentsIff(m2, fio);
    FreshLog(disk);
    var events := [Boot(GOOD_BOOT), Save(readme, [0x78], io), Format(fio)];
    assert events[1..][0] == events[1] && events[1..][1..] == [events[2]] && [events[2]][1..] == [];
    assert Run(m0, events) == Run(m1, events[1..]) == Run(m2, [events[2]]) == Run(m3, []);
  }
}
