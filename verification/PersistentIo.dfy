/** The persistent filesystem's procedures over the device and the table, proved against the run model's functions. */
module PersistentIo {
  import opened Bytes
  import opened JournalCodec
  import opened JournalLog
  import opened JournalIo
  import opened Ramfs
  import opened Persistent

  class Service {
    const disk: Disk
    const table: Table
    var enabled: bool
    var next: u32

    ghost predicate Valid()
      reads this, table, table.files
    {
      table.Valid()
    }

    ghost function Memory(): Memory
      requires Valid()
      reads this, table, table.files
    {
      On(enabled, next, table.Contents())
    }

    constructor (device: Disk)
      ensures Valid() && disk == device && fresh(table) && fresh(table.files)
      ensures Memory() == On(false, 0, InitialFiles())
    {
      disk := device;
      table := new Table();
      enabled := false;
      next := 0;
    }

    /** The second replay pass: every record is read again and applied in order. */
    method ApplyRecords(start: nat, count: nat) returns (ok: bool)
      requires Valid() && Committed(disk.sectors, start, REGION_SECTORS).Some?
      requires count == |Committed(disk.sectors, start, REGION_SECTORS).value|
      modifies disk`failures, table`count, table.files
      ensures Valid() && disk.failures >= old(disk.failures)
      ensures var r := Replay(old(table.Contents()), Committed(disk.sectors, start, REGION_SECTORS).value);
              (ok <==> disk.failures == old(disk.failures) && r.Some?) && (ok ==> table.Contents() == r.value)
    {
      hide DecodeSector, DecodeSuperblock, Classify, WellFormed, Apply, Committed, Replay;
      ghost var entries := Committed(disk.sectors, start, REGION_SECTORS).value;
      ghost var initial := table.Contents();
      ReplayNone(initial);
      for index := 0 to count
        invariant Valid() && disk.failures == old(disk.failures) && Replay(initial, entries[..index]) == Some(table.Contents())
      {
        RecordAt(disk.sectors, start, REGION_SECTORS, index);
        var readOk, s := disk.Read(start + 1 + index);
        if !readOk {
          return false;
        }
        var k := ClassifySector(s);
        assert entries[..index + 1] == entries[..index] + [entries[index]];
        ReplaySnoc(initial, entries[..index], entries[index]);
        var applied := table.ApplyEntry(k.entry);
        if !applied {
          ReplayPrefix(initial, entries, index + 1);
          return false;
        }
      }
      assert entries[..count] == entries;
      return true;
    }

    /**
     * Boot: replay, then find the next sequence number. The kernel panics when the result is false. The arguments say
     * whether the region may be used and whether writing to it can be enabled.
     */
    method Init(available: bool, windowOpened: bool) returns (ok: bool, ghost io: BootIo)
      requires Valid() && table.Contents() == InitialFiles() && |disk.sectors| <= U64_MAX
      modifies disk`failures, this`enabled, this`next, table`count, table.files
      ensures Valid() && disk.failures >= old(disk.failures)
      ensures BootMemory(disk.sectors, io) == if ok then Memory() else BootFailed
      ensures io.available == available && io.windowOpened == windowOpened
      ensures io.superblockRead && io.replayReads && io.sequenceReads <==> disk.failures == old(disk.failures)
    {
      hide DecodeSector, DecodeSuperblock, Classify, WellFormed, InitialFiles, Scan, Replay;
      enabled := false;
      next := 0;
      io := BootIo(available, true, true, true, windowOpened);
      if |disk.sectors| <= REGION_SECTORS || !available {
        return true, io;
      }
      var start := |disk.sectors| - REGION_SECTORS;
      var readOk, superblock := disk.Read(start);
      io := io.(superblockRead := readOk);
      if !readOk || DecodeSuperblock(superblock).None? {
        return true, io;
      }
      var n := ReadSuperblock(disk, start, REGION_SECTORS);
      io := io.(replayReads := disk.failures == old(disk.failures));
      if n.None? {
        return false, io;
      }
      var scan := ScanLog(disk, start, n.value);
      io := io.(replayReads := disk.failures == old(disk.failures));
      if scan.None? {
        return false, io;
      }
      var applied := ApplyRecords(start, scan.value.0);
      io := io.(replayReads := disk.failures == old(disk.failures));
      if !applied {
        return false, io;
      }
      n := ReadSuperblock(disk, start, REGION_SECTORS);
      io := io.(sequenceReads := disk.failures == old(disk.failures));
      if n.None? {
        return true, io;
      }
      scan := ScanLog(disk, start, n.value);
      io := io.(sequenceReads := disk.failures == old(disk.failures));
      if scan.None? || scan.value.1 == U32_MAX {
        return true, io;
      }
      if !windowOpened {
        return false, io;
      }
      enabled := true;
      next := scan.value.1 + 1;
      return true, io;
    }

    method WriteFile(name: CString, contents: CString) returns (ok: bool)
      requires Valid()
      modifies this`next, disk, table`count, table.files
      ensures Valid() && disk.failures >= old(disk.failures) && old(disk.writes) <= disk.writes
      ensures !enabled ==> !ok && disk.sectors == old(disk.sectors) && disk.writes == old(disk.writes) && Memory() == old(Memory())
      ensures enabled ==>
                var writes := disk.writes[|old(disk.writes)|..];
                var io := AppendIoOf(disk.failures == old(disk.failures), writes);
                var r := SaveRecord(old(Memory()), name, contents);
                && (disk.sectors, Memory(), ok) == SaveOutcome(old(disk.sectors), old(Memory()), name, contents, io)
                && Attempted(writes, r.Some? && io.readsOk && Admitted(old(disk.sectors), Start(old(disk.sectors)), REGION_SECTORS, r.value))
    {
      hide DecodeSector, DecodeSuperblock, Classify, WellFormed, InitialFiles, AppendSpec, JournalLog.Admitted;
      assert disk.writes[|disk.writes|..] == [];
      var can := table.CanWriteFile(name, contents);
      if !enabled || next == 0 || !can {
        return false;
      }
      var start := if |disk.sectors| > REGION_SECTORS then |disk.sectors| - REGION_SECTORS else 0;
      ok := Append(disk, start, REGION_SECTORS, 1, next, name, contents);
      if !ok {
        return false;
      }
      var applied := table.ApplyEntry(Entry(Write, next, name, contents));
      assert applied;
      next := if next == U32_MAX then 0 else next + 1;
    }

    method RemoveFile(name: CString) returns (ok: bool)
      requires Valid()
      modifies this`next, disk, table`count, table.files
      ensures Valid() && disk.failures >= old(disk.failures) && old(disk.writes) <= disk.writes
      ensures !enabled ==> !ok && disk.sectors == old(disk.sectors) && disk.writes == old(disk.writes) && Memory() == old(Memory())
      ensures enabled ==>
                var writes := disk.writes[|old(disk.writes)|..];
                var io := AppendIoOf(disk.failures == old(disk.failures), writes);
                var r := DeleteRecord(old(Memory()), name);
                && (disk.sectors, Memory(), ok) == DeleteOutcome(old(disk.sectors), old(Memory()), name, io)
                && Attempted(writes, r.Some? && io.readsOk && Admitted(old(disk.sectors), Start(old(disk.sectors)), REGION_SECTORS, r.value))
    {
      hide DecodeSector, DecodeSuperblock, Classify, WellFormed, InitialFiles, AppendSpec, JournalLog.Admitted;
      assert disk.writes[|disk.writes|..] == [];
      var named := IsValidName(name);
      var i := table.Locate(name);
      if !enabled || next == 0 || !named || i == table.count {
        return false;
      }
      var start := if |disk.sectors| > REGION_SECTORS then |disk.sectors| - REGION_SECTORS else 0;
      ok := Append(disk, start, REGION_SECTORS, 2, next, name, []);
      if !ok {
        return false;
      }
      var applied := table.ApplyEntry(Entry(Remove, next, name, []));
      assert applied;
      next := if next == U32_MAX then 0 else next + 1;
    }

    /**
     * Formats a blank region; refuses anything else. The arguments say whether the region may be used (and a buffer
     * for it could be had), and whether writing to it can be enabled.
     */
    method Format(available: bool, windowOpened: bool) returns (ok: bool)
      requires Valid()
      modifies this`enabled, this`next, disk
      ensures Valid() && disk.failures >= old(disk.failures) && old(disk.writes) <= disk.writes
      ensures var writes := disk.writes[|old(disk.writes)|..];
              var io := FormatIoOf(available, windowOpened, disk.failures == old(disk.failures), writes);
              && (disk.sectors, Memory(), ok) == FormatOutcome(old(disk.sectors), old(Memory()), io)
              && |writes| == if FormatAdmitted(old(disk.sectors), old(Memory()), io) then 1 else 0
    {
      hide DecodeSector, DecodeSuperblock, Classify, WellFormed, InitialFiles, EncodeSuperblock;
      assert disk.writes[|disk.writes|..] == [];
      var pristine := IsPristine();
      if enabled || !pristine || |disk.sectors| <= REGION_SECTORS || !available {
        return false;
      }
      var start := |disk.sectors| - REGION_SECTORS;
      var blank := RegionIsBlank(start);
      if !blank || !windowOpened {
        return false;
      }
      ghost var made := |disk.writes|;
      var reported := disk.Write(start, EncodeSuperblock(REGION_SECTORS - 1));
      assert disk.writes[made..] == [disk.writes[made]];
      if !reported {
        return false;
      }
      var readOk, back := disk.Read(start);
      if !readOk || DecodeSuperblock(back).None? {
        return false;
      }
      enabled := true;
      next := 1;
      return true;
    }

    method IsPristine() returns (ok: bool)
      requires Valid()
      ensures ok == SameNames(table.Contents(), InitialFiles())
    {
      var initial := InitialFiles();
      ok := table.count == 3 && table.files[0].name == initial[0].name && table.files[1].name == initial[1].name &&
            table.files[2].name == initial[2].name;
    }

    method RegionIsBlank(start: nat) returns (blank: bool)
      requires |disk.sectors| > REGION_SECTORS && start == |disk.sectors| - REGION_SECTORS
      modifies disk`failures
      ensures disk.failures >= old(disk.failures)
      ensures blank <==> disk.failures == old(disk.failures) && RegionBlank(disk.sectors)
    {
      for index := start to |disk.sectors|
        invariant disk.failures == old(disk.failures) && forall i :: start <= i < index ==> AllZero(disk.sectors[i])
      {
        var readOk, s := disk.Read(index);
        if !readOk {
          return false;
        }
        var zero := IsAllZero(s);
        if !zero {
          return false;
        }
      }
      return true;
    }
  }

  /** The device's behaviour during a format, from its own record. */
  function FormatIoOf(available: bool, windowOpened: bool, clean: bool, writes: seq<Outcome>): FormatIo {
    FormatIo(available, writes != [] || clean, windowOpened, writes != [] && writes[0].landed, writes != [] && writes[0].reported, clean)
  }

  lemma ReplayNone(files: seq<File>)
    ensures Replay(files, []) == Some(files)
  {
  }

  /** Where a committed record is on the disk. */
  lemma RecordAt(sectors: seq<Sector>, start: nat, sectorCount: nat, i: nat)
    requires Committed(sectors, start, sectorCount).Some? && i < |Committed(sectors, start, sectorCount).value|
    ensures start + 1 + i < |sectors| && Classify(sectors[start + 1 + i]) == Record(Committed(sectors, start, sectorCount).value[i])
  {
    hide DecodeSector, DecodeSuperblock, Classify;
    var n, entries := DataSectors(sectors, start, sectorCount).value, Committed(sectors, start, sectorCount).value;
    var kinds := LogKinds(sectors, start, n);
    ScanIffShape(kinds, 0, entries);
    assert kinds[i] == Record(entries[i]);
  }

  /** A refused record makes every longer replay fail. */
  lemma {:induction false} ReplayPrefix(files: seq<File>, entries: seq<Entry>, k: nat)
    requires k <= |entries| && Replay(files, entries[..k]).None?
    ensures Replay(files, entries).None?
    decreases |entries| - k
  {
    if k == |entries| {
      assert entries[..k] == entries;
    } else {
      assert entries[..k + 1] == entries[..k] + [entries[k]];
      ReplaySnoc(files, entries[..k], entries[k]);
      ReplayPrefix(files, entries, k + 1);
    }
  }
}
