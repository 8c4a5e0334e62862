/** The journal's procedures over a fallible block device. */
module JournalIo {
  import opened Bytes
  import opened JournalCodec
  import opened JournalLog

  /** What became of one write: whether it reached the medium, and what the device said. */
  datatype Outcome = Outcome(landed: bool, reported: bool)

  /**
   * A device of atomic sectors whose reads may fail and whose writes may be lost, whatever they report.
   * The ghost fields record what it did: how often it failed to read a sector it has, what became of each write,
   * and every content it has had, oldest first.
   */
  class Disk {
    var sectors: seq<Sector>
    ghost var failures: nat
    ghost var writes: seq<Outcome>
    ghost var trace: seq<seq<Sector>>

    constructor (initial: seq<Sector>)
      ensures sectors == initial && trace == [initial] && failures == 0 && writes == []
    {
      sectors := initial;
      failures := 0;
      writes := [];
      trace := [initial];
    }

    method Read(lba: nat) returns (ok: bool, s: Sector)
      modifies this`failures
      ensures ok ==> lba < |sectors| && s == sectors[lba]
      ensures failures == old(failures) + if !ok && lba < |sectors| then 1 else 0
    {
      ok := *;
      s := Zeros(SECTOR_SIZE);
      if lba >= |sectors| {
        ok := false;
      } else if ok {
        s := sectors[lba];
      } else {
        failures := failures + 1;
      }
    }

    method Write(lba: nat, s: Sector) returns (ok: bool)
      requires lba < |sectors|
      modifies this`sectors, this`writes, this`trace
      ensures |writes| == |old(writes)| + 1 && writes[..|old(writes)|] == old(writes)
      ensures var o := writes[|old(writes)|];
              o.reported == ok && sectors == (if o.landed then old(sectors)[lba := s] else old(sectors))
      ensures trace == old(trace) + [sectors]
    {
      var landed: bool := *;
      if landed {
        sectors := sectors[lba := s];
      }
      trace := trace + [sectors];
      ok := *;
      writes := writes + [Outcome(landed, ok)];
    }
  }

  function Prepend(front: seq<Entry>, r: Option<seq<Entry>>): Option<seq<Entry>> {
    match r
    case Some(rest) => Some(front + rest)
    case None => None
  }

  method ClassifySector(s: Sector) returns (k: Kind)
    ensures k == Classify(s)
  {
    var blank := IsAllZero(s);
    if blank {
      return Blank;
    }
    var r := Decode(s, true);
    if r.Some? {
      return Record(r.value);
    }
    var t := Decode(s, false);
    return if t.Some? then Torn(t.value) else Junk;
  }

  /** Reads the sectors from `from` on and reports whether all are blank. */
  method RestIsBlank(disk: Disk, start: nat, n: nat, from: nat) returns (blank: bool)
    requires start + 1 + n <= |disk.sectors| && from <= n
    modifies disk`failures
    ensures disk.failures >= old(disk.failures)
    ensures blank <==> AllBlank(LogKinds(disk.sectors, start, n)[from..]) && disk.failures == old(disk.failures)
  {
    hide DecodeSector, DecodeSuperblock, Classify;
    ghost var rest := LogKinds(disk.sectors, start, n)[from..];
    for index := from to n
      invariant disk.failures == old(disk.failures) && forall i :: 0 <= i < index - from ==> rest[i] == Blank
    {
      var ok, s := disk.Read(start + 1 + index);
      if !ok {
        return false;
      }
      var k := ClassifySector(s);
      assert rest[index - from] == k;
      if !k.Blank? {
        return false;
      }
    }
    return true;
  }

  /** Scans the data sectors; the number of records and the last sequence number, unless a read fails. */
  method ScanLog(disk: Disk, start: nat, n: nat) returns (r: Option<(nat, u32)>)
    requires start + 1 + n <= |disk.sectors|
    modifies disk`failures
    ensures disk.failures >= old(disk.failures)
    ensures r == if disk.failures == old(disk.failures) then Summary(LogKinds(disk.sectors, start, n)) else None
  {
    hide DecodeSector, DecodeSuperblock, Classify, Scan, ScanAt, Summary, AllBlank;
    ghost var kinds := LogKinds(disk.sectors, start, n);
    ghost var front: seq<Entry> := [];
    var previous: u32, index: nat := 0, 0;
    var blank: bool;
    ScanStarts(kinds);
    while index < n
      invariant disk.failures == old(disk.failures) && index <= n && ScanAt(kinds, index, front, previous)
    {
      var ok, s := disk.Read(start + 1 + index);
      if !ok {
        return None;
      }
      var k := ClassifySector(s);
      assert kinds[index] == k;
      ScanNext(kinds, index, front, previous);
      if k.Blank? {
        blank := RestIsBlank(disk, start, n, index);
        return if blank then Some((index, previous)) else None;
      }
      if k.Torn? && Newer(k.entry.sequence, previous) {
        blank := RestIsBlank(disk, start, n, index + 1);
        return if blank then Some((index, previous)) else None;
      }
      if !k.Record? || !Newer(k.entry.sequence, previous) {
        return None;
      }
      previous := k.entry.sequence;
      front := front + [k.entry];
      index := index + 1;
    }
    ScanEnds(kinds, front, previous);
    return Some((index, previous));
  }

  /** The number of records and the last sequence number of a scan. */
  function Summary(kinds: seq<Kind>): Option<(nat, u32)> {
    match Scan(kinds, 0)
    case None => None
    case Some(entries) => Some((|entries|, LastSequence(0, entries)))
  }

  /** A scan under way: the records seen so far, followed by a scan of the rest, are the scan. */
  ghost predicate ScanAt(kinds: seq<Kind>, index: nat, front: seq<Entry>, previous: u32) {
    && index == |front| <= |kinds| && previous == LastSequence(0, front)
    && Scan(kinds, 0) == Prepend(front, Scan(kinds[index..], previous))
  }

  lemma ScanStarts(kinds: seq<Kind>)
    ensures ScanAt(kinds, 0, [], 0)
  {
    hide Scan;
    assert kinds[0..] == kinds;
    var all := Scan(kinds, 0);
    assert all.Some? ==> [] + all.value == all.value;
  }

  /** What the next sector means for the outcome. */
  lemma ScanNext(kinds: seq<Kind>, index: nat, front: seq<Entry>, previous: u32)
    requires ScanAt(kinds, index, front, previous) && index < |kinds|
    ensures match kinds[index]
            case Blank => Summary(kinds) == if AllBlank(kinds[index..]) then Some((index, previous)) else None
            case Torn(e) =>
              Summary(kinds) == if Newer(e.sequence, previous) && AllBlank(kinds[index + 1..]) then Some((index, previous)) else None
            case Record(e) => if Newer(e.sequence, previous) then ScanAt(kinds, index + 1, front + [e], e.sequence) else Summary(kinds) == None
            case Junk => Summary(kinds) == None
  {
    var rest := kinds[index..];
    assert rest[0] == kinds[index] && rest[1..] == kinds[index + 1..];
    assert front + [] == front;
    if rest[0].Record? && Newer(rest[0].entry.sequence, previous) {
      ScanStep(rest, previous, front);
    }
  }

  lemma ScanEnds(kinds: seq<Kind>, front: seq<Entry>, previous: u32)
    requires ScanAt(kinds, |kinds|, front, previous)
    ensures Summary(kinds) == Some((|kinds|, previous))
  {
    assert front + [] == front;
  }

  lemma ScanStep(rest: seq<Kind>, previous: u32, front: seq<Entry>)
    requires rest != [] && rest[0].Record? && Newer(rest[0].entry.sequence, previous)
    ensures Prepend(front, Scan(rest, previous)) == Prepend(front + [rest[0].entry], Scan(rest[1..], rest[0].entry.sequence))
  {
    var tail := Scan(rest[1..], rest[0].entry.sequence);
    if tail.Some? {
      assert front + ([rest[0].entry] + tail.value) == front + [rest[0].entry] + tail.value;
    }
  }

  /** A content that some power loss during the append leaves behind. */
  ghost predicate CrashPoint(before: seq<Sector>, start: nat, sectorCount: nat, e: Entry, after: seq<Sector>) {
    exists io: AppendIo :: !io.commitReported && AppendSpec(before, start, sectorCount, e, io).0 == after
  }

  method ReadSuperblock(disk: Disk, start: nat, sectorCount: nat) returns (n: Option<nat>)
    modifies disk`failures
    ensures disk.failures >= old(disk.failures)
    ensures n == if disk.failures == old(disk.failures) then DataSectors(disk.sectors, start, sectorCount) else None
  {
    if !(2 <= sectorCount <= MAX_DATA_SECTORS + 1) || start > U64_MAX - (sectorCount - 1) {
      return None;
    }
    var ok, s := disk.Read(start);
    if !ok {
      return None;
    }
    var decoded := DecodeSuperblock(s);
    // A region that runs past the device fails in the scan's reads; nothing is written before them.
    if decoded.None? || decoded.value + 1 > sectorCount || start + 1 + decoded.value > |disk.sectors| {
      return None;
    }
    return decoded;
  }

  /**
   * The device's behaviour during an append, from its own record: whether it read all it was asked to, and what
   * became of the writes. A failed read comes before the first write or is the reading back.
   */
  function AppendIoOf(clean: bool, writes: seq<Outcome>): AppendIo {
    AppendIo(writes != [] || clean, writes != [] && writes[0].landed, writes != [] && writes[0].reported,
             |writes| > 1 && writes[1].landed, |writes| > 1 && writes[1].reported, clean)
  }

  /** An append that gets as far as writing makes the first write, and the second exactly when the first is reported. */
  predicate Attempted(writes: seq<Outcome>, admitted: bool) {
    if !admitted then writes == [] else if writes != [] && writes[0].reported then |writes| == 2 else |writes| == 1
  }

  /**
   * The two-phase append. The disk ends as the specification says for what the device did, the writes are the ones
   * the specification calls for, and every content in between is one that a power loss leaves behind.
   */
  method Append(disk: Disk, start: nat, sectorCount: nat, operation: u32, sequence: u32, name: seq<byte>, content: seq<byte>)
    returns (ok: bool)
    modifies disk
    ensures disk.failures >= old(disk.failures) && old(disk.writes) <= disk.writes && old(disk.trace) <= disk.trace
    ensures operation != 1 && operation != 2 ==> disk.sectors == old(disk.sectors) && disk.writes == old(disk.writes) && !ok
    ensures operation == 1 || operation == 2 ==>
              var e := EntryOf(operation, sequence, name, content);
              var io := AppendIoOf(disk.failures == old(disk.failures), disk.writes[|old(disk.writes)|..]);
              && (disk.sectors, ok) == AppendSpec(old(disk.sectors), start, sectorCount, e, io)
              && Attempted(disk.writes[|old(disk.writes)|..], io.readsOk && Admitted(old(disk.sectors), start, sectorCount, e))
    ensures forall i :: |old(disk.trace)| <= i < |disk.trace| ==>
              CrashPoint(old(disk.sectors), start, sectorCount, EntryOf(operation, sequence, name, content), disk.trace[i])
  {
    hide DecodeSector, DecodeSuperblock, Classify, EncodeSector, Scan, LogKinds, ValidName;
    ghost var e := EntryOf(operation, sequence, name, content);
    assert disk.writes[|disk.writes|..] == [];
    var n := ReadSuperblock(disk, start, sectorCount);
    if n.None? {
      return false;
    }
    var scan := ScanLog(disk, start, n.value);
    if scan.None? || scan.value.0 >= n.value || !Newer(sequence, scan.value.1) {
      return false;
    }
    var sector := new byte[SECTOR_SIZE];
    var encoded := Encode(sector, operation, sequence, name, content, false);
    if !encoded {
      return false;
    }
    var target := start + 1 + scan.value.0;
    ok := WriteRecord(disk, start, sectorCount, e, target, sector);
  }

  /** The prepared record, then the same record with its commit marker, then the reading back. */
  method WriteRecord(disk: Disk, start: nat, sectorCount: nat, ghost e: Entry, target: nat, sector: array<byte>) returns (ok: bool)
    requires Admitted(disk.sectors, start, sectorCount, e) && target == Target(disk.sectors, start, sectorCount) < |disk.sectors|
    requires sector.Length == SECTOR_SIZE && sector[..] == EncodeSector(e, false)
    modifies disk, sector
    ensures disk.failures >= old(disk.failures) && old(disk.writes) <= disk.writes && old(disk.trace) <= disk.trace
    ensures var writes := disk.writes[|old(disk.writes)|..];
            && (disk.sectors, ok) == AppendSpec(old(disk.sectors), start, sectorCount, e, AppendIoOf(disk.failures == old(disk.failures), writes))
            && Attempted(writes, true)
    ensures forall i :: |old(disk.trace)| <= i < |disk.trace| ==> CrashPoint(old(disk.sectors), start, sectorCount, e, disk.trace[i])
  {
    hide DecodeSector, DecodeSuperblock, Classify, EncodeSector, Admitted, Target, ValidEntry;
    ghost var before, made := disk.sectors, |disk.writes|;
    AdmittedIsValid(before, start, sectorCount, e);
    var reported := disk.Write(target, sector[..]);
    ghost var first := disk.writes[made];
    assert disk.writes[made..] == [first];
    CrashHere(before, start, sectorCount, e, AppendIo(true, first.landed, false, false, false, false));
    if !reported {
      return false;
    }
    WriteU32(sector, COMMIT_OFFSET, COMMIT);
    CommitMarkerOnly(e, sector[..]);
    assert sector[..COMMIT_OFFSET] == sector[..][..COMMIT_OFFSET];
    reported := disk.Write(target, sector[..]);
    ghost var second := disk.writes[made + 1];
    assert disk.writes[made..] == [first, second];
    CrashHere(before, start, sectorCount, e, AppendIo(true, first.landed, true, second.landed, false, false));
    if !reported {
      return false;
    }
    var readOk, back := disk.Read(target);
    if !readOk {
      return false;
    }
    var k := ClassifySector(back);
    return k.Record?;
  }

  lemma AdmittedIsValid(disk: seq<Sector>, start: nat, sectorCount: nat, e: Entry)
    requires Admitted(disk, start, sectorCount, e)
    ensures ValidEntry(e) && Committed(disk, start, sectorCount).Some?
  {
  }

  lemma CrashHere(before: seq<Sector>, start: nat, sectorCount: nat, e: Entry, io: AppendIo)
    requires !io.commitReported
    ensures CrashPoint(before, start, sectorCount, e, AppendSpec(before, start, sectorCount, e, io).0)
  {
  }
}
