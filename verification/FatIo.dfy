/** Mounting a FAT16 volume and reading a file from a device whose reads may fail. */
module FatIo {
  import opened Arithmetic
  import opened Bytes
  import opened JournalCodec
  import opened Fat
  import opened JournalIo

  const U32_RANGE: nat := 0x1_0000_0000

  // ---------- Mounting ----------

  /** Where a copy of the table begins. */
  function TableStart(b: Boot, start: nat, copy: nat): (lba: nat)
    ensures lba >= start + b.reserved
  {
    start + b.reserved + copy * b.sectorsPerFat
  }

  /** The sector looked at for a copy of the table: its number is cut to 32 bits. */
  function ProbeLba(b: Boot, start: nat, copy: nat): nat {
    TableStart(b, start, copy) % U32_RANGE
  }

  predicate HeaderOf(s: Sector, media: nat) {
    s[0] == media && s[1] == 0xFF && s[2] == 0xFF
  }

  predicate ProbeOk(m: seq<Sector>, b: Boot, start: nat, copy: nat) {
    var lba := ProbeLba(b, start, copy);
    lba < |m| && HeaderOf(m[lba], b.media)
  }

  predicate Signed(s: Sector) {
    s[510] == 0x55 && s[511] == 0xAA
  }

  ghost function MountSpec(m: seq<Sector>, start: u64): (r: Option<Volume>)
    ensures r.Some? ==> start < |m| && BootOk(BootOf(m[start])) && r.value == VolumeOf(BootOf(m[start]), start)
  {
    if start >= |m| || !Signed(m[start]) then None
    else
      var b := BootOf(m[start]);
      if BootOk(b) && start + b.total - 1 <= U64_MAX && forall copy: nat :: copy < b.fats ==> ProbeOk(m, b, start, copy)
      then Some(VolumeOf(b, start)) else None
  }

  /** A copy of the table begins with the media mark. */
  predicate Marked(m: seq<Sector>, b: Boot, start: nat, copy: nat) {
    var lba := TableStart(b, start, copy);
    lba < |m| && HeaderOf(m[lba], b.media)
  }

  /** A disk with this boot sector, the media mark everywhere else, and one blank sector at its end. */
  ghost function MarkedExcept(s: Sector, start: nat, blank: nat): (m: seq<Sector>)
    requires start < blank
    ensures |m| == blank + 1 && m[start] == s && m[blank] == Zeros(SECTOR_SIZE)
    ensures forall i :: 0 <= i < blank && i != start ==> HeaderOf(m[i], s[21])
  {
    var mark: Sector := [s[21], 0xFF, 0xFF] + Zeros(SECTOR_SIZE - 3);
    seq(blank + 1, i => if i == start then s else if i == blank then Zeros(SECTOR_SIZE) else mark)
  }

  /** The copies begin behind the boot sector and not far from it. */
  lemma TableIsNear(s: Sector, start: nat, copy: nat)
    requires BootOk(BootOf(s)) && copy < BootOf(s).fats
    ensures start < TableStart(BootOf(s), start, copy) < start + U32_RANGE && BootOf(s).media == s[21] > 0
  {
    var b := BootOf(s);
    Scaled(copy, 255, b.sectorsPerFat);
  }

  lemma CutIsElsewhere(lba: nat, start: nat)
    requires start < lba < start + U32_RANGE
    ensures lba % U32_RANGE != start
  {
  }

  lemma MarkedExceptMounts(s: Sector, start: u64, copy: nat)
    requires Signed(s) && BootOk(BootOf(s)) && start + BootOf(s).total - 1 <= U64_MAX && copy < BootOf(s).fats
    requires TableStart(BootOf(s), start, copy) >= U32_RANGE
    ensures start < TableStart(BootOf(s), start, copy)
    ensures var m := MarkedExcept(s, start, TableStart(BootOf(s), start, copy));
            MountSpec(m, start).Some? && !Marked(m, BootOf(s), start, copy)
  {
    hide BootOk, BootOf, VolumeOf, TableStart, MarkedExcept;
    TableIsNear(s, start, copy);
    var b := BootOf(s);
    var m := MarkedExcept(s, start, TableStart(b, start, copy));
    forall i: nat | i < b.fats ensures ProbeOk(m, b, start, i) {
      TableIsNear(s, start, i);
      CutIsElsewhere(TableStart(b, start, i), start);
    }
  }

  /**
   * What a mount promises of the table copies: with this boot sector every disk that mounts has the media mark at
   * the start of a copy exactly when the copy begins below sector 2^32. Otherwise some disk mounts without it.
   */
  lemma MountShowsTable(s: Sector, start: u64, copy: nat)
    requires Signed(s) && BootOk(BootOf(s)) && start + BootOf(s).total - 1 <= U64_MAX && copy < BootOf(s).fats
    ensures (forall m: seq<Sector> :: start < |m| && m[start] == s && MountSpec(m, start).Some? ==> Marked(m, BootOf(s), start, copy))
            <==> TableStart(BootOf(s), start, copy) < U32_RANGE
  {
    hide BootOk, BootOf, VolumeOf, MarkedExcept, HeaderOf, TableStart;
    var b := BootOf(s);
    if TableStart(b, start, copy) < U32_RANGE {
      forall m: seq<Sector> | start < |m| && m[start] == s && MountSpec(m, start).Some? ensures Marked(m, b, start, copy) {
        assert ProbeOk(m, b, start, copy);
      }
    } else {
      MarkedExceptMounts(s, start, copy);
      var m := MarkedExcept(s, start, TableStart(b, start, copy));
      assert start < |m| && m[start] == s && MountSpec(m, start).Some? && !Marked(m, b, start, copy);
    }
  }

  method ProbeTables(disk: Disk, b: Boot, start: u64) returns (ok: bool)
    modifies disk`failures
    ensures disk.failures >= old(disk.failures)
    ensures ok <==> disk.failures == old(disk.failures) && forall copy: nat :: copy < b.fats ==> ProbeOk(disk.sectors, b, start, copy)
  {
    for copy := 0 to b.fats
      invariant disk.failures == old(disk.failures) && forall i: nat :: i < copy ==> ProbeOk(disk.sectors, b, start, i)
    {
      var readable, s := disk.Read(ProbeLba(b, start, copy));
      if !readable || !HeaderOf(s, b.media) {
        assert readable || disk.failures == old(disk.failures) ==> !ProbeOk(disk.sectors, b, start, copy);
        return false;
      }
    }
    return true;
  }

  /** A volume that mounts has its regions in order and inside it; it mounts exactly when the checks hold and no read fails. */
  method Mount(disk: Disk, start: u64) returns (r: Option<Volume>)
    modifies disk`failures
    ensures disk.failures >= old(disk.failures)
    ensures r == if disk.failures == old(disk.failures) then MountSpec(disk.sectors, start) else None
    ensures r.Some? ==> Regions(r.value)
  {
    hide BootOf, BootOk, VolumeOf;
    var readable, s := disk.Read(start);
    if !readable || !Signed(s) {
      return None;
    }
    var b := BootOf(s);
    if !BootOk(b) || start + b.total - 1 > U64_MAX {
      return None;
    }
    var ok := ProbeTables(disk, b, start);
    if !ok {
      return None;
    }
    MountedRegions(b, start);
    r := Some(VolumeOf(b, start));
  }

  // ---------- Reading ----------

  method ReadSector(disk: Disk, v: Volume, lba: int) returns (r: Option<Sector>)
    modifies disk`failures
    ensures disk.failures >= old(disk.failures)
    ensures r == if disk.failures == old(disk.failures) then VolumeSector(disk.sectors, v, lba) else None
  {
    if lba < v.start || lba - v.start >= v.total {
      return None;
    }
    var ok, s := disk.Read(lba);
    return if ok then Some(s) else None;
  }

  /** The link of a cluster, read from every copy of the table. */
  method ReadFatEntry(disk: Disk, v: Volume, cluster: nat) returns (r: Option<nat>)
    requires v.fatCount > 0
    modifies disk`failures
    ensures disk.failures >= old(disk.failures)
    ensures r == if disk.failures == old(disk.failures) then Link(disk.sectors, v, cluster) else None
  {
    hide VolumeSector, EntrySector;
    if !InRange(v, cluster) {
      return None;
    }
    ghost var m := disk.sectors;
    var offset := cluster * 2 % SECTOR_SIZE;
    var primary := ReadSector(disk, v, EntrySector(v, cluster, 0));
    if primary.None? {
      assert disk.failures == old(disk.failures) ==> EntryIn(m, v, cluster, 0).None?;
      return None;
    }
    for copy := 1 to v.fatCount
      invariant disk.failures == old(disk.failures)
      invariant forall i: nat :: i < copy ==> EntryIn(m, v, cluster, i) == Some(ReadU16(primary.value, offset))
    {
      var mirror := ReadSector(disk, v, EntrySector(v, cluster, copy));
      if mirror.None? || mirror.value[offset] != primary.value[offset] || mirror.value[offset + 1] != primary.value[offset + 1] {
        assert disk.failures == old(disk.failures) ==> EntryIn(m, v, cluster, copy) != Some(ReadU16(primary.value, offset));
        return None;
      }
    }
    assert CopiesAgree(m, v, cluster);
    var next: nat := ReadU16(primary.value, offset);
    return if next == BAD_CLUSTER || next >= END_OF_CHAIN then None else Some(next);
  }

  // ---------- Files ----------

  /** What a directory says of a file: its attributes, first cluster and size. */
  datatype DirectoryEntry = DirectoryEntry(attributes: byte, cluster: u16, size: u32)

  /** Plain files that fit the caller's buffer and the volume; any of the five low attribute bits rules a file out. */
  predicate Admitted(v: Volume, e: DirectoryEntry, capacity: nat) {
    e.attributes % 32 == 0 && e.size <= capacity && SectorsFor(e.size) <= v.clusterCount * v.sectorsPerCluster
  }

  ghost function ReadSpec(m: seq<Sector>, v: Volume, e: DirectoryEntry, capacity: nat): (r: Option<seq<byte>>)
    requires v.sectorsPerCluster > 0
    ensures r.Some? ==> |r.value| == e.size <= capacity
  {
    if Admitted(v, e, capacity) then FileBytes(m, v, e.cluster, e.size) else None
  }

  method CopySector(s: Sector, buffer: array<byte>, at: nat, amount: nat)
    requires amount <= SECTOR_SIZE && at + amount <= buffer.Length
    modifies buffer
    ensures buffer[at..at + amount] == s[..amount]
    ensures forall k :: 0 <= k < buffer.Length && !(at <= k < at + amount) ==> buffer[k] == old(buffer[k])
  {
    for i := 0 to amount
      invariant forall k :: 0 <= k < i ==> buffer[at + k] == s[k]
      invariant forall k :: 0 <= k < buffer.Length && !(at <= k < at + amount) ==> buffer[k] == old(buffer[k])
    {
      buffer[at + i] := s[i];
    }
  }

  /** The first sectors of a list have been read, and these are the bytes taken from them. */
  ghost predicate Copied(m: seq<Sector>, v: Volume, lbas: seq<int>, index: nat, bytes: seq<byte>) {
    index <= |lbas| && |bytes| <= index * SECTOR_SIZE && Readable(m, v, lbas[..index]) && bytes == Flatten(m, v, lbas[..index])[..|bytes|]
  }

  lemma NothingCopied(m: seq<Sector>, v: Volume, lbas: seq<int>, bytes: seq<byte>)
    requires bytes == []
    ensures Copied(m, v, lbas, 0, bytes)
  {
  }

  /** One more sector adds its first bytes to what has been copied. */
  lemma NextSector(m: seq<Sector>, v: Volume, lbas: seq<int>, index: nat, bytes: seq<byte>, s: Sector, amount: nat)
    requires Copied(m, v, lbas, index, bytes) && |bytes| == index * SECTOR_SIZE && index < |lbas|
    requires VolumeSector(m, v, lbas[index]) == Some(s) && amount <= SECTOR_SIZE
    ensures Copied(m, v, lbas, index + 1, bytes + s[..amount])
  {
    assert lbas[..index + 1][..index] == lbas[..index];
    var before := Flatten(m, v, lbas[..index]);
    assert before[..|bytes|] == before;
    CutAppend(before, s, amount);
  }

  lemma RoundedSectors(take: nat, index: nat)
    ensures index * SECTOR_SIZE < take <==> index < SectorsFor(take)
  {
    RoundedUp(index, take, SECTOR_SIZE);
  }

  lemma CopiedPart(m: seq<Sector>, v: Volume, cluster: nat, take: nat, index: nat, bytes: seq<byte>)
    requires take <= ClusterBytes(v) && Copied(m, v, Sectors(v, cluster), index, bytes) && |bytes| == take && index == SectorsFor(take)
    ensures Part(m, v, cluster, take) == Some(bytes)
  {
  }

  lemma UnreadablePart(m: seq<Sector>, v: Volume, cluster: nat, take: nat, index: nat)
    requires take <= ClusterBytes(v) && index < SectorsFor(take) && VolumeSector(m, v, ClusterStart(v, cluster) + index).None?
    ensures Part(m, v, cluster, take).None?
  {
    SectorsCover(v, take);
    assert Sectors(v, cluster)[..SectorsFor(take)][index] == ClusterStart(v, cluster) + index;
  }

  /** Copies the bytes of one cluster, sector by sector, until none are wanted. */
  method ReadCluster(disk: Disk, v: Volume, cluster: nat, buffer: array<byte>, output: nat, take: nat)
    returns (ok: bool)
    requires take <= ClusterBytes(v) && output + take <= buffer.Length
    modifies buffer, disk`failures
    ensures disk.failures >= old(disk.failures)
    ensures ok <==> disk.failures == old(disk.failures) && Part(disk.sectors, v, cluster, take).Some?
    ensures ok ==> buffer[output..output + take] == Part(disk.sectors, v, cluster, take).value
    ensures forall k :: 0 <= k < buffer.Length && !(output <= k < output + take) ==> buffer[k] == old(buffer[k])
  {
    hide Copied, Part, VolumeSector, Flatten, Readable, SectorsFor;
    ghost var m := disk.sectors;
    ghost var lbas := Sectors(v, cluster);
    var done: nat, index: nat := 0, 0;
    SectorsCover(v, take);
    NothingCopied(m, v, lbas, buffer[output..output]);
    while index < v.sectorsPerCluster && done < take
      invariant disk.failures == old(disk.failures)
      invariant index <= v.sectorsPerCluster && done == Min(take, index * SECTOR_SIZE) && index <= SectorsFor(take)
      invariant Copied(m, v, lbas, index, buffer[output..output + done])
      invariant forall k :: 0 <= k < buffer.Length && !(output <= k < output + take) ==> buffer[k] == old(buffer[k])
    {
      var s := ReadSector(disk, v, ClusterStart(v, cluster) + index);
      RoundedSectors(take, index);
      if s.None? {
        if disk.failures == old(disk.failures) {
          UnreadablePart(m, v, cluster, take, index);
        }
        return false;
      }
      var amount := Min(take - done, SECTOR_SIZE);
      NextSector(m, v, lbas, index, buffer[output..output + done], s.value, amount);
      AppendSector(s.value, buffer, output, done, amount);
      done := done + amount;
      index := index + 1;
    }
    RoundedSectors(take, index);
    CopiedPart(m, v, cluster, take, index, buffer[output..output + done]);
    return true;
  }

  method AppendSector(s: Sector, buffer: array<byte>, output: nat, done: nat, amount: nat)
    requires amount <= SECTOR_SIZE && output + done + amount <= buffer.Length
    modifies buffer
    ensures buffer[output..output + done + amount] == old(buffer[output..output + done]) + s[..amount]
    ensures forall k :: 0 <= k < buffer.Length && !(output + done <= k < output + done + amount) ==> buffer[k] == old(buffer[k])
  {
    CopySector(s, buffer, output + done, amount);
    assert buffer[output..output + done + amount] == buffer[output..output + done] + buffer[output + done..output + done + amount];
  }

  /** The bytes read so far, followed by what reading on from the cluster gives, are the file. */
  ghost predicate Progress(m: seq<Sector>, v: Volume, e: DirectoryEntry, done: seq<byte>, cluster: nat, remaining: nat)
    requires v.sectorsPerCluster > 0 && e.size > 0
  {
    FileFrom(m, v, e.cluster, e.size) == if remaining == 0 then Some(done) else Joined(done, FileFrom(m, v, cluster, remaining))
  }

  lemma ProgressStarts(m: seq<Sector>, v: Volume, e: DirectoryEntry, done: seq<byte>)
    requires v.sectorsPerCluster > 0 && e.size > 0 && done == []
    ensures Progress(m, v, e, done, e.cluster, e.size)
  {
    hide FileFrom;
    var r := FileFrom(m, v, e.cluster, e.size);
    assert r.Some? ==> [] + r.value == r.value;
  }

  lemma ProgressStep(m: seq<Sector>, v: Volume, e: DirectoryEntry, done: seq<byte>, cluster: nat, remaining: nat, part: Option<seq<byte>>)
    requires v.sectorsPerCluster > 0 && e.size > 0 && remaining > 0 && Progress(m, v, e, done, cluster, remaining)
    requires part == Part(m, v, cluster, Min(remaining, ClusterBytes(v)))
    ensures !InRange(v, cluster) || part.None? ==> FileFrom(m, v, e.cluster, e.size).None?
    ensures var take := Min(remaining, ClusterBytes(v));
            InRange(v, cluster) && part.Some? ==>
              && (take == remaining ==> Progress(m, v, e, done + part.value, cluster, 0))
              && (take < remaining ==>
                  match Link(m, v, cluster)
                  case None => FileFrom(m, v, e.cluster, e.size).None?
                  case Some(next) => Progress(m, v, e, done + part.value, next, remaining - take))
  {
    hide Link, Part;
    var take := Min(remaining, ClusterBytes(v));
    if InRange(v, cluster) && part.Some? && take < remaining && Link(m, v, cluster).Some? {
      var rest := FileFrom(m, v, Link(m, v, cluster).value, remaining - take);
      assert rest.Some? ==> done + (part.value + rest.value) == (done + part.value) + rest.value;
    }
  }

  /** The bound on clusters is never what stops a read: a larger file has been refused already. */
  lemma GuardNeverStops(v: Volume, size: nat, guard: nat)
    requires SectorsFor(size) <= v.clusterCount * v.sectorsPerCluster && guard * ClusterBytes(v) < size
    ensures guard < v.clusterCount
  {
    assert guard * ClusterBytes(v) == guard * v.sectorsPerCluster * SECTOR_SIZE;
    if guard >= v.clusterCount {
      Scaled(v.clusterCount, guard, v.sectorsPerCluster);
    }
  }

  /** A successful read fills the buffer with the file's bytes and touches nothing behind them. */
  method ReadFile(disk: Disk, v: Volume, e: DirectoryEntry, buffer: array<byte>, capacity: nat)
    returns (ok: bool, size: nat)
    requires capacity <= buffer.Length && v.fatCount > 0 && v.sectorsPerCluster > 0
    modifies buffer, disk`failures
    ensures disk.failures >= old(disk.failures)
    ensures ok <==> disk.failures == old(disk.failures) && ReadSpec(disk.sectors, v, e, capacity).Some?
    ensures ok ==> size == e.size && buffer[..size] == ReadSpec(disk.sectors, v, e, capacity).value
    ensures forall k :: e.size <= k < buffer.Length ==> buffer[k] == old(buffer[k])
  {
    hide FileBytes, FileFrom, Link, Part;
    size := 0;
    var most := v.clusterCount * v.sectorsPerCluster;
    if e.attributes % 32 != 0 || e.size > capacity || e.size / SECTOR_SIZE > most || (e.size % SECTOR_SIZE != 0 && e.size / SECTOR_SIZE >= most) {
      return false, size;
    }
    if e.size == 0 {
      EmptyFile(disk.sectors, v, e.cluster);
      return e.cluster == 0, size;
    }
    FileFromIsChain(disk.sectors, v, e.cluster, e.size);
    ok := FollowChain(disk, v, e, buffer);
    size := if ok then e.size else 0;
  }

  lemma EmptyFile(m: seq<Sector>, v: Volume, first: nat)
    requires v.sectorsPerCluster > 0
    ensures FileBytes(m, v, first, 0) == if first == 0 then Some([]) else None
  {
  }

  method FollowChain(disk: Disk, v: Volume, e: DirectoryEntry, buffer: array<byte>) returns (ok: bool)
    requires 0 < e.size <= buffer.Length && v.fatCount > 0 && v.sectorsPerCluster > 0
    requires SectorsFor(e.size) <= v.clusterCount * v.sectorsPerCluster
    modifies buffer, disk`failures
    ensures disk.failures >= old(disk.failures)
    ensures ok <==> disk.failures == old(disk.failures) && FileFrom(disk.sectors, v, e.cluster, e.size).Some?
    ensures ok ==> buffer[..e.size] == FileFrom(disk.sectors, v, e.cluster, e.size).value
    ensures forall k :: e.size <= k < buffer.Length ==> buffer[k] == old(buffer[k])
  {
    hide FileFrom, Link, Part, Progress, SectorsFor, ClusterBytes;
    ghost var m := disk.sectors;
    var remaining: nat, cluster: nat, output: nat, guard: nat := e.size, e.cluster, 0, 0;
    ProgressStarts(m, v, e, buffer[..0]);
    while remaining != 0
      invariant disk.failures == old(disk.failures) && output + remaining == e.size && Progress(m, v, e, buffer[..output], cluster, remaining)
      invariant remaining > 0 ==> output == guard * ClusterBytes(v)
      invariant forall k :: e.size <= k < buffer.Length ==> buffer[k] == old(buffer[k])
    {
      ClusterNotEmpty(v);
      GuardNeverStops(v, e.size, guard);
      var take := Min(remaining, ClusterBytes(v));
      ProgressStep(m, v, e, buffer[..output], cluster, remaining, Part(m, v, cluster, take));
      if !InRange(v, cluster) || guard >= v.clusterCount {
        return false;
      }
      ghost var before := buffer[..output];
      ok := ReadCluster(disk, v, cluster, buffer, output, take);
      if !ok {
        return;
      }
      assert buffer[..output] == before;
      assert buffer[..output + take] == buffer[..output] + buffer[output..output + take];
      assert (guard + 1) * ClusterBytes(v) == guard * ClusterBytes(v) + ClusterBytes(v);
      guard, output, remaining := guard + 1, output + take, remaining - take;
      if remaining != 0 {
        var next := ReadFatEntry(disk, v, cluster);
        if next.None? {
          return false;
        }
        cluster := next.value;
      }
    }
    ProgressEnds(m, v, e, buffer[..output], cluster);
    return true;
  }

  lemma ProgressEnds(m: seq<Sector>, v: Volume, e: DirectoryEntry, done: seq<byte>, cluster: nat)
    requires v.sectorsPerCluster > 0 && e.size > 0 && Progress(m, v, e, done, cluster, 0)
    ensures FileFrom(m, v, e.cluster, e.size) == Some(done)
  {
  }

  lemma ClusterNotEmpty(v: Volume)
    requires v.sectorsPerCluster > 0
    ensures ClusterBytes(v) > 0
  {
  }

  /** Nothing rejects a cycle: a file whose first cluster is linked to itself is read as that cluster over and over. */
  lemma CycleIsRead(m: seq<Sector>, v: Volume, e: DirectoryEntry, capacity: nat)
    requires v.sectorsPerCluster > 0 && e.size > 0 && Admitted(v, e, capacity)
    requires Link(m, v, e.cluster) == Some(e.cluster as nat) && Part(m, v, e.cluster, ClusterBytes(v)).Some?
    ensures ReadSpec(m, v, e, capacity) == Some(Repeated(Part(m, v, e.cluster, ClusterBytes(v)).value, e.size))
  {
    hide FileFrom, Part, FileBytes;
    LinkedIsInRange(m, v, e.cluster);
    CycleFrom(m, v, e.cluster, e.size);
    FileFromIsChain(m, v, e.cluster, e.size);
  }

  lemma LinkedIsInRange(m: seq<Sector>, v: Volume, c: nat)
    requires Link(m, v, c).Some?
    ensures InRange(v, c)
  {
  }
}
