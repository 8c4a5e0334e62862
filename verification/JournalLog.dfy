/**
 * The write-ahead log on disk: its recoverable shapes, the scan that recognises them and the two-phase append.
 * A sector write is atomic, may or may not land, and what it reports is unrelated to whether it landed.
 * A read may fail, but a read that succeeds returns the sector.
 */
module JournalLog {
  import opened Bytes
  import opened JournalCodec

  /** What one data sector means to the log. */
  datatype Kind = Blank | Record(entry: Entry) | Torn(entry: Entry) | Junk

  function Classify(s: Sector): Kind {
    if AllZero(s) then Blank
    else if DecodeSector(s, true).Some? then Record(DecodeSector(s, true).value)
    else if DecodeSector(s, false).Some? then Torn(DecodeSector(s, false).value)
    else Junk
  }

  /** Each kind is exactly one byte pattern. */
  lemma ClassifyIff(s: Sector, e: Entry)
    ensures Classify(s) == Blank <==> s == Zeros(SECTOR_SIZE)
    ensures Classify(s) == Record(e) <==> ValidEntry(e) && s == EncodeSector(e, true)
    ensures Classify(s) == Torn(e) <==> ValidEntry(e) && s == EncodeSector(e, false)
  {
    DecodeIffEncoded(s, true, e);
    DecodeIffEncoded(s, false, e);
    AllZeroIsZeros(s);
    if AllZero(s) {
      assert ReadU32(s, 0) == 0;
    }
  }

  lemma ClassifyEncoded(e: Entry)
    requires ValidEntry(e)
    ensures Classify(EncodeSector(e, true)) == Record(e) && Classify(EncodeSector(e, false)) == Torn(e)
  {
    ClassifyIff(EncodeSector(e, true), e);
    ClassifyIff(EncodeSector(e, false), e);
  }

  function Kinds(sectors: seq<Sector>): (r: seq<Kind>)
    ensures |r| == |sectors|
    ensures forall i :: 0 <= i < |r| ==> r[i] == Classify(sectors[i])
  {
    if sectors == [] then [] else [Classify(sectors[0])] + Kinds(sectors[1..])
  }

  // ---------- The recoverable shapes ----------

  predicate Newer(sequence: u32, previous: u32) {
    sequence != 0 && sequence > previous
  }

  predicate AllBlank(kinds: seq<Kind>) {
    forall i :: 0 <= i < |kinds| ==> kinds[i] == Blank
  }

  /** The sequence number that entry i has to exceed. */
  function Before(previous: u32, entries: seq<Entry>, i: nat): u32
    requires i <= |entries|
  {
    if i == 0 then previous else entries[i - 1].sequence
  }

  function LastSequence(previous: u32, entries: seq<Entry>): u32 {
    Before(previous, entries, |entries|)
  }

  /** Strictly increasing sequence numbers, all above `previous`. */
  predicate Increasing(previous: u32, entries: seq<Entry>) {
    forall i :: 0 <= i < |entries| ==> Newer(entries[i].sequence, Before(previous, entries, i))
  }

  /** What may follow k committed records: at most one torn append, then nothing. */
  predicate TornTail(kinds: seq<Kind>, k: nat, last: u32) {
    && (forall i :: k < i < |kinds| ==> kinds[i] == Blank)
    && (k < |kinds| ==> kinds[k].Blank? || (kinds[k].Torn? && Newer(kinds[k].entry.sequence, last)))
  }

  /** The shape of a recoverable log region whose committed records are `entries`. */
  predicate LogShape(kinds: seq<Kind>, previous: u32, entries: seq<Entry>) {
    && |entries| <= |kinds|
    && (forall i :: 0 <= i < |entries| ==> kinds[i] == Record(entries[i]))
    && Increasing(previous, entries)
    && TornTail(kinds, |entries|, LastSequence(previous, entries))
  }

  /** One forward pass over the region, as the kernel scans it. */
  function Scan(kinds: seq<Kind>, previous: u32): Option<seq<Entry>> {
    if kinds == [] then Some([])
    else if kinds[0].Blank? then if AllBlank(kinds) then Some([]) else None
    else if kinds[0].Record? && Newer(kinds[0].entry.sequence, previous) then
      match Scan(kinds[1..], kinds[0].entry.sequence)
      case Some(rest) => Some([kinds[0].entry] + rest)
      case None => None
    else if kinds[0].Torn? && Newer(kinds[0].entry.sequence, previous) && AllBlank(kinds[1..]) then Some([])
    else None
  }

  lemma IncreasingCons(previous: u32, e: Entry, rest: seq<Entry>)
    ensures Increasing(previous, [e] + rest) <==> Newer(e.sequence, previous) && Increasing(e.sequence, rest)
    ensures LastSequence(previous, [e] + rest) == LastSequence(e.sequence, rest)
  {
    var all := [e] + rest;
    assert Before(previous, all, 0) == previous && all[0] == e;
    assert forall i :: 0 <= i < |rest| ==> Before(previous, all, i + 1) == Before(e.sequence, rest, i);
    if Increasing(previous, all) {
      forall i | 0 <= i < |rest| ensures Newer(rest[i].sequence, Before(e.sequence, rest, i)) {
        assert Newer(all[i + 1].sequence, Before(previous, all, i + 1));
      }
    }
    if Newer(e.sequence, previous) && Increasing(e.sequence, rest) {
      forall i | 0 <= i < |all| ensures Newer(all[i].sequence, Before(previous, all, i)) {
        assert i > 0 ==> Newer(rest[i - 1].sequence, Before(e.sequence, rest, i - 1));
      }
    }
  }

  lemma ShapeCons(kinds: seq<Kind>, previous: u32, e: Entry, rest: seq<Entry>)
    requires kinds != []
    ensures LogShape(kinds, previous, [e] + rest) <==>
            kinds[0] == Record(e) && Newer(e.sequence, previous) && LogShape(kinds[1..], e.sequence, rest)
  {
    IncreasingCons(previous, e, rest);
    var all := [e] + rest;
    if |all| <= |kinds| {
      var last := LastSequence(previous, all);
      assert TornTail(kinds, |all|, last) <==> TornTail(kinds[1..], |rest|, last) by {
        if TornTail(kinds[1..], |rest|, last) {
          forall i | |all| < i < |kinds| ensures kinds[i] == Blank {
            assert kinds[1..][i - 1] == Blank;
          }
        }
      }
      assert (forall i :: 0 <= i < |all| ==> kinds[i] == Record(all[i])) <==>
             kinds[0] == Record(e) && (forall i :: 0 <= i < |rest| ==> kinds[1..][i] == Record(rest[i])) by {
        if forall i :: 0 <= i < |all| ==> kinds[i] == Record(all[i]) {
          forall i | 0 <= i < |rest| ensures kinds[1..][i] == Record(rest[i]) {
            assert kinds[i + 1] == Record(all[i + 1]);
          }
        }
        if kinds[0] == Record(e) && forall i :: 0 <= i < |rest| ==> kinds[1..][i] == Record(rest[i]) {
          forall i | 0 <= i < |all| ensures kinds[i] == Record(all[i]) {
            assert i > 0 ==> kinds[1..][i - 1] == Record(rest[i - 1]);
          }
        }
      }
    }
  }

  /** The forward pass accepts exactly the recoverable regions and returns exactly their committed records. */
  lemma {:induction false} ScanIffShape(kinds: seq<Kind>, previous: u32, entries: seq<Entry>)
    ensures Scan(kinds, previous) == Some(entries) <==> LogShape(kinds, previous, entries)
    decreases |kinds|
  {
    if kinds != [] {
      if entries == [] {
        assert AllBlank(kinds[1..]) <==> forall i :: 0 < i < |kinds| ==> kinds[i] == Blank by {
          if AllBlank(kinds[1..]) {
            forall i | 0 < i < |kinds| ensures kinds[i] == Blank {
              assert kinds[1..][i - 1] == Blank;
            }
          }
        }
      } else {
        var e, rest := entries[0], entries[1..];
        assert entries == [e] + rest;
        ShapeCons(kinds, previous, e, rest);
        ScanIffShape(kinds[1..], e.sequence, rest);
      }
    }
  }

  // ---------- Append ----------

  /** The sector after the committed records never passes for a record. */
  lemma TargetIsNotRecord(kinds: seq<Kind>, previous: u32, entries: seq<Entry>)
    requires LogShape(kinds, previous, entries) && |entries| < |kinds|
    ensures !kinds[|entries|].Record?
  {
  }

  lemma IncreasingSnoc(previous: u32, entries: seq<Entry>, e: Entry)
    requires Increasing(previous, entries) && Newer(e.sequence, LastSequence(previous, entries))
    ensures Increasing(previous, entries + [e])
  {
    var all := entries + [e];
    forall i | 0 <= i < |all| ensures Newer(all[i].sequence, Before(previous, all, i)) {
      assert Before(previous, all, i) == Before(previous, entries, i);
      assert i < |entries| ==> Newer(entries[i].sequence, Before(previous, entries, i));
    }
  }

  /** Each of the two writes of an append keeps the log recoverable; only the second extends it. */
  lemma ShapeAppend(kinds: seq<Kind>, previous: u32, entries: seq<Entry>, e: Entry)
    requires LogShape(kinds, previous, entries) && |entries| < |kinds|
    requires Newer(e.sequence, LastSequence(previous, entries))
    ensures LogShape(kinds[|entries| := Torn(e)], previous, entries)
    ensures LogShape(kinds[|entries| := Record(e)], previous, entries + [e])
  {
    IncreasingSnoc(previous, entries, e);
    assert LastSequence(previous, entries + [e]) == e.sequence;
  }

  /** The data sectors a valid superblock at `start` announces. */
  function DataSectors(disk: seq<Sector>, start: nat, sectorCount: nat): (r: Option<nat>)
    ensures r.Some? ==> start + 1 + r.value <= |disk|
  {
    if !(2 <= sectorCount <= MAX_DATA_SECTORS + 1) || start > U64_MAX - (sectorCount - 1) || start >= |disk| then None
    else match DecodeSuperblock(disk[start])
         case None => None
         case Some(n) => if n + 1 > sectorCount || start + 1 + n > |disk| then None else Some(n)
  }

  function LogKinds(disk: seq<Sector>, start: nat, n: nat): seq<Kind>
    requires start + 1 + n <= |disk|
  {
    Kinds(disk[start + 1..start + 1 + n])
  }

  /** The committed records of a region, when it is recoverable. */
  function Committed(disk: seq<Sector>, start: nat, sectorCount: nat): Option<seq<Entry>> {
    match DataSectors(disk, start, sectorCount)
    case None => None
    case Some(n) => Scan(LogKinds(disk, start, n), 0)
  }

  /**
   * The device's behaviour during one append: whether every read before the first write succeeded,
   * which writes landed, which were reported as done, and whether the read-back succeeded. Power loss
   * part-way is the choice in which nothing later lands or is reported.
   */
  datatype AppendIo = AppendIo(readsOk: bool, preparedLands: bool, preparedReported: bool,
                               commitLands: bool, commitReported: bool, readBackOk: bool)

  /** Whether the append gets as far as writing. */
  predicate Admitted(disk: seq<Sector>, start: nat, sectorCount: nat, e: Entry) {
    && Committed(disk, start, sectorCount).Some?
    && |Committed(disk, start, sectorCount).value| < DataSectors(disk, start, sectorCount).value
    && Newer(e.sequence, LastSequence(0, Committed(disk, start, sectorCount).value))
    && ValidEntry(e)
  }

  /** The sector an append writes. */
  function Target(disk: seq<Sector>, start: nat, sectorCount: nat): nat
    requires Committed(disk, start, sectorCount).Some?
  {
    start + 1 + |Committed(disk, start, sectorCount).value|
  }

  function AppendSpec(disk: seq<Sector>, start: nat, sectorCount: nat, e: Entry, io: AppendIo): (seq<Sector>, bool) {
    if !io.readsOk || !Admitted(disk, start, sectorCount, e) then (disk, false)
    else
      var t := Target(disk, start, sectorCount);
      var d1 := if io.preparedLands then disk[t := EncodeSector(e, false)] else disk;
      if !io.preparedReported then (d1, false)
      else
        var d2 := if io.commitLands then d1[t := EncodeSector(e, true)] else d1;
        (d2, io.commitReported && io.readBackOk && Classify(d2[t]).Record?)
  }

  /** Whether the append's commit write reached the disk. */
  predicate CommitLanded(disk: seq<Sector>, start: nat, sectorCount: nat, e: Entry, io: AppendIo) {
    io.readsOk && Admitted(disk, start, sectorCount, e) && io.preparedReported && io.commitLands
  }

  lemma RegionAfterWrite(disk: seq<Sector>, start: nat, sectorCount: nat, k: nat, s: Sector)
    requires DataSectors(disk, start, sectorCount).Some? && k < DataSectors(disk, start, sectorCount).value
    ensures DataSectors(disk[start + 1 + k := s], start, sectorCount) == DataSectors(disk, start, sectorCount)
    ensures var n := DataSectors(disk, start, sectorCount).value;
            LogKinds(disk[start + 1 + k := s], start, n) == LogKinds(disk, start, n)[k := Classify(s)]
  {
    assert disk[start + 1 + k := s][start] == disk[start];
  }

  lemma ScanAppend(kinds: seq<Kind>, entries: seq<Entry>, e: Entry)
    requires Scan(kinds, 0) == Some(entries) && |entries| < |kinds| && Newer(e.sequence, LastSequence(0, entries))
    ensures Scan(kinds[|entries| := Torn(e)], 0) == Some(entries)
    ensures Scan(kinds[|entries| := Record(e)], 0) == Some(entries + [e])
    ensures !kinds[|entries|].Record?
  {
    ScanIffShape(kinds, 0, entries);
    ShapeAppend(kinds, 0, entries, e);
    TargetIsNotRecord(kinds, 0, entries);
    ScanIffShape(kinds[|entries| := Torn(e)], 0, entries);
    ScanIffShape(kinds[|entries| := Record(e)], 0, entries + [e]);
  }

  /** The disk after a write that landed, seen as a log. */
  lemma CommittedAfterWrite(disk: seq<Sector>, start: nat, sectorCount: nat, e: Entry, s: Sector)
    requires Admitted(disk, start, sectorCount, e) && (Classify(s) == Torn(e) || Classify(s) == Record(e))
    ensures var after := disk[Target(disk, start, sectorCount) := s];
            var entries := Committed(disk, start, sectorCount).value;
            && DataSectors(after, start, sectorCount) == DataSectors(disk, start, sectorCount)
            && Committed(after, start, sectorCount) == Some(if Classify(s).Record? then entries + [e] else entries)
    ensures !Classify(disk[Target(disk, start, sectorCount)]).Record?
  {
    hide DecodeSector, DecodeSuperblock, Classify;
    var n := DataSectors(disk, start, sectorCount).value;
    var entries := Committed(disk, start, sectorCount).value;
    var kinds := LogKinds(disk, start, n);
    ScanAppend(kinds, entries, e);
    RegionAfterWrite(disk, start, sectorCount, |entries|, s);
    assert kinds[|entries|] == Classify(disk[start + 1 + |entries|]);
  }

  /**
   * An append, whatever the device does, leaves the region recoverable, writes at most the one sector
   * after the committed records, and extends those records by exactly its own entry when its commit
   * write landed and by nothing otherwise. It succeeds exactly when the commit landed, was reported and could be
   * read back.
   */
  lemma AppendEffect(disk: seq<Sector>, start: nat, sectorCount: nat, e: Entry, io: AppendIo)
    requires Committed(disk, start, sectorCount).Some?
    ensures var (after, ok) := AppendSpec(disk, start, sectorCount, e, io);
            var entries := Committed(disk, start, sectorCount).value;
            var landed := CommitLanded(disk, start, sectorCount, e, io);
            && |after| == |disk|
            && (forall i :: 0 <= i < |disk| && i != Target(disk, start, sectorCount) ==> after[i] == disk[i])
            && DataSectors(after, start, sectorCount) == DataSectors(disk, start, sectorCount)
            && Committed(after, start, sectorCount) == Some(if landed then entries + [e] else entries)
            && (ok <==> landed && io.commitReported && io.readBackOk)
  {
    if io.readsOk && Admitted(disk, start, sectorCount, e) {
      ClassifyEncoded(e);
      CommittedAfterWrite(disk, start, sectorCount, e, EncodeSector(e, false));
      CommittedAfterWrite(disk, start, sectorCount, e, EncodeSector(e, true));
      var t := Target(disk, start, sectorCount);
      assert disk[t := EncodeSector(e, false)][t := EncodeSector(e, true)] == disk[t := EncodeSector(e, true)];
    }
  }

  /** An append whose sequence number is not newer than the last record writes nothing and fails. */
  lemma StaleAppendRefused(disk: seq<Sector>, start: nat, sectorCount: nat, e: Entry, io: AppendIo)
    requires Committed(disk, start, sectorCount).Some?
    requires e.sequence <= LastSequence(0, Committed(disk, start, sectorCount).value)
    ensures AppendSpec(disk, start, sectorCount, e, io) == (disk, false)
  {
  }
}
