/** What mounting a volume and reading a file mean, byte by byte on the disk. */
module FatMeaning {
  import opened Arithmetic
  import opened Bytes
  import opened JournalCodec
  import opened Fat
  import opened FatIo

  /** The little-endian number in two bytes of a sector. */
  function Word(s: Sector, o: nat): nat
    requires o + 1 < SECTOR_SIZE
  {
    (s[o] as int) + 0x100 * (s[o + 1] as int)
  }

  // ---------- Mounting ----------

  function TotalSectors(s: Sector): nat {
    if Word(s, 19) != 0 then Word(s, 19) else Word(s, 32) + 0x1_0000 * Word(s, 34)
  }

  /** The sectors before the first cluster: the reserved ones, the table copies and the root directory. */
  function Overhead(s: Sector): nat {
    Word(s, 14) + s[16] * Word(s, 22) + (Word(s, 17) + 15) / 16
  }

  /** A boot sector of a FAT16 volume: its marks and counts are good, and the table has an entry for every cluster. */
  predicate Fat16Boot(s: Sector) {
    && s[510] == 0x55 && s[511] == 0xAA && Word(s, 11) == 512 && s[21] >= 0xF0 && PowerOfTwo(s[13])
    && Word(s, 14) > 0 && s[16] > 0 && Word(s, 17) > 0 && Word(s, 22) > 0 && TotalSectors(s) > Overhead(s)
    && 4085 <= (TotalSectors(s) - Overhead(s)) / s[13] < 65525 && Word(s, 22) * 256 >= (TotalSectors(s) - Overhead(s)) / s[13] + 2
  }

  /** The sector probed for a copy of the table, its number cut to 32 bits, begins with the media mark. */
  predicate CopyProbed(m: seq<Sector>, start: nat, s: Sector, copy: nat) {
    var lba := (start + Word(s, 14) + copy * Word(s, 22)) % 0x1_0000_0000;
    lba < |m| && m[lba][0] == s[21] && m[lba][1] == 0xFF && m[lba][2] == 0xFF
  }

  lemma BootMeans(s: Sector)
    ensures BootOf(s) == Boot(Word(s, 11), s[13], Word(s, 14), s[16], Word(s, 17), Word(s, 22), s[21], TotalSectors(s))
    ensures var b := BootOf(s);
            && RootSectors(b) == (Word(s, 17) + 15) / 16
            && b.reserved + FatSectors(b) + RootSectors(b) == Overhead(s)
            && (Signed(s) && BootOk(b) <==> Fat16Boot(s))
  {
  }

  /** A volume mounts exactly when it begins with such a sector, ends below 2^64, and every copy passes the probe. */
  lemma MountIff(m: seq<Sector>, start: u64)
    ensures MountSpec(m, start).Some? <==>
              && start < |m| && Fat16Boot(m[start]) && start + TotalSectors(m[start]) - 1 <= U64_MAX
              && forall copy: nat :: copy < m[start][16] ==> CopyProbed(m, start, m[start], copy)
  {
    hide BootOf, BootOk, Fat16Boot, TotalSectors;
    if start < |m| {
      BootMeans(m[start]);
      forall copy: nat ensures ProbeOk(m, BootOf(m[start]), start, copy) == CopyProbed(m, start, m[start], copy) {
      }
    }
  }

  /** Where the parts of a mounted volume begin. */
  lemma VolumeMeans(m: seq<Sector>, start: u64)
    requires MountSpec(m, start).Some?
    ensures var v, s := MountSpec(m, start).value, m[start];
            && v.start == start && v.total == TotalSectors(s) && v.fatStart == start + Word(s, 14)
            && v.rootStart == v.fatStart + s[16] * Word(s, 22) && v.dataStart == start + Overhead(s)
            && v.sectorsPerFat == Word(s, 22) && v.fatCount == s[16] && v.rootEntries == Word(s, 17) && v.sectorsPerCluster == s[13]
            && v.sectorsPerCluster > 0 && v.clusterCount == (TotalSectors(s) - Overhead(s)) / s[13]
  {
    hide BootOf, Overhead, TotalSectors;
    BootMeans(m[start]);
    var b := BootOf(m[start]);
    assert b.total - b.reserved - FatSectors(b) - RootSectors(b) == TotalSectors(m[start]) - Overhead(m[start]);
  }

  // ---------- Links ----------

  /** The entry of cluster c in a copy of the table says n. */
  predicate EntrySays(m: seq<Sector>, v: Volume, c: nat, copy: nat, n: nat) {
    var lba := v.fatStart + copy * v.sectorsPerFat + c / 256;
    v.start <= lba < v.start + v.total && lba < |m| && Word(m[lba], c % 256 * 2) == n
  }

  /** A cluster is linked to n exactly when every copy of the table says so and n is neither bad nor an end mark. */
  lemma LinkIff(m: seq<Sector>, v: Volume, c: nat, n: nat)
    requires v.fatCount > 0
    ensures Link(m, v, c) == Some(n) <==>
              && 2 <= c < v.clusterCount + 2 && n < 0xFFF7
              && forall copy: nat :: copy < v.fatCount ==> EntrySays(m, v, c, copy, n)
  {
    forall copy: nat ensures EntryIn(m, v, c, copy) == Some(n) <==> EntrySays(m, v, c, copy, n) {
      assert c * 2 / SECTOR_SIZE == c / 256 && c * 2 % SECTOR_SIZE == c % 256 * 2;
    }
    if Link(m, v, c) == Some(n) {
      forall copy: nat | copy < v.fatCount ensures EntrySays(m, v, c, copy, n) {
        assert EntryIn(m, v, c, copy) == EntryIn(m, v, c, 0);
      }
    }
    if forall copy: nat :: copy < v.fatCount ==> EntrySays(m, v, c, copy, n) {
      assert EntrySays(m, v, c, 0, n);
    }
  }

  // ---------- Files ----------

  /** Clusters of the volume, each linked to the next. */
  ghost predicate IsChain(m: seq<Sector>, v: Volume, chain: seq<nat>) {
    forall i :: 0 <= i < |chain| ==> 2 <= chain[i] < v.clusterCount + 2 && (i + 1 < |chain| ==> Link(m, v, chain[i]) == Some(chain[i + 1]))
  }

  lemma {:induction false} ChainIff(m: seq<Sector>, v: Volume, first: nat, n: nat, chain: seq<nat>)
    requires n > 0
    ensures ChainOf(m, v, first, n) == Some(chain) <==> |chain| == n && chain[0] == first && IsChain(m, v, chain)
    decreases n
  {
    hide Link;
    if ChainOf(m, v, first, n) == Some(chain) {
      ChainIsLinked(m, v, first, n, 0);
    }
    if |chain| == n && chain[0] == first {
      var rest, next := chain[1..], Link(m, v, first);
      assert chain == [first] + rest;
      if n > 1 {
        ChainIff(m, v, chain[1], n - 1, rest);
        ChainStep(m, v, chain);
        if next.Some? && ChainOf(m, v, next.value, n - 1).Some? {
          ChainIsLinked(m, v, next.value, n - 1, 0);
        }
      } else {
        assert chain == [first];
        assert IsChain(m, v, chain) <==> 2 <= chain[0] < v.clusterCount + 2;
      }
    }
  }

  lemma ChainStep(m: seq<Sector>, v: Volume, chain: seq<nat>)
    requires |chain| > 1
    ensures IsChain(m, v, chain) <==> 2 <= chain[0] < v.clusterCount + 2 && Link(m, v, chain[0]) == Some(chain[1]) && IsChain(m, v, chain[1..])
  {
    hide Link;
    var rest := chain[1..];
    if 2 <= chain[0] < v.clusterCount + 2 && Link(m, v, chain[0]) == Some(chain[1]) && IsChain(m, v, rest) {
      forall i | 0 <= i < |chain|
        ensures 2 <= chain[i] < v.clusterCount + 2 && (i + 1 < |chain| ==> Link(m, v, chain[i]) == Some(chain[i + 1]))
      {
        assert i > 0 ==> chain[i] == rest[i - 1] && (i + 1 < |chain| ==> chain[i + 1] == rest[i]);
      }
    }
    if IsChain(m, v, chain) {
      forall i | 0 <= i < |rest|
        ensures 2 <= rest[i] < v.clusterCount + 2 && (i + 1 < |rest| ==> Link(m, v, rest[i]) == Some(rest[i + 1]))
      {
        assert rest[i] == chain[i + 1] && (i + 1 < |rest| ==> rest[i + 1] == chain[i + 2]);
      }
    }
  }

  /** The sector that holds byte i of a file whose clusters are these. */
  function SectorOf(v: Volume, chain: seq<nat>, i: nat): int
    requires v.sectorsPerCluster > 0 && i < |chain| * (v.sectorsPerCluster * 512)
  {
    ClusterIndex(i, v.sectorsPerCluster, |chain|);
    v.dataStart + (chain[i / 512 / v.sectorsPerCluster] - 2) * v.sectorsPerCluster + i / 512 % v.sectorsPerCluster
  }

  lemma ClusterIndex(i: nat, per: nat, n: nat)
    requires per > 0 && i < n * (per * 512)
    ensures i / 512 < n * per && i / 512 / per < n
  {
    assert n * (per * 512) == (n * per) * 512;
    var k, q := i / 512, i / 512 / per;
    if q >= n {
      Scaled(n, q, per);
    }
  }

  lemma {:induction false} LbasOf(v: Volume, chain: seq<nat>, q: nat, r: nat)
    requires q < |chain| && r < v.sectorsPerCluster
    ensures q * v.sectorsPerCluster + r < |Lbas(v, chain)| && Lbas(v, chain)[q * v.sectorsPerCluster + r] == ClusterStart(v, chain[q]) + r
    decreases |chain|
  {
    hide ClusterStart;
    var per, front := v.sectorsPerCluster, chain[..|chain| - 1];
    LbasLength(v, front);
    if q < |front| {
      LbasOf(v, front, q, r);
    }
  }

  lemma LbasAt(v: Volume, chain: seq<nat>, k: nat)
    requires v.sectorsPerCluster > 0 && k / v.sectorsPerCluster < |chain|
    ensures k < |Lbas(v, chain)| && Lbas(v, chain)[k] == ClusterStart(v, chain[k / v.sectorsPerCluster]) + k % v.sectorsPerCluster
  {
    hide Lbas, ClusterStart;
    LbasOf(v, chain, k / v.sectorsPerCluster, k % v.sectorsPerCluster);
    assert k == (k / v.sectorsPerCluster) * v.sectorsPerCluster + k % v.sectorsPerCluster;
  }

  lemma {:induction false} FlattenAt(m: seq<Sector>, v: Volume, lbas: seq<int>, i: nat)
    requires i < |lbas| * SECTOR_SIZE && Readable(m, v, lbas)
    ensures i / SECTOR_SIZE < |lbas| && VolumeSector(m, v, lbas[i / SECTOR_SIZE]).Some?
    ensures Flatten(m, v, lbas)[i] == VolumeSector(m, v, lbas[i / SECTOR_SIZE]).value[i % SECTOR_SIZE]
    decreases |lbas|
  {
    var front := lbas[..|lbas| - 1];
    if i < |front| * SECTOR_SIZE {
      FlattenAt(m, v, front, i);
    }
  }

  /** Byte i of a file is byte i modulo 512 of its sector in the cluster that the chain puts there. */
  lemma FileByteAt(m: seq<Sector>, v: Volume, chain: seq<nat>, size: nat, i: nat)
    requires v.sectorsPerCluster > 0 && i < size && |chain| == ClustersFor(v, size) && IsChain(m, v, chain)
    requires FileBytes(m, v, chain[0], size).Some?
    ensures size <= |chain| * (v.sectorsPerCluster * 512)
    ensures var lba := SectorOf(v, chain, i);
            0 <= lba < |m| && v.start <= lba < v.start + v.total && FileBytes(m, v, chain[0], size).value[i] == m[lba][i % 512]
  {
    hide IsChain, ChainOf, Lbas, Flatten;
    ClustersPositive(v, size);
    ChainIff(m, v, chain[0], |chain|, chain);
    EnoughClusters(v, size);
    var lbas := Lbas(v, chain)[..SectorsFor(size)];
    RoundedUp(i / SECTOR_SIZE, size, SECTOR_SIZE);
    FlattenAt(m, v, lbas, i);
    ClusterIndex(i, v.sectorsPerCluster, |chain|);
    LbasAt(v, chain, i / SECTOR_SIZE);
  }

  lemma EnoughClusters(v: Volume, size: nat)
    requires v.sectorsPerCluster > 0
    ensures size <= ClustersFor(v, size) * (v.sectorsPerCluster * 512)
  {
    RoundedUp(ClustersFor(v, size), size, ClusterBytes(v));
  }

  /**
   * A file can be read exactly when it is a plain file that fits, and is either empty without a cluster or has a
   * chain of as many clusters as its size needs, with every sector it takes on the disk.
   */
  lemma ReadIff(m: seq<Sector>, v: Volume, e: DirectoryEntry, capacity: nat)
    requires v.sectorsPerCluster > 0
    ensures ReadSpec(m, v, e, capacity).Some? <==>
              && e.attributes % 32 == 0 && e.size <= capacity && e.size <= v.clusterCount * v.sectorsPerCluster * 512
              && if e.size == 0 then e.cluster == 0
                 else exists chain :: FileChain(m, v, e, chain)
  {
    hide IsChain, ChainOf, Lbas, Readable, FileChain;
    FitsIff(v, e.size);
    if e.size > 0 {
      ClustersPositive(v, e.size);
      var n := ClustersFor(v, e.size);
      if FileBytes(m, v, e.cluster, e.size).Some? {
        var chain := ChainOf(m, v, e.cluster, n).value;
        ChainIff(m, v, e.cluster, n, chain);
        ChainReads(m, v, e, chain);
      }
      forall chain | FileChain(m, v, e, chain) ensures FileBytes(m, v, e.cluster, e.size).Some? {
        ChainShape(m, v, e, chain);
        ChainIff(m, v, e.cluster, n, chain);
        ChainReads(m, v, e, chain);
      }
    }
  }

  lemma FitsIff(v: Volume, size: nat)
    ensures SectorsFor(size) <= v.clusterCount * v.sectorsPerCluster <==> size <= v.clusterCount * v.sectorsPerCluster * 512
  {
    RoundedUp(v.clusterCount * v.sectorsPerCluster, size, SECTOR_SIZE);
  }

  /** The clusters of a file: linked from its first one on, enough for its size, with all the sectors it takes there. */
  ghost predicate FileChain(m: seq<Sector>, v: Volume, e: DirectoryEntry, chain: seq<nat>)
    requires v.sectorsPerCluster > 0
  {
    && |chain| == ClustersFor(v, e.size) && e.size <= |chain| * (v.sectorsPerCluster * 512)
    && chain != [] && chain[0] == e.cluster && IsChain(m, v, chain)
    && forall i :: 0 <= i < e.size ==> v.start <= SectorOf(v, chain, i) < v.start + v.total && SectorOf(v, chain, i) < |m|
  }

  lemma ChainShape(m: seq<Sector>, v: Volume, e: DirectoryEntry, chain: seq<nat>)
    requires v.sectorsPerCluster > 0 && FileChain(m, v, e, chain)
    ensures |chain| == ClustersFor(v, e.size) && chain != [] && chain[0] == e.cluster && IsChain(m, v, chain)
  {
  }

  lemma ChainReads(m: seq<Sector>, v: Volume, e: DirectoryEntry, chain: seq<nat>)
    requires v.sectorsPerCluster > 0 && e.size > 0 && |chain| == ClustersFor(v, e.size) && chain != [] && chain[0] == e.cluster && IsChain(m, v, chain)
    ensures SectorsFor(e.size) <= |Lbas(v, chain)|
    ensures FileChain(m, v, e, chain) <==> Readable(m, v, Lbas(v, chain)[..SectorsFor(e.size)])
  {
    hide IsChain, Lbas;
    EnoughClusters(v, e.size);
    LbasLength(v, chain);
    var n, per := SectorsFor(e.size), v.sectorsPerCluster;
    assert |chain| * (per * 512) == (|chain| * per) * 512;
    RoundedUp(|chain| * per, e.size, SECTOR_SIZE);
    var lbas := Lbas(v, chain)[..n];
    forall i | 0 <= i < e.size ensures i / 512 < n && SectorOf(v, chain, i) == lbas[i / 512] {
      RoundedUp(i / 512, e.size, SECTOR_SIZE);
      ClusterIndex(i, per, |chain|);
      LbasAt(v, chain, i / 512);
    }
    forall k | 0 <= k < n ensures 0 <= k * 512 < e.size && k * 512 / 512 == k {
      RoundedUp(k, e.size, SECTOR_SIZE);
    }
    if FileChain(m, v, e, chain) {
      forall k | 0 <= k < n ensures VolumeSector(m, v, lbas[k]).Some? {
        assert SectorOf(v, chain, k * 512) == lbas[k];
      }
    }
  }
}
