/** FAT16 volumes: the geometry a boot sector describes, links between clusters, and the bytes of a file. */
module Fat {
  import opened Arithmetic
  import opened Bytes
  import opened JournalCodec

  const END_OF_CHAIN: nat := 0xFFF8
  const BAD_CLUSTER: nat := 0xFFF7
  const MIN_CLUSTERS: nat := 4085
  const CLUSTER_LIMIT: nat := 65525

  datatype Volume = Volume(
    start: nat, total: nat, fatStart: nat, rootStart: nat, dataStart: nat,
    sectorsPerFat: nat, fatCount: nat, rootEntries: nat, sectorsPerCluster: nat, clusterCount: nat)

  // ---------- Geometry ----------

  /** The fields of a boot sector that describe the volume. */
  datatype Boot = Boot(
    bytesPerSector: nat, sectorsPerCluster: nat, reserved: nat, fats: nat, rootEntries: nat,
    sectorsPerFat: nat, media: nat, total: nat)

  function BootOf(s: Sector): Boot {
    var small: nat := ReadU16(s, 19);
    Boot(ReadU16(s, 11), s[13], ReadU16(s, 14), s[16], ReadU16(s, 17), ReadU16(s, 22), s[21],
         if small == 0 then ReadU32(s, 32) else small)
  }

  predicate PowerOfTwo(n: nat) {
    n in {1, 2, 4, 8, 16, 32, 64, 128}
  }

  function RootSectors(b: Boot): nat {
    (b.rootEntries * 32 + SECTOR_SIZE - 1) / SECTOR_SIZE
  }

  function FatSectors(b: Boot): nat {
    b.fats * b.sectorsPerFat
  }

  /** The fields are usable, leave room for data, and the number of clusters makes it FAT16 with a large enough FAT. */
  predicate BootOk(b: Boot) {
    && b.bytesPerSector == SECTOR_SIZE && b.media >= 0xF0 && PowerOfTwo(b.sectorsPerCluster) && b.reserved > 0
    && b.fats > 0 && b.rootEntries > 0 && b.sectorsPerFat > 0 && b.total > b.reserved + FatSectors(b) + RootSectors(b)
    && MIN_CLUSTERS <= Clusters(b) < CLUSTER_LIMIT && b.sectorsPerFat * SECTOR_SIZE / 2 >= Clusters(b) + 2
  }

  function Clusters(b: Boot): nat
    requires b.sectorsPerCluster > 0 && b.total >= b.reserved + FatSectors(b) + RootSectors(b)
  {
    (b.total - b.reserved - FatSectors(b) - RootSectors(b)) / b.sectorsPerCluster
  }

  function VolumeOf(b: Boot, start: nat): Volume
    requires BootOk(b)
  {
    var fat := start + b.reserved;
    var root := fat + FatSectors(b);
    Volume(start, b.total, fat, root, root + RootSectors(b), b.sectorsPerFat, b.fats, b.rootEntries, b.sectorsPerCluster, Clusters(b))
  }

  function EntrySector(v: Volume, cluster: nat, copy: nat): nat {
    v.fatStart + copy * v.sectorsPerFat + cluster * 2 / SECTOR_SIZE
  }

  predicate InRange(v: Volume, cluster: nat) {
    2 <= cluster < v.clusterCount + 2
  }

  function ClusterStart(v: Volume, cluster: nat): int {
    v.dataStart + (cluster - 2) * v.sectorsPerCluster
  }

  /** Reserved sectors, FAT copies, root directory and clusters follow each other and stay inside the volume. */
  ghost predicate Regions(v: Volume) {
    && v.start < v.fatStart && v.sectorsPerCluster > 0 && v.fatCount > 0
    && v.rootStart == v.fatStart + v.fatCount * v.sectorsPerFat
    && v.dataStart == v.rootStart + (v.rootEntries + 15) / 16
    && v.dataStart + v.clusterCount * v.sectorsPerCluster <= v.start + v.total
    && (forall cluster: nat, copy: nat :: InRange(v, cluster) && copy < v.fatCount ==>
          v.fatStart + copy * v.sectorsPerFat <= EntrySector(v, cluster, copy) < v.fatStart + (copy + 1) * v.sectorsPerFat)
    && (forall cluster: nat :: InRange(v, cluster) ==>
          v.dataStart <= ClusterStart(v, cluster) && ClusterStart(v, cluster) + v.sectorsPerCluster <= v.start + v.total)
  }

  lemma MountedRegions(b: Boot, start: nat)
    requires BootOk(b)
    ensures Regions(VolumeOf(b, start))
  {
    var v := VolumeOf(b, start);
    var sectors := b.total - b.reserved - FatSectors(b) - RootSectors(b);
    QuotientBound(sectors, b.sectorsPerCluster);
    forall cluster: nat, copy: nat | InRange(v, cluster) && copy < v.fatCount
      ensures v.fatStart + copy * v.sectorsPerFat <= EntrySector(v, cluster, copy) < v.fatStart + (copy + 1) * v.sectorsPerFat
    {
      assert (copy + 1) * v.sectorsPerFat == copy * v.sectorsPerFat + v.sectorsPerFat;
    }
    forall cluster: nat | InRange(v, cluster)
      ensures v.dataStart <= ClusterStart(v, cluster) && ClusterStart(v, cluster) + v.sectorsPerCluster <= v.start + v.total
    {
      NextMultiple(cluster - 2, v.clusterCount, v.sectorsPerCluster);
    }
  }

  lemma QuotientBound(n: nat, d: nat)
    requires d > 0
    ensures n / d * d <= n
  {
  }

  // ---------- Links ----------

  function VolumeSector(m: seq<Sector>, v: Volume, lba: int): Option<Sector> {
    if v.start <= lba < v.start + v.total && lba < |m| then Some(m[lba]) else None
  }

  /** The entry of a cluster in one copy of the table. */
  function EntryIn(m: seq<Sector>, v: Volume, cluster: nat, copy: nat): Option<nat> {
    match VolumeSector(m, v, EntrySector(v, cluster, copy))
    case None => None
    case Some(s) => Some(ReadU16(s, cluster * 2 % SECTOR_SIZE))
  }

  ghost predicate CopiesAgree(m: seq<Sector>, v: Volume, cluster: nat) {
    forall copy: nat :: copy < v.fatCount ==> EntryIn(m, v, cluster, copy).Some? && EntryIn(m, v, cluster, copy) == EntryIn(m, v, cluster, 0)
  }

  /** The cluster after this one, when every copy of the table gives the same and it is neither bad nor an end mark. */
  ghost function Link(m: seq<Sector>, v: Volume, cluster: nat): (r: Option<nat>) {
    if !InRange(v, cluster) || !CopiesAgree(m, v, cluster) then None
    else
      match EntryIn(m, v, cluster, 0)
      case None => None
      case Some(next) => if next == BAD_CLUSTER || next >= END_OF_CHAIN then None else Some(next)
  }

  /** n clusters from the first on, each in range and each but the last linked to the next. */
  ghost function ChainOf(m: seq<Sector>, v: Volume, first: nat, n: nat): Option<seq<nat>>
    requires n > 0
    decreases n
  {
    if !InRange(v, first) then None
    else if n == 1 then Some([first])
    else
      match Link(m, v, first)
      case None => None
      case Some(next) =>
        match ChainOf(m, v, next, n - 1)
        case None => None
        case Some(rest) => Some([first] + rest)
  }

  /** A chain is what it says: linked clusters of the volume, starting at the first. */
  lemma {:induction false} ChainIsLinked(m: seq<Sector>, v: Volume, first: nat, n: nat, i: nat)
    requires n > 0 && ChainOf(m, v, first, n).Some? && i < n
    ensures var chain := ChainOf(m, v, first, n).value;
            && |chain| == n && chain[0] == first && InRange(v, chain[i])
            && (i + 1 < n ==> CopiesAgree(m, v, chain[i]) && Link(m, v, chain[i]) == Some(chain[i + 1]))
    decreases n
  {
    if n > 1 {
      var next := Link(m, v, first).value;
      ChainIsLinked(m, v, next, n - 1, if i == 0 then 0 else i - 1);
    }
  }

  // ---------- The bytes of a file ----------

  function ClusterBytes(v: Volume): nat {
    v.sectorsPerCluster * SECTOR_SIZE
  }

  /** How many clusters a file of this size takes. */
  function ClustersFor(v: Volume, size: nat): nat
    requires v.sectorsPerCluster > 0
  {
    (size + ClusterBytes(v) - 1) / ClusterBytes(v)
  }

  function Sectors(v: Volume, cluster: nat): (lbas: seq<int>)
    ensures |lbas| == v.sectorsPerCluster
  {
    seq(v.sectorsPerCluster, s requires s >= 0 => ClusterStart(v, cluster) + s)
  }

  /** The sectors of the clusters of a chain, in order. */
  function Lbas(v: Volume, chain: seq<nat>): seq<int> {
    if chain == [] then [] else Lbas(v, chain[..|chain| - 1]) + Sectors(v, chain[|chain| - 1])
  }

  lemma {:induction false} LbasLength(v: Volume, chain: seq<nat>)
    ensures |Lbas(v, chain)| == |chain| * v.sectorsPerCluster
  {
    if chain != [] {
      LbasLength(v, chain[..|chain| - 1]);
      assert |chain| * v.sectorsPerCluster == (|chain| - 1) * v.sectorsPerCluster + v.sectorsPerCluster;
    }
  }

  ghost predicate Readable(m: seq<Sector>, v: Volume, lbas: seq<int>) {
    forall i :: 0 <= i < |lbas| ==> VolumeSector(m, v, lbas[i]).Some?
  }

  /** The contents of sectors one after the other. */
  function Flatten(m: seq<Sector>, v: Volume, lbas: seq<int>): (bytes: seq<byte>)
    ensures |bytes| == |lbas| * SECTOR_SIZE
  {
    if lbas == [] then []
    else
      var s := VolumeSector(m, v, lbas[|lbas| - 1]);
      Flatten(m, v, lbas[..|lbas| - 1]) + if s.Some? then s.value else Zeros(SECTOR_SIZE)
  }

  function SectorsFor(size: nat): nat {
    (size + SECTOR_SIZE - 1) / SECTOR_SIZE
  }

  /** The sectors a file of this size takes, if its chain is long enough. */
  ghost function FileSectors(m: seq<Sector>, v: Volume, first: nat, size: nat): Option<seq<int>>
    requires v.sectorsPerCluster > 0 && size > 0
  {
    ClustersPositive(v, size);
    match ChainOf(m, v, first, ClustersFor(v, size))
    case None => None
    case Some(chain) =>
      var lbas := Lbas(v, chain);
      if SectorsFor(size) <= |lbas| && Readable(m, v, lbas[..SectorsFor(size)]) then Some(lbas[..SectorsFor(size)]) else None
  }

  lemma ClustersPositive(v: Volume, size: nat)
    requires v.sectorsPerCluster > 0 && size > 0
    ensures ClustersFor(v, size) > 0
  {
    RoundedUp(0, size, ClusterBytes(v));
  }

  /** A file's bytes: the sectors of its chain in order, cut to its size. */
  ghost function FileBytes(m: seq<Sector>, v: Volume, first: nat, size: nat): (r: Option<seq<byte>>)
    requires v.sectorsPerCluster > 0
    ensures r.Some? ==> |r.value| == size
  {
    if size == 0 then if first == 0 then Some([]) else None
    else
      match FileSectors(m, v, first, size)
      case None => None
      case Some(lbas) =>
        RoundedUp(SectorsFor(size), size, SECTOR_SIZE);
        Some(Flatten(m, v, lbas)[..size])
  }

  // ---------- Cluster by cluster ----------

  /** The bytes one cluster contributes. */
  ghost function Part(m: seq<Sector>, v: Volume, cluster: nat, take: nat): (r: Option<seq<byte>>)
    requires take <= ClusterBytes(v)
    ensures r.Some? ==> |r.value| == take
  {
    SectorsCover(v, take);
    var lbas := Sectors(v, cluster)[..SectorsFor(take)];
    if Readable(m, v, lbas) then Some(Flatten(m, v, lbas)[..take]) else None
  }

  lemma SectorsCover(v: Volume, take: nat)
    requires take <= ClusterBytes(v)
    ensures SectorsFor(take) <= v.sectorsPerCluster && take <= SectorsFor(take) * SECTOR_SIZE
  {
  }

  /** The file read from a cluster on, following links while bytes remain. */
  ghost function FileFrom(m: seq<Sector>, v: Volume, cluster: nat, remaining: nat): (r: Option<seq<byte>>)
    requires v.sectorsPerCluster > 0 && remaining > 0
    ensures r.Some? ==> |r.value| == remaining
    decreases remaining
  {
    var take := Min(remaining, ClusterBytes(v));
    if !InRange(v, cluster) then None
    else
      match Part(m, v, cluster, take)
      case None => None
      case Some(part) =>
        if take == remaining then Some(part)
        else
          match Link(m, v, cluster)
          case None => None
          case Some(next) => Joined(part, FileFrom(m, v, next, remaining - take))
  }

  function Joined(front: seq<byte>, rest: Option<seq<byte>>): (r: Option<seq<byte>>)
    ensures r.Some? <==> rest.Some?
    ensures r.Some? ==> r.value == front + rest.value
  {
    match rest
    case None => None
    case Some(bytes) => Some(front + bytes)
  }

  lemma {:induction false} LbasCons(v: Volume, first: nat, rest: seq<nat>)
    ensures Lbas(v, [first] + rest) == Sectors(v, first) + Lbas(v, rest)
  {
    if rest == [] {
      assert [first] + rest == [first];
      assert [first][..0] == [];
      assert Lbas(v, [first]) == Lbas(v, []) + Sectors(v, first);
    } else {
      LbasCons(v, first, rest[..|rest| - 1]);
      assert ([first] + rest)[..|rest|] == [first] + rest[..|rest| - 1];
    }
  }

  lemma {:induction false} FlattenAppend(m: seq<Sector>, v: Volume, a: seq<int>, b: seq<int>)
    ensures Flatten(m, v, a + b) == Flatten(m, v, a) + Flatten(m, v, b)
  {
    if b == [] {
      assert a + b == a;
    } else {
      FlattenAppend(m, v, a, b[..|b| - 1]);
      assert (a + b)[..|a + b| - 1] == a + b[..|b| - 1];
    }
  }

  /** Reading link by link gives exactly the sectors of the chain in order, cut to the size. */
  lemma {:induction false} FileFromIsChain(m: seq<Sector>, v: Volume, first: nat, size: nat)
    requires v.sectorsPerCluster > 0 && size > 0
    ensures FileFrom(m, v, first, size) == FileBytes(m, v, first, size)
    decreases size
  {
    var whole := ClusterBytes(v);
    if InRange(v, first) {
      if size <= whole {
        OneCluster(m, v, first, size);
      } else {
        MoreClusters(v, size);
        match Link(m, v, first) {
          case None =>
          case Some(next) =>
            FileFromIsChain(m, v, next, size - whole);
            FirstCluster(m, v, first, next, size);
        }
      }
    } else {
      ClustersPositive(v, size);
    }
  }

  lemma OneCluster(m: seq<Sector>, v: Volume, first: nat, size: nat)
    requires v.sectorsPerCluster > 0 && 0 < size <= ClusterBytes(v) && InRange(v, first)
    ensures FileFrom(m, v, first, size) == FileBytes(m, v, first, size)
  {
    ClustersPositive(v, size);
    RoundedUp(1, size, ClusterBytes(v));
    assert ClustersFor(v, size) == 1;
    assert [first][..0] == [];
    assert Lbas(v, [first]) == Sectors(v, first);
    SectorsCover(v, size);
  }

  /** A file longer than a cluster takes one cluster more than its rest, and that many sectors more. */
  lemma MoreClusters(v: Volume, size: nat)
    requires v.sectorsPerCluster > 0 && size > ClusterBytes(v)
    ensures ClustersFor(v, size) == 1 + ClustersFor(v, size - ClusterBytes(v)) && ClustersFor(v, size) > 1
    ensures SectorsFor(size) == v.sectorsPerCluster + SectorsFor(size - ClusterBytes(v))
    ensures SectorsFor(ClusterBytes(v)) == v.sectorsPerCluster
  {
    var d := ClusterBytes(v);
    var q, r := (size - 1) / d, (size - 1) % d;
    QuotientIs(size - d + d - 1, d, q, r);
    assert size + d - 1 == (q + 1) * d + r;
    QuotientIs(size + d - 1, d, q + 1, r);
    ClustersPositive(v, size - d);
  }

  lemma FirstCluster(m: seq<Sector>, v: Volume, first: nat, next: nat, size: nat)
    requires v.sectorsPerCluster > 0 && size > ClusterBytes(v) && InRange(v, first) && Link(m, v, first) == Some(next)
    requires FileFrom(m, v, next, size - ClusterBytes(v)) == FileBytes(m, v, next, size - ClusterBytes(v))
    ensures FileFrom(m, v, first, size) == FileBytes(m, v, first, size)
  {
    hide Link, InRange, FileFrom;
    var whole := ClusterBytes(v);
    MoreClusters(v, size);
    FileFromUnfold(m, v, first, next, size);
    FileBytesUnfold(m, v, first, next, size);
  }

  lemma FileFromUnfold(m: seq<Sector>, v: Volume, first: nat, next: nat, size: nat)
    requires v.sectorsPerCluster > 0 && size > ClusterBytes(v) && InRange(v, first) && Link(m, v, first) == Some(next)
    ensures FileFrom(m, v, first, size) ==
            match Part(m, v, first, ClusterBytes(v))
            case None => None
            case Some(part) => Joined(part, FileFrom(m, v, next, size - ClusterBytes(v)))
  {
  }

  lemma FileBytesUnfold(m: seq<Sector>, v: Volume, first: nat, next: nat, size: nat)
    requires v.sectorsPerCluster > 0 && size > ClusterBytes(v) && InRange(v, first) && Link(m, v, first) == Some(next)
    ensures FileBytes(m, v, first, size) ==
            match Part(m, v, first, ClusterBytes(v))
            case None => None
            case Some(part) => Joined(part, FileBytes(m, v, next, size - ClusterBytes(v)))
  {
    hide InRange, VolumeSector, CopiesAgree, Flatten, Readable, SectorsFor, ClustersFor, Lbas, Sectors, EntryIn;
    var whole := ClusterBytes(v);
    var rest := size - whole;
    MoreClusters(v, size);
    WholePart(m, v, first);
    ClustersPositive(v, rest);
    match ChainOf(m, v, next, ClustersFor(v, rest)) {
      case None =>
      case Some(chain) =>
        LbasCons(v, first, chain);
        SplitSectors(m, v, Sectors(v, first), Lbas(v, chain), rest);
    }
  }

  lemma WholePart(m: seq<Sector>, v: Volume, cluster: nat)
    ensures Part(m, v, cluster, ClusterBytes(v)) ==
            if Readable(m, v, Sectors(v, cluster)) then Some(Flatten(m, v, Sectors(v, cluster))) else None
  {
    hide Readable, Flatten, Sectors;
    assert SectorsFor(ClusterBytes(v)) == v.sectorsPerCluster;
    assert Sectors(v, cluster)[..v.sectorsPerCluster] == Sectors(v, cluster);
    var bytes := Flatten(m, v, Sectors(v, cluster));
    assert bytes[..ClusterBytes(v)] == bytes;
  }

  lemma CutAppend(x: seq<byte>, y: seq<byte>, k: nat)
    requires k <= |y|
    ensures (x + y)[..|x| + k] == x + y[..k]
  {
  }

  lemma SplitSectors(m: seq<Sector>, v: Volume, a: seq<int>, b: seq<int>, rest: nat)
    ensures var n := SectorsFor(rest);
            && rest <= n * SECTOR_SIZE
            && (|a| + n <= |a + b| <==> n <= |b|)
            && (n <= |b| ==> (Readable(m, v, (a + b)[..|a| + n]) <==> Readable(m, v, a) && Readable(m, v, b[..n])))
            && (n <= |b| ==> Flatten(m, v, (a + b)[..|a| + n])[..|a| * SECTOR_SIZE + rest] == Flatten(m, v, a) + Flatten(m, v, b[..n])[..rest])
  {
    hide Flatten, Readable;
    var n := SectorsFor(rest);
    if n <= |b| {
      assert (a + b)[..|a| + n] == a + b[..n];
      FlattenAppend(m, v, a, b[..n]);
      ReadableAppend(m, v, a, b[..n]);
      CutAppend(Flatten(m, v, a), Flatten(m, v, b[..n]), rest);
    }
  }

  lemma ReadableAppend(m: seq<Sector>, v: Volume, a: seq<int>, b: seq<int>)
    ensures Readable(m, v, a + b) <==> Readable(m, v, a) && Readable(m, v, b)
  {
    hide VolumeSector;
    if Readable(m, v, a + b) {
      forall i | 0 <= i < |a| ensures VolumeSector(m, v, a[i]).Some? {
        assert (a + b)[i] == a[i];
      }
      forall i | 0 <= i < |b| ensures VolumeSector(m, v, b[i]).Some? {
        assert (a + b)[|a| + i] == b[i];
      }
    }
  }

  // ---------- Cycles ----------

  /** A cluster's bytes over and over, cut to a length. */
  ghost function Repeated(bytes: seq<byte>, n: nat): (r: seq<byte>)
    requires bytes != []
    ensures |r| == n && forall i :: 0 <= i < n ==> r[i] == bytes[i % |bytes|]
  {
    seq(n, i requires i >= 0 => bytes[i % |bytes|])
  }

  lemma RepeatedOnce(bytes: seq<byte>, n: nat)
    requires bytes != [] && n <= |bytes|
    ensures Repeated(bytes, n) == bytes[..n]
  {
    forall i: nat | i < n ensures i % |bytes| == i {
      QuotientIs(i, |bytes|, 0, i);
    }
  }

  lemma RepeatedMore(bytes: seq<byte>, n: nat)
    requires bytes != [] && n >= |bytes|
    ensures Repeated(bytes, n) == bytes + Repeated(bytes, n - |bytes|)
  {
    var r := bytes + Repeated(bytes, n - |bytes|);
    forall i: nat | i < n ensures Repeated(bytes, n)[i] == r[i] {
      if i < |bytes| {
        QuotientIs(i, |bytes|, 0, i);
      } else {
        var d, k := |bytes|, i - |bytes|;
        var q, m := k / d, k % d;
        assert i == (q + 1) * d + m;
        QuotientIs(i, d, q + 1, m);
      }
    }
  }

  /** A cluster that can be read whole can be read in part. */
  lemma PartPrefix(m: seq<Sector>, v: Volume, cluster: nat, take: nat)
    requires take <= ClusterBytes(v) && Part(m, v, cluster, ClusterBytes(v)).Some?
    ensures Part(m, v, cluster, take) == Some(Part(m, v, cluster, ClusterBytes(v)).value[..take])
  {
    hide VolumeSector, Flatten;
    WholePart(m, v, cluster);
    SectorsCover(v, take);
    var lbas := Sectors(v, cluster);
    var n := SectorsFor(take);
    assert lbas == lbas[..n] + lbas[n..];
    FlattenAppend(m, v, lbas[..n], lbas[n..]);
    ReadableAppend(m, v, lbas[..n], lbas[n..]);
    var a, b := Flatten(m, v, lbas[..n]), Flatten(m, v, lbas[n..]);
    assert (a + b)[..take] == a[..take];
  }

  lemma {:induction false} CycleFrom(m: seq<Sector>, v: Volume, c: nat, remaining: nat)
    requires v.sectorsPerCluster > 0 && remaining > 0 && InRange(v, c) && Link(m, v, c) == Some(c)
    requires Part(m, v, c, ClusterBytes(v)).Some?
    ensures FileFrom(m, v, c, remaining) == Some(Repeated(Part(m, v, c, ClusterBytes(v)).value, remaining))
    decreases remaining
  {
    hide Link, Part;
    var bytes := Part(m, v, c, ClusterBytes(v)).value;
    var take := Min(remaining, ClusterBytes(v));
    PartPrefix(m, v, c, take);
    if take == remaining {
      RepeatedOnce(bytes, take);
    } else {
      assert bytes[..take] == bytes;
      CycleFrom(m, v, c, remaining - take);
      RepeatedMore(bytes, remaining);
    }
  }
}
