/**
 fat16_init() of kernel/src/fat16.c: from the boot sector, found directly or behind a
 partition table, to the geometry and the cached FAT. The layout it has to agree with is that
 of the Microsoft FAT specification: reserved sectors, the FATs, the root directory,
 then the clusters, numbered from 2. The structures are written out field by field.
 */
module FatMount {
  import opened Common
  import opened LittleEndian
  import opened FatChains
  import opened FatNames
  import opened FatVolume

  // ---------------------------------------------------------------- fat16_init()

  function SectorAt(disk: seq<byte>, lba: nat): (s: seq<byte>)
    requires 512 * lba + 512 <= |disk|
    ensures |s| == 512
  {
    disk[512 * lba..512 * lba + 512]
  }

  /** looks_like_fat16_bpb() */
  predicate LooksLikeFat16(s: seq<byte>)
    requires |s| == 512
  {
    Word(s, 11) == 512 && s[13] != 0 && s[16] != 0 && Word(s, 22) != 0 && Word(s, 17) != 0
  }

  /** The start of the first partition in a partition table. */
  function PartitionStart(s: seq<byte>): nat
    requires |s| == 512
  {
    Word(s, 0x1BE + 8) + 0x1_0000 * Word(s, 0x1BE + 10)
  }

  function GeometryOf(s: seq<byte>, lba: nat): Geometry
    requires |s| == 512
  {
    Geometry(lba, s[13], Word(s, 14), Word(s, 22), Word(s, 14) + s[16] * Word(s, 22), Word(s, 17))
  }

  /** The volume whose boot sector is s, with the first FAT read into the cache. */
  function VolumeOf(disk: seq<byte>, s: seq<byte>, lba: nat): Option<Volume>
    requires |s| == 512
  {
    var g := GeometryOf(s, lba);
    if FatOff(g) + 2 * FatEntries(g) > |disk| then None
    else
      Some(Volume(g, seq(FatEntries(g), c requires 0 <= c < FatEntries(g) => Word(disk, FatOff(g) + 2 * c)), disk))
  }

  /** None where the source panics or reads past the end of the disk. */
  function Mount(disk: seq<byte>): Option<Volume> {
    if |disk| < 512 then None
    else
      var s := SectorAt(disk, 0);
      if s[510] != 0x55 || s[511] != 0xAA then None
      else if LooksLikeFat16(s) then VolumeOf(disk, s, 0)
      else
        var lba := PartitionStart(s);
        if lba == 0 || 512 * lba + 512 > |disk| then None
        else if !LooksLikeFat16(SectorAt(disk, lba)) then None
        else VolumeOf(disk, SectorAt(disk, lba), lba)
  }

  // ---------------------------------------------------------------- the structures

  type u32 = x: int | 0 <= x < 0x1_0000_0000
  type Jump = s: seq<byte> | |s| == 3 witness Zeros(3)
  type Oem = s: seq<byte> | |s| == 8 witness Zeros(8)

  /** fat16_bpb_t */
  datatype Bpb = Bpb(
    jmp: Jump, oemName: Oem, bytesPerSector: u16, sectorsPerCluster: byte, reservedSectors: u16, numFats: byte,
    rootEntries: u16, totalSectors16: u16, media: byte, fatSize: u16, sectorsPerTrack: u16, numHeads: u16,
    hiddenSectors: u32, totalSectors32: u32)

  const HALF: nat := 2
  const WORD: nat := 4

  function BpbBytes(b: Bpb): (r: seq<byte>)
    ensures |r| == 36
  {
    b.jmp + b.oemName + Le(b.bytesPerSector, HALF) + [b.sectorsPerCluster] + Le(b.reservedSectors, HALF) + [b.numFats]
    + Le(b.rootEntries, HALF) + Le(b.totalSectors16, HALF) + [b.media] + Le(b.fatSize, HALF)
    + Le(b.sectorsPerTrack, HALF) + Le(b.numHeads, HALF) + Le(b.hiddenSectors, WORD) + Le(b.totalSectors32, WORD)
  }

  /** fat16_dirent_t */
  datatype RawDirent = RawDirent(
    name: Name83, attr: byte, ntReserved: byte, createTenth: byte, createTime: u16, createDate: u16, accessDate: u16,
    firstHi: u16, writeTime: u16, writeDate: u16, firstLo: u16, size: u32)

  function DirentBytes(e: RawDirent): (r: seq<byte>)
    ensures |r| == 32
  {
    e.name + [e.attr] + [e.ntReserved] + [e.createTenth] + Le(e.createTime, HALF) + Le(e.createDate, HALF)
    + Le(e.accessDate, HALF) + Le(e.firstHi, HALF) + Le(e.writeTime, HALF) + Le(e.writeDate, HALF)
    + Le(e.firstLo, HALF) + Le(e.size, WORD)
  }

  /** Two bytes of x stand at o. */
  lemma ReadsWord(b: seq<byte>, o: nat, x: u16)
    requires o + 2 <= |b| && b[o..o + 2] == Le(x, HALF)
    ensures Word(b, o) == x
  {
    Value2(b[o..o + 2]);
    assert Scale(HALF - 1) == 256 * Scale(HALF - 2) && Scale(HALF) == 0x1_0000;
    LeReads(x, HALF);
  }

  lemma ReadsLong(b: seq<byte>, o: nat, x: u32)
    requires o + 4 <= |b| && b[o..o + 4] == Le(x, WORD)
    ensures Word(b, o) + 0x1_0000 * Word(b, o + 2) == x
  {
    var s := b[o..o + 4];
    Value4(s);
    assert s[..2] == b[o..o + 2] && s[2..] == b[o + 2..o + 4];
    Value2(b[o..o + 2]);
    Value2(b[o + 2..o + 4]);
    assert Scale(WORD - 2) == 0x1_0000 && Scale(WORD - 1) == 256 * Scale(WORD - 2);
    LeReads(x, WORD);
  }

  /** A directory entry is read field by field: the name, the attributes, both halves of the first cluster, and the size. */
  lemma ReadsDirent(e: RawDirent)
    ensures ParseDirent(DirentBytes(e)) == Dirent(e.name, e.attr, 0x1_0000 * e.firstHi + e.firstLo, e.size)
  {
    var b := DirentBytes(e);
    var times := Le(e.createTime, HALF) + Le(e.createDate, HALF) + Le(e.accessDate, HALF);
    var front := e.name + [e.attr] + [e.ntReserved] + [e.createTenth] + times;
    var written := Le(e.writeTime, HALF) + Le(e.writeDate, HALF);
    var hi, lo, size := Le(e.firstHi, HALF), Le(e.firstLo, HALF), Le(e.size, WORD);
    assert b == front + hi + (written + lo + size);
    assert b[..11] == e.name && b[11] == e.attr && b[20..22] == hi;
    assert b == (front + hi + written) + lo + size;
    assert b[26..28] == lo && b[28..32] == size;
    ReadsWord(b, 20, e.firstHi);
    ReadsWord(b, 26, e.firstLo);
    ReadsLong(b, 28, e.size);
  }

  lemma ReadsBpb(s: seq<byte>, b: Bpb, lba: nat)
    requires |s| == 512 && s[..36] == BpbBytes(b)
    ensures Word(s, 11) == b.bytesPerSector && s[13] == b.sectorsPerCluster && Word(s, 14) == b.reservedSectors
    ensures s[16] == b.numFats && Word(s, 17) == b.rootEntries && Word(s, 22) == b.fatSize
  {
    var t := s[..36];
    var head := b.jmp + b.oemName;
    var bps, res, roots := Le(b.bytesPerSector, HALF), Le(b.reservedSectors, HALF), Le(b.rootEntries, HALF);
    var total, size := Le(b.totalSectors16, HALF), Le(b.fatSize, HALF);
    var rest := Le(b.sectorsPerTrack, HALF) + Le(b.numHeads, HALF) + Le(b.hiddenSectors, WORD) + Le(b.totalSectors32, WORD);
    assert t == head + bps + [b.sectorsPerCluster] + res + [b.numFats] + roots + total + [b.media] + size + rest;
    assert t[11..13] == bps && t[13] == b.sectorsPerCluster && t[14..16] == res && t[16] == b.numFats;
    assert t[17..19] == roots && t[22..24] == size;
    assert s[11..13] == t[11..13] && s[14..16] == t[14..16] && s[17..19] == t[17..19] && s[22..24] == t[22..24];
    ReadsWord(s, 11, b.bytesPerSector);
    ReadsWord(s, 14, b.reservedSectors);
    ReadsWord(s, 17, b.rootEntries);
    ReadsWord(s, 22, b.fatSize);
  }

  // ---------------------------------------------------------------- the layout

  ghost predicate HoldsAt(disk: seq<byte>, o: nat, x: seq<byte>) {
    o + |x| <= |disk| && disk[o..o + |x|] == x
  }

  /** The sectors the root directory and the first cluster start at. */
  function RootSector(b: Bpb, lba: nat): nat { lba + b.reservedSectors + b.numFats * b.fatSize }

  function DataSector(b: Bpb, lba: nat): nat { RootSector(b, lba) + (b.rootEntries * 32 + 511) / 512 }

  ghost predicate ClusterHolds(disk: seq<byte>, b: Bpb, lba: nat, clusters: seq<seq<byte>>, i: nat)
    requires i < |clusters|
  {
    |clusters[i]| == 512 * b.sectorsPerCluster
    && HoldsAt(disk, 512 * (DataSector(b, lba) + i * b.sectorsPerCluster), clusters[i])
  }

  /** From sector lba on the disk holds a volume with this boot sector, first FAT, root directory and clusters. */
  ghost predicate LaidOut(disk: seq<byte>, lba: nat, b: Bpb, table: seq<u16>, entries: seq<RawDirent>, clusters: seq<seq<byte>>)
  {
    && b.bytesPerSector == 512 && b.sectorsPerCluster != 0 && b.numFats != 0 && 1 <= b.fatSize <= 255 && b.rootEntries != 0
    && |table| == 256 * b.fatSize && |entries| == b.rootEntries && |clusters| == |table| - 2
    && 512 * lba + 512 <= |disk| && HoldsAt(disk, 512 * lba, BpbBytes(b))
    && (forall c | 0 <= c < |table| :: HoldsAt(disk, 512 * (lba + b.reservedSectors) + 2 * c, Le(table[c], HALF)))
    && (forall e | 0 <= e < |entries| :: HoldsAt(disk, 512 * RootSector(b, lba) + 32 * e, DirentBytes(entries[e])))
    && (forall i | 0 <= i < |clusters| :: ClusterHolds(disk, b, lba, clusters, i))
  }

  /** The volume is the whole disk, or sector 0 has no boot sector of its own and its partition table says lba. */
  ghost predicate Bootable(disk: seq<byte>, lba: u32) {
    && |disk| >= 512 && disk[510] == 0x55 && disk[511] == 0xAA
    && (lba == 0 || (HoldsAt(disk, 0x1C6, Le(lba, WORD)) && !LooksLikeFat16(SectorAt(disk, 0))))
  }

  lemma BootSector(disk: seq<byte>, lba: nat, b: Bpb)
    requires 512 * lba + 512 <= |disk| && HoldsAt(disk, 512 * lba, BpbBytes(b))
    ensures SectorAt(disk, lba)[..36] == BpbBytes(b)
  {
    SliceOfSlice(disk, 512 * lba, 512 * lba + 512, 0, 36);
  }

  lemma Factor(i: nat, k: nat, s: nat)
    ensures 512 * (s + i * k) == 512 * s + i * (512 * k)
  {
  }

  lemma LastCluster(n: nat, k: nat, s: nat)
    requires n > 0
    ensures 512 * (s + (n - 1) * k) + 512 * k == 512 * s + n * (512 * k)
  {
    Factor(n - 1, k, s);
  }

  /** The geometry this boot sector stands for. */
  function GeometryFor(b: Bpb, lba: nat): Geometry {
    Geometry(lba, b.sectorsPerCluster, b.reservedSectors, b.fatSize, b.reservedSectors + b.numFats * b.fatSize, b.rootEntries)
  }

  /** Only a boot sector with 512-byte sectors and none of the four counts zero is taken for FAT16. */
  lemma BootSectorMeans(s: seq<byte>, b: Bpb, lba: nat)
    requires |s| == 512 && s[..36] == BpbBytes(b)
    ensures GeometryOf(s, lba) == GeometryFor(b, lba)
    ensures LooksLikeFat16(s) <==>
              b.bytesPerSector == 512 && b.sectorsPerCluster != 0 && b.numFats != 0 && b.fatSize != 0 && b.rootEntries != 0
  {
    ReadsBpb(s, b, lba);
  }

  lemma PartitionEntry(s: seq<byte>, lba: u32)
    requires |s| == 512 && s[0x1C6..0x1CA] == Le(lba, WORD)
    ensures PartitionStart(s) == lba
  {
    ReadsLong(s, 0x1C6, lba);
  }

  /** fat16_init() finds the boot sector at lba. */
  lemma MountFinds(disk: seq<byte>, lba: u32)
    requires Bootable(disk, lba) && 512 * lba + 512 <= |disk| && LooksLikeFat16(SectorAt(disk, lba))
    ensures Mount(disk) == VolumeOf(disk, SectorAt(disk, lba), lba)
  {
    var s := SectorAt(disk, 0);
    assert s[510] == disk[510] && s[511] == disk[511];
    if lba != 0 {
      SliceOfSlice(disk, 0, 512, 0x1C6, 0x1CA);
      PartitionEntry(s, lba);
    }
  }

  /** What a mounted volume shows of what the disk holds. */
  ghost predicate ShowsLayout(v: Volume, table: seq<u16>, entries: seq<RawDirent>, clusters: seq<seq<byte>>) {
    && Sane(v) && Synced(v) && v.fat == table
    && |Root(v)| == |entries| && |clusters| == |table| - 2
    && (forall e | 0 <= e < |entries| ::
          Root(v)[e] == Dirent(entries[e].name, entries[e].attr, 0x1_0000 * entries[e].firstHi + entries[e].firstLo, entries[e].size))
    && (forall c | 2 <= c < |table| :: Cluster(v, c) == clusters[c - 2])
  }

  lemma AtLeastOne(n: nat, k: nat)
    requires n > 0
    ensures n * k >= k
  {
  }

  lemma MountedFits(disk: seq<byte>, lba: nat, b: Bpb, table: seq<u16>, entries: seq<RawDirent>, clusters: seq<seq<byte>>)
    requires LaidOut(disk, lba, b, table, entries, clusters)
    ensures var g := GeometryFor(b, lba);
            && GoodGeometry(g) && FatEntries(g) == |table| && ClusterOff(g, |table|) <= |disk|
            && RootOff(g) == 512 * RootSector(b, lba) && DataOff(g) == 512 * DataSector(b, lba)
  {
    var g, n := GeometryFor(b, lba), |clusters|;
    AtLeastOne(b.numFats, b.fatSize);
    assert ClusterHolds(disk, b, lba, clusters, n - 1);
    LastCluster(n, b.sectorsPerCluster, DataSector(b, lba));
    TimesIsProduct(n, ClusterSize(g));
  }

  /**
   fat16_init() on a disk laid out like that gives the volume whose FAT, root directory and
   clusters are exactly those.
   */
  lemma MountReads(disk: seq<byte>, lba: u32, b: Bpb, table: seq<u16>, entries: seq<RawDirent>, clusters: seq<seq<byte>>)
    requires Bootable(disk, lba) && LaidOut(disk, lba, b, table, entries, clusters)
    ensures Mount(disk) == Some(Volume(GeometryFor(b, lba), table, disk))
    ensures ShowsLayout(Volume(GeometryFor(b, lba), table, disk), table, entries, clusters)
  {
    BootSector(disk, lba, b);
    BootSectorMeans(SectorAt(disk, lba), b, lba);
    MountFinds(disk, lba);
    MountedFits(disk, lba, b, table, entries, clusters);
    MountedTable(disk, lba, b, table, entries, clusters);
    var v := Volume(GeometryFor(b, lba), table, disk);
    MountedRoot(v, lba, b, table, entries, clusters);
    MountedClusters(v, lba, b, table, entries, clusters);
  }

  lemma MountedEntry(disk: seq<byte>, lba: nat, b: Bpb, table: seq<u16>, entries: seq<RawDirent>, clusters: seq<seq<byte>>, c: nat)
    requires LaidOut(disk, lba, b, table, entries, clusters) && c < |table|
    ensures var o := FatOff(GeometryFor(b, lba)) + 2 * c; o + 2 <= |disk| && Word(disk, o) == table[c]
  {
    assert HoldsAt(disk, 512 * (lba + b.reservedSectors) + 2 * c, Le(table[c], HALF));
    ReadsWord(disk, FatOff(GeometryFor(b, lba)) + 2 * c, table[c]);
  }

  lemma MountedTable(disk: seq<byte>, lba: nat, b: Bpb, table: seq<u16>, entries: seq<RawDirent>, clusters: seq<seq<byte>>)
    requires LaidOut(disk, lba, b, table, entries, clusters) && Sane(Volume(GeometryFor(b, lba), table, disk))
    ensures var s := SectorAt(disk, lba); var g := GeometryFor(b, lba);
            GeometryOf(s, lba) == g ==> VolumeOf(disk, s, lba) == Some(Volume(g, table, disk))
    ensures Synced(Volume(GeometryFor(b, lba), table, disk))
  {
    var g := GeometryFor(b, lba);
    RegionsInOrder(Volume(g, table, disk));
    forall c | 0 <= c < |table| ensures table[c] == Word(disk, FatOff(g) + 2 * c) {
      MountedEntry(disk, lba, b, table, entries, clusters, c);
    }
    var cached := seq(FatEntries(g), c requires 0 <= c < FatEntries(g) => Word(disk, FatOff(g) + 2 * c));
    assert cached == table;
  }

  lemma MountedRoot(v: Volume, lba: nat, b: Bpb, table: seq<u16>, entries: seq<RawDirent>, clusters: seq<seq<byte>>)
    requires Sane(v) && LaidOut(v.disk, lba, b, table, entries, clusters)
    requires v.g.rootEntries == b.rootEntries && RootOff(v.g) == 512 * RootSector(b, lba)
    ensures forall e | 0 <= e < |entries| ::
              Root(v)[e] == Dirent(entries[e].name, entries[e].attr, 0x1_0000 * entries[e].firstHi + entries[e].firstLo, entries[e].size)
  {
    forall e | 0 <= e < |entries|
      ensures Root(v)[e] == Dirent(entries[e].name, entries[e].attr, 0x1_0000 * entries[e].firstHi + entries[e].firstLo, entries[e].size)
    {
      assert HoldsAt(v.disk, 512 * RootSector(b, lba) + 32 * e, DirentBytes(entries[e]));
      ReadsDirent(entries[e]);
    }
  }

  lemma MountedClusters(v: Volume, lba: nat, b: Bpb, table: seq<u16>, entries: seq<RawDirent>, clusters: seq<seq<byte>>)
    requires Sane(v) && LaidOut(v.disk, lba, b, table, entries, clusters) && |v.fat| == |table|
    requires DataOff(v.g) == 512 * DataSector(b, lba) && v.g.sectorsPerCluster == b.sectorsPerCluster
    ensures forall c | 2 <= c < |table| :: Cluster(v, c) == clusters[c - 2]
  {
    forall c | 2 <= c < |table| ensures Cluster(v, c) == clusters[c - 2] {
      assert ClusterHolds(v.disk, b, lba, clusters, c - 2);
      Factor(c - 2, b.sectorsPerCluster, DataSector(b, lba));
      TimesIsProduct(c - 2, ClusterSize(v.g));
    }
  }

  /** fat16_init() panics without the signature, and when neither sector 0 nor the first partition has a FAT16 boot sector. */
  lemma MountRefuses(disk: seq<byte>)
    requires |disk| >= 512 && Mount(disk).Some?
    ensures disk[510] == 0x55 && disk[511] == 0xAA
    ensures exists lba: nat ::
              && 512 * lba + 512 <= |disk| && LooksLikeFat16(SectorAt(disk, lba)) && Mount(disk).value.g.partitionLba == lba
              && (lba != 0 ==> lba == Word(disk, 0x1C6) + 0x1_0000 * Word(disk, 0x1C8))
  {
    var s := SectorAt(disk, 0);
    var lba := if LooksLikeFat16(s) then 0 else PartitionStart(s);
    assert LooksLikeFat16(SectorAt(disk, lba));
  }
}
