/**
 A FAT16 volume: the byte image of the disk, the cached FAT, and what the
 driver's lookups (kernel/src/fat16.c) read out of them.

 The block device is one flat sequence of bytes; every access of the driver is
 to a whole number of 512-byte sectors of it.  The on-disk layout is that of the
 Microsoft FAT specification, sections "FAT Data Structure" and "FAT Directory
 Structure".
 */
module FatVolume {
  import opened Common
  import opened FatChains
  import opened FatNames

  datatype Geometry = Geometry(
    partitionLba: nat, sectorsPerCluster: nat, fatStart: nat, fatSectors: nat, rootStart: nat, rootEntries: nat)

  // A sector is 512 bytes and a directory entry 32.

  function FatEntries(g: Geometry): nat { 256 * g.fatSectors }
  function ClusterSize(g: Geometry): nat { 512 * g.sectorsPerCluster }
  function RootSectors(g: Geometry): nat { (g.rootEntries * 32 + 512 - 1) / 512 }
  function FatOff(g: Geometry): nat { 512 * (g.partitionLba + g.fatStart) }
  function RootOff(g: Geometry): nat { 512 * (g.partitionLba + g.rootStart) }
  function DataOff(g: Geometry): nat { 512 * (g.partitionLba + g.rootStart + RootSectors(g)) }

  /** Byte position of a cluster: cluster_to_sector() times the sector size. */
  function ClusterOff(g: Geometry, c: nat): nat
    requires 2 <= c
  {
    DataOff(g) + Times(c - 2, ClusterSize(g))
  }

  /** k * n, by repeated addition. */
  function Times(k: nat, n: nat): nat {
    if k == 0 then 0 else Times(k - 1, n) + n
  }

  lemma {:induction false} TimesIsProduct(k: nat, n: nat)
    ensures Times(k, n) == k * n
  {
    if k > 0 { TimesIsProduct(k - 1, n); }
  }

  lemma {:induction false} TimesGrows(a: nat, b: nat, n: nat)
    requires a < b
    ensures Times(a, n) + n <= Times(b, n)
    decreases b
  {
    if a < b - 1 { TimesGrows(a, b - 1, n); }
  }

  predicate GoodGeometry(g: Geometry) {
    && 1 <= g.sectorsPerCluster && 1 <= g.fatSectors && 1 <= g.rootEntries
    && g.fatStart + g.fatSectors <= g.rootStart
    && FatEntries(g) <= 0xFFF7
  }

  datatype Volume = Volume(g: Geometry, fat: seq<u16>, disk: seq<byte>)

  /** The data area covers every FAT entry, and the cache has one number per entry. */
  predicate Sane(v: Volume) {
    && GoodGeometry(v.g)
    && |v.fat| == FatEntries(v.g)
    && 512 <= 2 * |v.fat| && ClusterOff(v.g, |v.fat|) <= |v.disk|
  }

  /** The little-endian 16-bit number at byte `i`. */
  function Word(b: seq<byte>, i: nat): nat
    requires i + 2 <= |b|
  {
    (b[i] as int) + 256 * (b[i + 1] as int)
  }

  /** The cached FAT equals the first FAT on disk. */
  predicate Synced(v: Volume)
    requires Sane(v)
  {
    RegionsInOrder(v);
    forall c | 0 <= c < |v.fat| ::
      v.fat[c] == Word(v.disk, FatOff(v.g) + 2 * c)
  }

  // ---- Regions of the image ----

  lemma RegionsInOrder(v: Volume)
    requires Sane(v)
    ensures FatOff(v.g) + 2 * |v.fat| <= RootOff(v.g)
    ensures RootOff(v.g) + 32 * v.g.rootEntries <= DataOff(v.g) <= |v.disk|
  {
  }

  /** A cluster lies inside the data area. */
  lemma ClusterInside(v: Volume, c: nat)
    requires Sane(v) && 2 <= c < |v.fat|
    ensures DataOff(v.g) <= ClusterOff(v.g, c)
    ensures ClusterOff(v.g, c) + ClusterSize(v.g) <= |v.disk|
  {
    TimesGrows(c - 2, |v.fat| - 2, ClusterSize(v.g));
  }

  /** Different clusters do not overlap. */
  lemma ClustersApart(v: Volume, c: nat, d: nat)
    requires Sane(v) && 2 <= c < d < |v.fat|
    ensures ClusterOff(v.g, c) + ClusterSize(v.g) <= ClusterOff(v.g, d)
  {
    TimesGrows(c - 2, d - 2, ClusterSize(v.g));
  }

  function Cluster(v: Volume, c: nat): (r: seq<byte>)
    requires Sane(v) && 2 <= c < |v.fat|
    ensures |r| == ClusterSize(v.g)
  {
    ClusterInside(v, c);
    v.disk[ClusterOff(v.g, c)..ClusterOff(v.g, c) + ClusterSize(v.g)]
  }

  /** The bytes a walk along `cs` reads. */
  function ChainBytes(v: Volume, cs: seq<nat>): seq<byte>
    requires Sane(v) && Usable(v.fat, cs)
    decreases |cs|
  {
    if cs == [] then [] else Cluster(v, cs[0]) + ChainBytes(v, cs[1..])
  }

  lemma {:induction false} WalkUsable(fat: seq<u16>, c: int, steps: nat)
    ensures Usable(fat, Walk(fat, c, steps))
    decreases steps
  {
    if steps != 0 && Followed(c) && c < |fat| {
      WalkUsable(fat, fat[c], steps - 1);
    }
  }

  function BytesFrom(v: Volume, first: int): seq<byte>
    requires Sane(v)
  {
    WalkUsable(v.fat, first, |v.fat|);
    ChainBytes(v, Chain(v.fat, first))
  }

  // ---- Directories ----

  type Name83 = s: seq<byte> | |s| == 11 witness seq(11, _ => SPACE)

  datatype Dirent = Dirent(name: Name83, attr: byte, first: nat, size: nat)

  const ATTR_LONG_NAME := 0x0F
  const ATTR_ARCHIVE: byte := 0x20

  /** The entry stored in 32 bytes. */
  function ParseDirent(b: seq<byte>): Dirent
    requires |b| == 32
  {
    Dirent(b[..11], b[11], 0x1_0000 * Word(b, 20) + Word(b, 26), Word(b, 28) + 0x1_0000 * Word(b, 30))
  }

  function Dirents(bytes: seq<byte>): (r: seq<Dirent>)
    ensures |r| == |bytes| / 32
  {
    seq(|bytes| / 32, e requires 0 <= e < |bytes| / 32 => ParseDirent(bytes[32 * e..32 * e + 32]))
  }

  /** Byte position of a root entry. */
  function EntryOff(g: Geometry, e: nat): nat { RootOff(g) + 32 * e }

  function Root(v: Volume): (r: seq<Dirent>)
    requires Sane(v)
    ensures |r| == v.g.rootEntries
  {
    RegionsInOrder(v);
    seq(v.g.rootEntries, e requires 0 <= e < v.g.rootEntries =>
      ParseDirent(v.disk[EntryOff(v.g, e)..EntryOff(v.g, e) + 32]))
  }

  /** read_directory(): cluster 0 stands for the root. */
  function Directory(v: Volume, d: nat): seq<Dirent>
    requires Sane(v)
  {
    if d == 0 then Root(v) else Dirents(BytesFrom(v, d))
  }

  /** First name byte 0x00: no entry here or after. */
  predicate IsEnd(e: Dirent) { e.name[0] == 0x00 }

  predicate IsDeleted(e: Dirent) { e.name[0] == 0xE5 }

  /** Long-name fragments and the volume label. */
  predicate IsLabel(e: Dirent) { e.attr == ATTR_LONG_NAME || (e.attr / 8) % 2 == 1 }

  predicate IsDir(e: Dirent) { (e.attr / 16) % 2 == 1 }

  predicate Skipped(e: Dirent) { IsDeleted(e) || IsLabel(e) }

  /** The scan of find_entry_in_dir() from entry `i` on: the index it stops at with a match, or -1. */
  function Find(dir: seq<Dirent>, want: seq<byte>, i: nat): (r: int)
    requires i <= |dir|
    ensures -1 <= r < |dir| && (r >= 0 ==> i <= r && dir[r].name == want)
    decreases |dir| - i
  {
    if i == |dir| || IsEnd(dir[i]) then -1
    else if !Skipped(dir[i]) && dir[i].name == want then i
    else Find(dir, want, i + 1)
  }

  /** Entry `i` is reached by a scan and not skipped. */
  predicate Live(dir: seq<Dirent>, i: nat) {
    i < |dir| && !Skipped(dir[i]) && forall j | 0 <= j <= i :: !IsEnd(dir[j])
  }

  // ---- Paths ----

  function SkipSlashes(p: CString): (r: CString)
    ensures |r| <= |p| && (p != [] && p[0] == SLASH ==> |r| < |p|)
    ensures r != [] ==> r[0] != SLASH
  {
    if p != [] && p[0] == SLASH then SkipSlashes(p[1..]) else p
  }

  /** Length of the leading component: up to a slash, and never more than 12 characters. */
  function ComponentLength(p: CString): (k: nat)
    ensures k <= |p| && k <= 12
  {
    if IndexOf(p, SLASH) <= 12 then IndexOf(p, SLASH) else 12
  }

  /** The subdirectory of `d` named by a path component. */
  function Subdirectory(v: Volume, d: nat, component: CString): Option<nat>
    requires Sane(v)
  {
    var e := Find(Directory(v, d), Format83(component), 0);
    if e < 0 || !IsDir(Directory(v, d)[e]) then None else Some(Directory(v, d)[e].first)
  }

  /** resolve_parent_dir() from directory `d` on: the directory of the last component, and that component. */
  function ResolveParent(v: Volume, p: CString, d: nat): Option<(nat, CString)>
    requires Sane(v)
    decreases |p|
  {
    var k := ComponentLength(p);
    var rest := SkipSlashes(p[k..]);
    if rest == [] then Some((d, p[..k]))
    else
      var sub := Subdirectory(v, d, p[..k]);
      if sub.None? then None else ResolveParent(v, rest, sub.value)
  }

  datatype File = File(first: nat, size: nat)

  /** fat16_open() */
  function Open(v: Volume, path: CString): Option<File>
    requires Sane(v)
  {
    match ResolveParent(v, path, 0)
    case None => None
    case Some((d, leaf)) =>
      var e := Find(Directory(v, d), Format83(leaf), 0);
      if e < 0 then None else Some(File(Directory(v, d)[e].first, Directory(v, d)[e].size))
  }

  /** fat16_read() */
  function Read(v: Volume, f: File, max: nat): seq<byte>
    requires Sane(v)
  {
    Take(BytesFrom(v, f.first), if f.size < max then f.size else max)
  }

  // ---- Well-formed volumes ----

  predicate RefOk(e: Dirent, heads: set<nat>, dirs: set<nat>) {
    && (!Followed(e.first) || e.first in heads)
    && (IsDir(e) ==> e.first == 0 || e.first in dirs)
  }

  predicate HeadOk(v: Volume, h: nat) {
    Followed(h) && IsChain(v.fat, h, Chain(v.fat, h))
  }

  predicate ChainsApart(v: Volume, h: nat, k: nat) {
    h != k ==> forall x | x in Chain(v.fat, h) :: x !in Chain(v.fat, k)
  }

  /** Entry `i` of the root is the only entry anywhere that names its chain. */
  predicate OwnsChain(v: Volume, dirs: set<nat>, i: nat)
    requires Sane(v) && i < |Root(v)|
  {
    var h := Root(v)[i].first;
    && h !in dirs
    && (forall j | 0 <= j < |Root(v)| && j != i && Live(Root(v), j) :: Root(v)[j].first != h)
    && (forall d, j | d in dirs && 0 <= j < |Directory(v, d)| && Live(Directory(v, d), j) :: Directory(v, d)[j].first != h)
  }

  /**
   Chains from `heads` end in an end-of-chain mark and are pairwise disjoint; `dirs` are those that hold
   subdirectories; every live entry of the root and of a subdirectory names one of them or no cluster at all;
   and no two entries share a file of the root.
   */
  predicate WellFormed(v: Volume, heads: set<nat>, dirs: set<nat>) {
    && Sane(v) && dirs <= heads
    && (forall h | h in heads :: HeadOk(v, h))
    && (forall h, k | h in heads && k in heads :: ChainsApart(v, h, k))
    && (forall i | 0 <= i < |Root(v)| && Live(Root(v), i) :: RefOk(Root(v)[i], heads, dirs))
    && (forall d, i | d in dirs && 0 <= i < |Directory(v, d)| && Live(Directory(v, d), i) ::
          RefOk(Directory(v, d)[i], heads, dirs))
    && (forall i | 0 <= i < |Root(v)| && Live(Root(v), i) && !IsDir(Root(v)[i]) && Followed(Root(v)[i].first) ::
          OwnsChain(v, dirs, i))
  }
}
