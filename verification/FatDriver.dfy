/**
 The FAT16 driver as it runs (kernel/src/fat16.c): a cached FAT and a disk image
 changed in place, with the original's loops.  A panic is a method that reports
 failure and says nothing about the state it leaves.
 */
module FatDriver {
  import opened Common
  import opened FatChains
  import opened FatNames
  import opened FatVolume
  import opened FatMount
  import opened FatWrite

  // ---- Writing part of an image ----

  lemma SliceInside(disk: seq<byte>, off: nat, buf: seq<byte>)
    requires off + |buf| <= |disk|
    ensures Splice(disk, off, buf)[off..off + |buf|] == buf
  {
  }

  lemma SliceOutside(disk: seq<byte>, off: nat, buf: seq<byte>, a: nat, b: nat)
    requires off + |buf| <= |disk| && a <= b <= |disk| && (b <= off || off + |buf| <= a)
    ensures Splice(disk, off, buf)[a..b] == disk[a..b]
  {
    var r := Splice(disk, off, buf);
    if b <= off {
      assert r[a..b] == r[..off][a..b] && disk[a..b] == disk[..off][a..b];
    } else {
      var e := off + |buf|;
      assert r[a..b] == r[e..][a - e..b - e] && disk[a..b] == disk[e..][a - e..b - e];
    }
  }

  /** The entry stored for a new file: all its fields zero but these. */
  function EncodeDirent(want: Name83, first: nat, size: nat): (r: seq<byte>)
    requires first < 0x1_0000 && size < 0x1_0000_0000
    ensures |r| == 32
  {
    DirentBytes(RawDirent(want, 0x20, 0, 0, 0, 0, 0, 0, 0, 0, first, size))
  }

  lemma ParseEncoded(want: Name83, first: nat, size: nat)
    requires first < 0x1_0000 && size < 0x1_0000_0000
    ensures ParseDirent(EncodeDirent(want, first, size)) == Dirent(want, ATTR_ARCHIVE, first, size)
  {
    ReadsDirent(RawDirent(want, 0x20, 0, 0, 0, 0, 0, 0, 0, 0, first, size));
  }

  /** The bytes of the first FAT for a cached table. */
  function EncodeFat(fat: seq<u16>): (r: seq<byte>)
    ensures |r| == 2 * |fat|
    ensures forall c | 0 <= c < |fat| :: Word(r, 2 * c) == fat[c]
  {
    seq(2 * |fat|, i requires 0 <= i < 2 * |fat| => if i % 2 == 0 then fat[i / 2] % 256 else fat[i / 2] / 256)
  }

  /** An image changed only below the data area keeps every cluster. */
  lemma BelowDataKeepsClusters(v: Volume, v': Volume, c: nat)
    requires Sane(v) && Sane(v') && v'.g == v.g && |v'.disk| == |v.disk| && 2 <= c < |v.fat|
    requires forall x | DataOff(v.g) <= x < |v.disk| :: v'.disk[x] == v.disk[x]
    ensures Cluster(v', c) == Cluster(v, c)
  {
    ClusterInside(v, c);
  }

  /** Rewriting one cluster changes that cluster only, whatever happens to the table. */
  lemma WriteCluster(v: Volume, fat': seq<u16>, c: nat, buf: seq<byte>)
    requires Sane(v) && 2 <= c < |v.fat| == |fat'| && |buf| == ClusterSize(v.g)
    ensures ClusterOff(v.g, c) + |buf| <= |v.disk|
    ensures var v' := Volume(v.g, fat', Splice(v.disk, ClusterOff(v.g, c), buf));
      && Sane(v') && Cluster(v', c) == buf
      && DataOff(v.g) <= |v.disk| && (forall x | 0 <= x < DataOff(v.g) :: v'.disk[x] == v.disk[x])
      && forall d | 2 <= d < |v.fat| && d != c :: Cluster(v', d) == Cluster(v, d)
  {
    ClusterInside(v, c);
    var off := ClusterOff(v.g, c);
    SliceInside(v.disk, off, buf);
    var v' := Volume(v.g, fat', Splice(v.disk, off, buf));
    forall x | 0 <= x < DataOff(v.g) ensures v'.disk[x] == v.disk[x] {
      SpliceAt(v.disk, off, buf, x);
    }
    forall d | 2 <= d < |v.fat| && d != c ensures Cluster(v', d) == Cluster(v, d) {
      ClusterInside(v, d);
      if d < c { ClustersApart(v, d, c); } else { ClustersApart(v, c, d); }
      SliceOutside(v.disk, off, buf, ClusterOff(v.g, d), ClusterOff(v.g, d) + ClusterSize(v.g));
    }
  }

  /** Two images with the same bytes in the root have the same root. */
  lemma SameRoot(v: Volume, v': Volume)
    requires Sane(v) && Sane(v') && v'.g == v.g && |v'.disk| == |v.disk| && DataOff(v.g) <= |v.disk|
    requires forall x | RootOff(v.g) <= x < DataOff(v.g) :: v'.disk[x] == v.disk[x]
    ensures Root(v') == Root(v)
  {
    RegionsInOrder(v);
    forall e | 0 <= e < v.g.rootEntries ensures Root(v')[e] == Root(v)[e] {
      var a := EntryOff(v.g, e);
      assert v'.disk[a..a + 32] == v.disk[a..a + 32];
    }
  }

  /** Replacing the 32 bytes of entry `slot` changes that entry only. */
  lemma WriteRootEntry(v: Volume, slot: nat, entry: seq<byte>)
    requires Sane(v) && slot < v.g.rootEntries && |entry| == 32
    ensures EntryOff(v.g, slot) + 32 <= DataOff(v.g) <= |v.disk|
    ensures var v' := v.(disk := Splice(v.disk, EntryOff(v.g, slot), entry));
      Sane(v') && Root(v') == Root(v)[slot := ParseDirent(entry)]
  {
    RegionsInOrder(v);
    var off := EntryOff(v.g, slot);
    var v' := v.(disk := Splice(v.disk, off, entry));
    forall e | 0 <= e < v.g.rootEntries
      ensures Root(v')[e] == if e == slot then ParseDirent(entry) else Root(v)[e]
    {
      if e == slot {
        SliceInside(v.disk, off, entry);
      } else {
        SliceOutside(v.disk, off, entry, EntryOff(v.g, e), EntryOff(v.g, e) + 32);
      }
    }
  }

  lemma SpliceAt(disk: seq<byte>, off: nat, buf: seq<byte>, x: nat)
    requires off + |buf| <= |disk| && x < |disk|
    ensures Splice(disk, off, buf)[x] == if off <= x < off + |buf| then buf[x - off] else disk[x]
  {
  }

  /** The image after `entry` was put at p into a copy of len bytes from off, and a..b of the copy written back. */
  function WrittenBack(disk: seq<byte>, off: nat, len: nat, a: nat, b: nat, p: nat, entry: seq<byte>): seq<byte>
    requires off + len <= |disk| && a <= p && p + |entry| <= b <= len
  {
    Splice(disk, off + a, Splice(disk[off..off + len], p, entry)[a..b])
  }

  /** Changing a copy of part of an image and writing some of the copy back is changing the image in place. */
  lemma WriteBack(disk: seq<byte>, off: nat, len: nat, a: nat, b: nat, p: nat, entry: seq<byte>)
    requires off + len <= |disk| && a <= p && p + |entry| <= b <= len
    ensures WrittenBack(disk, off, len, a, b, p, entry) == Splice(disk, off + p, entry)
  {
    var root := disk[off..off + len];
    var copy := Splice(root, p, entry);
    var part := copy[a..b];
    var byPart, inPlace := Splice(disk, off + a, part), Splice(disk, off + p, entry);
    forall x | 0 <= x < |disk| ensures byPart[x] == inPlace[x] {
      SpliceAt(disk, off + a, part, x);
      SpliceAt(disk, off + p, entry, x);
      if off <= x < off + len { SpliceAt(root, p, entry, x - off); }
    }
  }

  /** The sector of the root that holds entry `slot`. */
  lemma SectorOf(g: Geometry, slot: nat)
    requires slot < g.rootEntries
    ensures var k := slot / 16;
      512 * k <= 32 * slot && 32 * slot + 32 <= 512 * k + 512 <= 512 * RootSectors(g)
  {
    var k := slot / 16;
    assert 16 * k <= slot < 16 * k + 16;
    var n := g.rootEntries * 32;
    assert 512 * k + 32 <= n <= 512 * RootSectors(g);
    assert k < RootSectors(g);
  }

  /** The image after entry `slot` was put into a copy of the root and the copy's sector written back. */
  function RootSectorWritten(v: Volume, slot: nat, entry: seq<byte>): seq<byte>
    requires Sane(v) && slot < v.g.rootEntries && |entry| == 32
  {
    RegionsInOrder(v);
    SectorOf(v.g, slot);
    var from := 512 * (slot / 16);
    WrittenBack(v.disk, RootOff(v.g), 512 * RootSectors(v.g), from, from + 512, 32 * slot, entry)
  }

  lemma SectorWriteIsEntryWrite(v: Volume, slot: nat, entry: seq<byte>)
    requires Sane(v) && slot < v.g.rootEntries && |entry| == 32
    ensures EntryOff(v.g, slot) + 32 <= DataOff(v.g) <= |v.disk|
    ensures RootSectorWritten(v, slot, entry) == Splice(v.disk, EntryOff(v.g, slot), entry)
  {
    RegionsInOrder(v);
    SectorOf(v.g, slot);
    var from := 512 * (slot / 16);
    WriteBack(v.disk, RootOff(v.g), 512 * RootSectors(v.g), from, from + 512, 32 * slot, entry);
  }

  /** `buf` is what fat16_read() has copied before cluster `i` of the chain, with `remaining` bytes still wanted. */
  predicate ReadSoFar(v: Volume, cs: seq<nat>, i: nat, buf: seq<byte>, remaining: nat)
    requires Sane(v) && Usable(v.fat, cs) && i <= |cs|
  {
    if remaining > 0 then buf + ChainBytes(v, cs[i..]) == ChainBytes(v, cs)
    else |buf| <= |ChainBytes(v, cs)| && buf == ChainBytes(v, cs)[..|buf|]
  }

  lemma ReadOneMore(v: Volume, cs: seq<nat>, i: nat, buf: seq<byte>, remaining: nat, chunk: nat)
    requires Sane(v) && Usable(v.fat, cs) && i < |cs| && 0 < remaining && ReadSoFar(v, cs, i, buf, remaining)
    requires chunk == if ClusterSize(v.g) < remaining then ClusterSize(v.g) else remaining
    ensures ReadSoFar(v, cs, i + 1, buf + Cluster(v, cs[i])[..chunk], remaining - chunk)
  {
    var here := Cluster(v, cs[i]);
    assert cs[i..][1..] == cs[i + 1..];
    assert ChainBytes(v, cs[i..]) == here + ChainBytes(v, cs[i + 1..]);
    assert ChainBytes(v, cs) == (buf + here) + ChainBytes(v, cs[i + 1..]);
    if chunk < remaining {
      assert here[..chunk] == here;
    } else {
      assert (buf + here)[..|buf| + chunk] == buf + here[..chunk];
    }
  }

  lemma ReadDone(v: Volume, cs: seq<nat>, i: nat, buf: seq<byte>, remaining: nat)
    requires Sane(v) && Usable(v.fat, cs) && i <= |cs| && ReadSoFar(v, cs, i, buf, remaining)
    requires remaining > 0 ==> i == |cs|
    ensures buf == Take(ChainBytes(v, cs), |buf| + remaining)
  {
    var all := ChainBytes(v, cs);
    assert all[..|all|] == all;
    if remaining > 0 {
      assert cs[i..] == [] && buf + [] == buf;
    }
  }

  /** The first `|cs|` clusters' worth of `data` is stored in the clusters `cs`, taken from those free in `v`. */
  predicate StoredSoFar(v: Volume, v': Volume, data: seq<byte>, cs: seq<nat>) {
    && Sane(v) && Sane(v') && v'.g == v.g && |v'.disk| == |v.disk|
    && Usable(v.fat, cs) && Distinct(cs) && Members(cs) <= FreeClusters(v.fat)
    && v'.fat == Linked(v.fat, cs)
    && |cs| <= |Chunks(data, ClusterSize(v.g))|
    && (forall i | 0 <= i < |cs| :: Cluster(v', cs[i]) == Chunks(data, ClusterSize(v.g))[i])
    && ClustersKept(v, v', cs)
    && DataOff(v.g) <= |v.disk| && (forall x | 0 <= x < DataOff(v.g) :: v'.disk[x] == v.disk[x])
  }

  /** The table after linking in one more cluster, in the driver's order of stores. */
  function LinkIn(fat: seq<u16>, prev: nat, c: nat): seq<u16>
    requires c < |fat| <= EOC_MIN && prev < |fat|
  {
    if prev == 0 then fat[c := EOC_MARK] else fat[c := EOC_MARK][prev := c]
  }

  lemma LinkOneMore(fat: seq<u16>, cs: seq<nat>, c: nat)
    requires Usable(fat, cs) && Distinct(cs) && |fat| <= EOC_MIN && Members(cs) <= FreeClusters(fat)
    requires c in FreeClusters(Linked(fat, cs))
    ensures Usable(fat, cs + [c]) && Distinct(cs + [c]) && Members(cs + [c]) <= FreeClusters(fat)
    ensures Linked(fat, cs + [c]) == LinkIn(Linked(fat, cs), if cs == [] then 0 else cs[|cs| - 1], c)
  {
    LinkedFree(fat, cs);
    assert c !in Members(cs);
    assert (cs + [c])[..|cs|] == cs;
  }

  /** Linking in a free cluster and filling it with the next chunk stores one more chunk. */
  lemma StoreOneMore(v: Volume, v1: Volume, v2: Volume, data: seq<byte>, cs: seq<nat>, c: nat)
    requires StoredSoFar(v, v1, data, cs) && |cs| < |Chunks(data, ClusterSize(v.g))|
    requires c in FreeClusters(v1.fat)
    requires v2.g == v.g && |v2.disk| == |v.disk| && DataOff(v.g) <= |v.disk|
    requires v2.fat == LinkIn(v1.fat, if cs == [] then 0 else cs[|cs| - 1], c)
    requires Sane(v2) && Cluster(v2, c) == Chunks(data, ClusterSize(v.g))[|cs|]
    requires forall x | 0 <= x < DataOff(v.g) :: v2.disk[x] == v1.disk[x]
    requires forall d | 2 <= d < |v.fat| && d != c :: Cluster(v2, d) == Cluster(v1, d)
    ensures StoredSoFar(v, v2, data, cs + [c])
  {
    LinkOneMore(v.fat, cs, c);
    var cs' := cs + [c];
    forall i | 0 <= i < |cs'| ensures Cluster(v2, cs'[i]) == Chunks(data, ClusterSize(v.g))[i] {
      if i < |cs| { assert cs'[i] == cs[i] != cs'[|cs|]; }
    }
  }

  /** Cutting one chunk off the front. */
  lemma NextChunk(rest: seq<byte>, n: nat)
    requires 0 < n && rest != []
    ensures var chunk := if n < |rest| then n else |rest|;
      Chunks(rest, n) == [rest[..chunk] + Zeros(n - chunk)] + Chunks(rest[chunk..], n)
  {
    if n < |rest| {
      assert rest[..n] + Zeros(0) == rest[..n];
    } else {
      assert rest[..|rest|] == rest && rest[|rest|..] == [];
    }
  }

  /** What is left of the data starts with chunk i, and the chunks after it are those of the rest. */
  lemma ChunkAt(chunks: seq<seq<byte>>, rest: seq<byte>, i: nat, n: nat)
    requires 0 < n && i < |chunks| && Chunks(rest, n) == chunks[i..]
    ensures rest != []
    ensures var chunk := if n < |rest| then n else |rest|;
            rest[..chunk] + Zeros(n - chunk) == chunks[i] && Chunks(rest[chunk..], n) == chunks[i + 1..]
  {
    NoChunks(rest, n);
    NextChunk(rest, n);
    assert chunks[i..][0] == chunks[i] && chunks[i..][1..] == chunks[i + 1..];
  }

  /** Enough clusters are free for the chunks still to come exactly when one is found each time. */
  lemma ClustersLeft(fat: seq<u16>, cs: seq<nat>)
    requires Usable(fat, cs) && Distinct(cs) && |fat| <= EOC_MIN && Members(cs) <= FreeClusters(fat)
    ensures |cs| <= |FreeClusters(fat)|
    ensures FreeClusters(Linked(fat, cs)) == {} ==> |FreeClusters(fat)| == |cs|
  {
    MembersSize(cs);
    LinkedFree(fat, cs);
    SubsetSize(Members(cs), FreeClusters(fat));
  }

  lemma SubsetSize(a: set<nat>, b: set<nat>)
    requires a <= b
    ensures |a| <= |b| && (b - a == {} ==> |a| == |b|)
  {
    assert b == a + (b - a);
  }

  lemma EncodedWords(disk: seq<byte>, off: nat, fat: seq<u16>, c: nat)
    requires off + 2 * |fat| <= |disk| && c < |fat|
    ensures Word(Splice(disk, off, EncodeFat(fat)), off + 2 * c) == fat[c]
  {
    var buf := EncodeFat(fat);
    SpliceAt(disk, off, buf, off + 2 * c);
    SpliceAt(disk, off, buf, off + 2 * c + 1);
    assert Word(buf, 2 * c) == fat[c];
  }

  /** Writing over the first FAT leaves the root alone. */
  lemma FlushKeepsRoot(v: Volume, buf: seq<byte>)
    requires Sane(v) && |buf| == 2 * |v.fat|
    ensures FatOff(v.g) + |buf| <= RootOff(v.g) <= DataOff(v.g) <= |v.disk|
    ensures var v' := v.(disk := Splice(v.disk, FatOff(v.g), buf)); Sane(v') && Root(v') == Root(v)
  {
    RegionsInOrder(v);
    var v' := v.(disk := Splice(v.disk, FatOff(v.g), buf));
    forall x | RootOff(v.g) <= x < DataOff(v.g) ensures v'.disk[x] == v.disk[x] {
      SpliceAt(v.disk, FatOff(v.g), buf, x);
    }
    SameRoot(v, v');
  }

  /** Writing the cached table over the first FAT syncs it and leaves the root alone. */
  lemma FlushSyncs(v: Volume)
    requires Sane(v)
    ensures FatOff(v.g) + 2 * |v.fat| <= RootOff(v.g) <= DataOff(v.g) <= |v.disk|
    ensures var v' := v.(disk := Splice(v.disk, FatOff(v.g), EncodeFat(v.fat)));
      Sane(v') && Synced(v') && Root(v') == Root(v)
  {
    FlushKeepsRoot(v, EncodeFat(v.fat));
    forall c | 0 <= c < |v.fat|
      ensures v.fat[c] == Word(Splice(v.disk, FatOff(v.g), EncodeFat(v.fat)), FatOff(v.g) + 2 * c)
    {
      EncodedWords(v.disk, FatOff(v.g), v.fat, c);
    }
  }

  /** Freeing the old chain, storing the data, then the entry, then the table, is the whole write. */
  lemma StagesAreWritten(v: Volume, v1: Volume, v2: Volume, want: Name83, data: seq<byte>, cs: seq<nat>)
    requires Sane(v) && Usable(v.fat, OldChain(v, want)) && 0 <= Slot(Root(v), want)
    requires StoredSoFar(v.(fat := Freed(v.fat, OldChain(v, want))), v1, data, cs)
    requires |cs| == |Chunks(data, ClusterSize(v.g))|
    requires Sane(v2) && v2.g == v.g && v2.fat == v1.fat && |v2.disk| == |v.disk| && Synced(v2)
    requires |v1.disk| == |v.disk| && forall x | DataOff(v.g) <= x < |v.disk| :: v2.disk[x] == v1.disk[x]
    requires Root(v2) == Root(v)[Slot(Root(v), want) := NewEntry(want, cs, |data|)]
    ensures Written(v, v2, want, data, cs)
  {
    var v0 := v.(fat := Freed(v.fat, OldChain(v, want)));
    forall c | 2 <= c < |v.fat| ensures Cluster(v2, c) == Cluster(v1, c) && Cluster(v0, c) == Cluster(v, c) {
      BelowDataKeepsClusters(v1, v2, c);
      BelowDataKeepsClusters(v, v0, c);
    }
  }

  /** One step of the loop that gives a chain back. */
  lemma FreeOneMore(fat: seq<u16>, cs: seq<nat>, i: nat)
    requires i < |cs| && Distinct(cs) && Usable(fat, cs) && IsChain(fat, cs[i], cs[i..])
    ensures Freed(fat, cs[..i])[cs[i]] == fat[cs[i]]
    ensures Freed(fat, cs[..i])[cs[i] := FREE_MARK] == Freed(fat, cs[..i + 1])
    ensures IsChain(fat, fat[cs[i]], cs[i + 1..])
    ensures Followed(fat[cs[i]]) ==> i + 1 < |cs| && fat[cs[i]] == cs[i + 1]
    ensures !Followed(fat[cs[i]]) ==> i + 1 == |cs|
  {
    assert cs[i..][1..] == cs[i + 1..];
    assert cs[..i + 1] == cs[..i] + [cs[i]];
    assert cs[i] !in cs[..i];
  }

  lemma {:induction false} BytesOfChain(v: Volume, cs: seq<nat>)
    requires Sane(v) && Usable(v.fat, cs)
    ensures |ChainBytes(v, cs)| == Times(|cs|, ClusterSize(v.g))
    decreases |cs|
  {
    if cs != [] { BytesOfChain(v, cs[1..]); }
  }

  /** A walk along the chain `cs` that has i clusters behind it stands at c. */
  ghost predicate StandsAt(fat: seq<u16>, cs: seq<nat>, i: nat, c: int) {
    && i <= |cs|
    && (Followed(c) ==> i < |cs| && c == cs[i] && IsChain(fat, c, cs[i..]))
    && (!Followed(c) ==> i == |cs|)
  }

  lemma WalkStarts(fat: seq<u16>, first: nat)
    requires Followed(first) ==> IsChain(fat, first, Chain(fat, first))
    ensures StandsAt(fat, Chain(fat, first), 0, first)
  {
    assert Chain(fat, first)[0..] == Chain(fat, first);
  }

  lemma WalkStep(fat: seq<u16>, cs: seq<nat>, i: nat, c: int)
    requires StandsAt(fat, cs, i, c) && Followed(c)
    ensures c < |fat| && StandsAt(fat, cs, i + 1, fat[c])
  {
    var rest := cs[i + 1..];
    assert cs[i..][1..] == rest && IsChain(fat, fat[c], rest);
    assert rest != [] ==> rest[0] == cs[i + 1];
  }

  class Driver {
    const g: Geometry
    var fat: seq<u16>
    var disk: seq<byte>

    function View(): Volume
      reads this
    {
      Volume(g, fat, disk)
    }

    constructor (g: Geometry, fat: seq<u16>, disk: seq<byte>)
      ensures this.g == g && this.fat == fat && this.disk == disk
    {
      this.g, this.fat, this.disk := g, fat, disk;
    }

    /** alloc_cluster(): the lowest free cluster; negative stands for the disk-full panic. */
    method AllocCluster() returns (c: int)
      ensures c < 0 <==> FreeClusters(fat) == {}
      ensures c >= 0 ==> c in FreeClusters(fat)
      ensures c < 0 ==> forall x | 2 <= x < |fat| :: fat[x] != 0
      ensures c >= 0 ==> 2 <= c < |fat| && fat[c] == 0 && forall x | 2 <= x < c :: fat[x] != 0
    {
      c := 2;
      while c < |fat|
        invariant 2 <= c
        invariant forall x | 2 <= x < c && x < |fat| :: fat[x] != 0
      {
        if fat[c] == 0 {
          assert c in FreeClusters(fat);
          return;
        }
        c := c + 1;
      }
      c := -1;
    }

    /** The loop of fat16_write_file() that gives an old chain back. */
    method FreeChain(first: nat)
      requires Followed(first) ==> IsChain(fat, first, Chain(fat, first))
      modifies this`fat
      ensures fat == Freed(old(fat), Chain(old(fat), first))
      ensures forall x | 0 <= x < |fat| :: fat[x] == if x in Chain(old(fat), first) then 0 else old(fat[x])
    {
      ghost var fat0, cs := fat, Chain(fat, first);
      var cluster: int := first;
      ghost var i := 0;
      if Followed(first) { ChainIsSound(fat, first, cs); }
      while 2 <= cluster < 0xFFF8
        invariant 0 <= i <= |cs| && |fat| == |fat0|
        invariant Followed(cluster) ==> i < |cs| && cluster == cs[i] && IsChain(fat0, cluster, cs[i..])
        invariant !Followed(cluster) ==> i == |cs|
        invariant fat == Freed(fat0, cs[..i])
        decreases |cs| - i
      {
        FreeOneMore(fat0, cs, i);
        var next := fat[cluster];
        fat := fat[cluster := 0];
        cluster := next;
        i := i + 1;
      }
      assert cs[..i] == cs;
    }

    /** find_entry_in_dir() on a directory already read: the matching entry's index, or -1. */
    method FindEntry(dir: seq<Dirent>, want: seq<byte>) returns (e: int)
      ensures e == Find(dir, want, 0)
    {
      e := 0;
      while e < |dir|
        invariant 0 <= e <= |dir|
        invariant Find(dir, want, 0) == Find(dir, want, e)
      {
        if dir[e].name[0] == 0x00 {
          break;
        }
        if dir[e].name[0] == 0xE5 || dir[e].attr == 0x0F || dir[e].attr / 8 % 2 == 1 {
          e := e + 1;
          continue;
        }
        if dir[e].name == want {
          return;
        }
        e := e + 1;
      }
      e := -1;
    }

    /** The first pass of read_subdir_clusters(): count the clusters of the chain. */
    method CountClusters(first: nat) returns (count: nat)
      requires Sane(View()) && (Followed(first) ==> IsChain(fat, first, Chain(fat, first)))
      ensures count == |Chain(fat, first)|
    {
      ghost var cs := Chain(fat, first);
      var c: int := first;
      count := 0;
      WalkStarts(fat, first);
      while 2 <= c < 0xFFF8
        invariant StandsAt(fat, cs, count, c)
        decreases |cs| - count
      {
        WalkStep(fat, cs, count, c);
        c := fat[c];
        count := count + 1;
      }
    }

    /** The second pass: read them one after another. */
    method ReadClusters(first: nat) returns (buf: seq<byte>)
      requires Sane(View()) && (Followed(first) ==> IsChain(fat, first, Chain(fat, first)))
      ensures buf == BytesFrom(View(), first)
    {
      ghost var v, cs := View(), Chain(fat, first);
      WalkUsable(fat, first, |fat|);
      var c: int := first;
      buf := [];
      ghost var i := 0;
      WalkStarts(fat, first);
      assert cs[0..] == cs;
      while 2 <= c < 0xFFF8
        invariant StandsAt(fat, cs, i, c) && buf + ChainBytes(v, cs[i..]) == ChainBytes(v, cs)
        decreases |cs| - i
      {
        WalkStep(fat, cs, i, c);
        ClusterInside(v, c);
        var off := ClusterOff(g, c);
        assert cs[i..][1..] == cs[i + 1..];
        assert disk[off..off + ClusterSize(g)] == Cluster(v, cs[i]);
        assert (buf + Cluster(v, cs[i])) + ChainBytes(v, cs[i + 1..]) == buf + ChainBytes(v, cs[i..]);
        buf := buf + disk[off..off + ClusterSize(g)];
        c := fat[c];
        i := i + 1;
      }
      assert cs[i..] == [] && buf + [] == buf;
    }

    /** read_directory(): the entries of the root (cluster 0) or of a subdirectory. */
    method ReadDirectory(d: nat) returns (dir: seq<Dirent>)
      requires Sane(View()) && (Followed(d) ==> IsChain(fat, d, Chain(fat, d)))
      ensures dir == Directory(View(), d)
    {
      if d == 0 {
        return Root(View());
      }
      var count := CountClusters(d);
      var buf := ReadClusters(d);
      WalkUsable(fat, d, |fat|);
      BytesOfChain(View(), Chain(fat, d));
      var entries := Times(count, ClusterSize(g)) / 32;
      dir := seq(entries, e requires 0 <= e < entries && entries == |buf| / 32 => ParseDirent(buf[32 * e..32 * e + 32]));
    }

    /** fat16_read() */
    method ReadFile(f: File, max: nat) returns (buf: seq<byte>)
      requires Sane(View()) && (Followed(f.first) ==> IsChain(fat, f.first, Chain(fat, f.first)))
      ensures buf == Read(View(), f, max)
    {
      var remaining := if f.size < max then f.size else max;
      ghost var v, total, cs := View(), remaining, Chain(fat, f.first);
      var cluster: int := f.first;
      buf := [];
      WalkUsable(fat, f.first, |fat|);
      ghost var i := 0;
      WalkStarts(fat, f.first);
      assert cs[0..] == cs;
      while remaining > 0 && Followed(cluster)
        invariant StandsAt(fat, cs, i, cluster) && 0 <= remaining && |buf| + remaining == total
        invariant ReadSoFar(v, cs, i, buf, remaining)
        decreases |cs| - i
      {
        WalkStep(fat, cs, i, cluster);
        ClusterInside(v, cluster);
        var off := ClusterOff(g, cluster);
        var clusterBuf := disk[off..off + ClusterSize(g)];
        var chunk := if ClusterSize(g) < remaining then ClusterSize(g) else remaining;
        assert clusterBuf == Cluster(v, cs[i]);
        ReadOneMore(v, cs, i, buf, remaining, chunk);
        buf := buf + clusterBuf[..chunk];
        remaining := remaining - chunk;
        cluster := fat[cluster];
        i := i + 1;
      }
      ReadDone(v, cs, i, buf, remaining);
    }

    /** One round of that loop: mark the cluster as the chain's end, link it in, and write its bytes. */
    method StoreChunk(ghost v: Volume, ghost data: seq<byte>, ghost cs: seq<nat>, prev: nat, c: nat, buf: seq<byte>)
      requires Sane(View()) && StoredSoFar(v, View(), data, cs) && |cs| < |Chunks(data, ClusterSize(g))|
      requires c in FreeClusters(fat) && prev == if cs == [] then 0 else cs[|cs| - 1]
      requires |buf| == ClusterSize(g) && buf == Chunks(data, ClusterSize(g))[|cs|]
      modifies this`fat, this`disk
      ensures StoredSoFar(v, View(), data, cs + [c])
    {
      ghost var v1 := View();
      fat := fat[c := 0xFFFF];
      if prev != 0 {
        fat := fat[prev := c];
      }
      WriteCluster(v1, fat, c, buf);
      disk := Splice(disk, ClusterOff(g, c), buf);
      StoreOneMore(v, v1, View(), data, cs, c);
    }

    /** The loop of fat16_write_file() that allocates and fills clusters; false stands for the disk-full panic. */
    method WriteClusters(data: seq<byte>) returns (ok: bool, first: nat, ghost cs: seq<nat>)
      requires Sane(View())
      modifies this`fat, this`disk
      ensures ok <==> ClustersNeeded(|data|, ClusterSize(g)) <= |FreeClusters(old(fat))|
      ensures ok ==> StoredSoFar(old(View()), View(), data, cs) && |cs| == ClustersNeeded(|data|, ClusterSize(g))
      ensures ok ==> first == if cs == [] then 0 else cs[0]
    {
      ghost var v := View();
      var n := ClusterSize(g);
      var needed := if |data| == 0 then 0 else (|data| + n - 1) / n;
      var prev, rest, i := 0, data, 0;
      first, cs := 0, [];
      ghost var chunks := Chunks(data, n);
      ChunkCount(data, n);
      RegionsInOrder(v);
      assert chunks[0..] == chunks;
      while i < needed
        invariant 0 <= i <= needed == |chunks| && |cs| == i
        invariant StoredSoFar(v, View(), data, cs)
        invariant Chunks(rest, n) == chunks[i..]
        invariant first == (if cs == [] then 0 else cs[0]) && prev == (if cs == [] then 0 else cs[|cs| - 1])
      {
        ClustersLeft(v.fat, cs);
        var c := AllocCluster();
        if c < 0 {
          ok := false;
          return;
        }
        ChunkAt(chunks, rest, i, n);
        var chunk := if n < |rest| then n else |rest|;
        var clusterBuf := rest[..chunk] + Zeros(n - chunk);
        if prev == 0 {
          first := c;
        }
        StoreChunk(v, data, cs, prev, c, clusterBuf);
        rest := rest[chunk..];
        prev, cs, i := c, cs + [c], i + 1;
      }
      ClustersLeft(v.fat, cs);
      ok := true;
    }

    /** The scan of fat16_write_file() over the root. */
    method FindSlot(root: seq<Dirent>, want: seq<byte>) returns (existing: int, free: int)
      ensures existing == Find(root, want, 0) && (existing < 0 ==> free == FirstFree(root, 0))
    {
      existing, free := -1, -1;
      var e := 0;
      while e < |root|
        invariant 0 <= e <= |root|
        invariant existing == -1 && Find(root, want, 0) == Find(root, want, e)
        invariant if free < 0 then free == -1 && FirstFree(root, 0) == FirstFree(root, e) else FirstFree(root, 0) == free
      {
        if root[e].name[0] == 0x00 {
          if free < 0 {
            free := e;
          }
          return;
        }
        if root[e].name[0] == 0xE5 {
          if free < 0 {
            free := e;
          }
        } else if root[e].attr != 0x0F && root[e].attr / 8 % 2 == 0 && root[e].name == want {
          existing := e;
          return;
        }
        e := e + 1;
      }
    }

    /** The end of fat16_write_file(): write back the root sector that holds the new entry, then the whole cached FAT. */
    method StoreEntryAndFat(slot: nat, entry: seq<byte>)
      requires Sane(View()) && slot < g.rootEntries && |entry| == 32
      modifies this`disk
      ensures Sane(View()) && Synced(View()) && |disk| == |old(disk)|
      ensures Root(View()) == old(Root(View()))[slot := ParseDirent(entry)]
      ensures forall x | DataOff(g) <= x < |disk| :: disk[x] == old(disk)[x]
    {
      ghost var v := View();
      SectorWriteIsEntryWrite(v, slot, entry);
      WriteRootEntry(v, slot, entry);
      disk := RootSectorWritten(View(), slot, entry);
      ghost var v1 := View();
      FlushSyncs(v1);
      disk := Splice(disk, FatOff(g), EncodeFat(fat));
      forall x | DataOff(g) <= x < |disk| ensures disk[x] == v.disk[x] {
        SpliceAt(v1.disk, FatOff(g), EncodeFat(fat), x);
        SpliceAt(v.disk, EntryOff(g, slot), entry, x);
      }
    }

    /**
     fat16_write_file(): succeeds exactly when the root has a place for the entry and, with the old chain given back,
     enough clusters are free; otherwise the kernel panics.
     */
    method WriteFile(name: CString, data: seq<byte>) returns (ok: bool, ghost cs: seq<nat>)
      requires Sane(View()) && |data| + ClusterSize(g) <= 0x1_0000_0000
      requires var e := Find(Root(View()), Format83(name), 0);
        e >= 0 && Followed(Root(View())[e].first) ==> IsChain(fat, Root(View())[e].first, Chain(fat, Root(View())[e].first))
      modifies this`fat, this`disk
      ensures ok <==> && 0 <= Slot(old(Root(View())), Format83(name))
                      && ClustersNeeded(|data|, ClusterSize(g))
                         <= |FreeClusters(Freed(old(fat), old(OldChain(View(), Format83(name)))))|
      ensures ok ==> Written(old(View()), View(), Format83(name), data, cs)
    {
      cs := [];
      var want := FormatName(name);
      var root := Root(View());
      ghost var v := View();
      var existing, free := FindSlot(root, want);
      var slot := if existing >= 0 then existing else free;
      if slot < 0 {
        return false, [];
      }
      GiveBack(root, want, existing);
      var first;
      ok, first, cs := WriteClusters(data);
      if !ok {
        return;
      }
      RecordFile(v, want, slot, first, data, cs);
    }

    /** The old chain of an overwritten file becomes free. */
    method GiveBack(root: seq<Dirent>, want: Name83, existing: int)
      requires Sane(View()) && root == Root(View()) && existing == Find(root, want, 0)
      requires existing >= 0 && Followed(root[existing].first) ==>
                 IsChain(fat, root[existing].first, Chain(fat, root[existing].first))
      modifies this`fat
      ensures fat == Freed(old(fat), OldChain(old(View()), want)) && Usable(old(fat), OldChain(old(View()), want))
      ensures Sane(View())
    {
      if existing >= 0 {
        WalkUsable(fat, root[existing].first, |fat|);
        FreeChain(root[existing].first);
      } else {
        assert Freed(fat, []) == fat;
      }
    }

    /** The data is in place; what is left is the directory entry and the FAT on disk. */
    method RecordFile(ghost v: Volume, want: Name83, slot: nat, first: nat, data: seq<byte>, ghost cs: seq<nat>)
      requires Sane(v) && v.g == g && Usable(v.fat, OldChain(v, want)) && slot == Slot(Root(v), want)
      requires Sane(View()) && |data| < 0x1_0000_0000
      requires StoredSoFar(v.(fat := Freed(v.fat, OldChain(v, want))), View(), data, cs)
      requires |cs| == ClustersNeeded(|data|, ClusterSize(g)) && first == if cs == [] then 0 else cs[0]
      modifies this`disk
      ensures Written(v, View(), want, data, cs)
    {
      ghost var v1 := View();
      SameRoot(v, v1);
      if cs != [] { assert 2 <= cs[0] < |v.fat|; }
      ParseEncoded(want, first, |data|);
      StoreEntryAndFat(slot, EncodeDirent(want, first, |data|));
      ChunkCount(data, ClusterSize(g));
      StagesAreWritten(v, v1, View(), want, data, cs);
    }
  }
}
