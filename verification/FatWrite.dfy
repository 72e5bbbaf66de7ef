/**
 What fat16_write_file() (kernel/src/fat16.c) does to a volume, and why every
 other file survives it.
 */
module FatWrite {
  import opened Common
  import opened FatChains
  import opened FatNames
  import opened FatVolume

  // ---- The effect of a write ----

  /** `data` cut into clusters of `n` bytes, the last one filled up with zeros. */
  function Chunks(data: seq<byte>, n: nat): seq<seq<byte>>
    requires 0 < n
  {
    if data == [] then []
    else if |data| <= n then [data + Zeros(n - |data|)]
    else [data[..n]] + Chunks(data[n..], n)
  }

  function FirstFree(dir: seq<Dirent>, i: nat): (r: int)
    requires i <= |dir|
    ensures -1 <= r < |dir| && (r >= 0 ==> i <= r && (IsEnd(dir[r]) || IsDeleted(dir[r])))
    decreases |dir| - i
  {
    if i == |dir| then -1
    else if IsEnd(dir[i]) || IsDeleted(dir[i]) then i
    else FirstFree(dir, i + 1)
  }

  /** The root entry a write goes to: the one with this name, else the first deleted or never used one; negative if none. */
  function Slot(root: seq<Dirent>, want: seq<byte>): (r: int)
    ensures -1 <= r < |root|
  {
    if Find(root, want, 0) >= 0 then Find(root, want, 0) else FirstFree(root, 0)
  }

  /** The chain a write gives back: that of the entry it replaces. */
  function OldChain(v: Volume, want: seq<byte>): seq<nat>
    requires Sane(v)
  {
    var e := Find(Root(v), want, 0);
    if e < 0 then [] else Chain(v.fat, Root(v)[e].first)
  }

  function NewEntry(want: Name83, cs: seq<nat>, size: nat): Dirent {
    Dirent(want, ATTR_ARCHIVE, if cs == [] then 0 else cs[0], size)
  }

  /** Clusters outside `cs` hold what they held. */
  predicate ClustersKept(v: Volume, v': Volume, cs: seq<nat>)
    requires Sane(v) && Sane(v') && |v'.fat| == |v.fat|
  {
    forall c | 2 <= c < |v.fat| && c !in cs :: Cluster(v', c) == Cluster(v, c)
  }

  /** The clusters of `cs` hold `data`. */
  predicate Holds(v: Volume, cs: seq<nat>, data: seq<byte>)
    requires Sane(v)
  {
    && Usable(v.fat, cs) && |cs| == |Chunks(data, ClusterSize(v.g))|
    && forall i | 0 <= i < |cs| :: Cluster(v, cs[i]) == Chunks(data, ClusterSize(v.g))[i]
  }

  /** `v'` is `v` after a successful write of `data` under the stored name `want` into the clusters `cs`. */
  predicate Written(v: Volume, v': Volume, want: Name83, data: seq<byte>, cs: seq<nat>) {
    && Sane(v) && Sane(v') && v'.g == v.g && |v'.disk| == |v.disk|
    && 0 <= Slot(Root(v), want)
    && Usable(v.fat, OldChain(v, want)) && Usable(v.fat, cs) && Distinct(cs)
    && Members(cs) <= FreeClusters(Freed(v.fat, OldChain(v, want)))
    && v'.fat == Linked(Freed(v.fat, OldChain(v, want)), cs)
    && Root(v') == Root(v)[Slot(Root(v), want) := NewEntry(want, cs, |data|)]
    && Holds(v', cs, data)
    && ClustersKept(v, v', cs)
    && Synced(v')
  }

  /** What the write relies on: no directory has this name, and the root ends in never used entries only. */
  predicate Writable(v: Volume, want: seq<byte>)
    requires Sane(v)
  {
    !NamesDirectory(Root(v), want) && TailClear(Root(v))
  }

  predicate NamesDirectory(dir: seq<Dirent>, want: seq<byte>) {
    var e := Find(dir, want, 0);
    e >= 0 && IsDir(dir[e])
  }

  predicate TailClear(dir: seq<Dirent>) {
    forall i | 0 <= i < |dir| :: ClearAfter(dir, i)
  }

  predicate ClearAfter(dir: seq<Dirent>, i: nat)
    requires i < |dir|
  {
    IsEnd(dir[i]) ==> forall j | i <= j < |dir| :: IsEnd(dir[j])
  }

  // ---- Looking names up ----

  lemma {:induction false} FindIs(dir: seq<Dirent>, want: seq<byte>, i: nat, e: nat)
    requires i <= e < |dir| && Live(dir, e) && dir[e].name == want
    requires forall j | i <= j < e :: Skipped(dir[j]) || dir[j].name != want
    ensures Find(dir, want, i) == e
    decreases e - i
  {
    if i < e { FindIs(dir, want, i + 1, e); }
  }

  /** A lookup succeeds with a live entry, the first of that name, or fails because there is none. */
  lemma {:induction false} FindSound(dir: seq<Dirent>, want: seq<byte>, i: nat)
    requires i <= |dir| && forall j | 0 <= j < i :: !IsEnd(dir[j])
    ensures var r := Find(dir, want, i);
      && (r >= 0 ==> Live(dir, r) && dir[r].name == want && forall j | i <= j < r :: Skipped(dir[j]) || dir[j].name != want)
      && (r < 0 ==> forall j | i <= j < |dir| && Live(dir, j) :: dir[j].name != want)
    decreases |dir| - i
  {
    if i < |dir| && !IsEnd(dir[i]) && (Skipped(dir[i]) || dir[i].name != want) {
      FindSound(dir, want, i + 1);
    }
  }

  /** An entry find_entry_in_dir() compares: neither deleted nor, by bit 3 of its attributes, a label or part of a long name. */
  predicate Compared(e: Dirent) { e.name[0] != 0xE5 && e.attr % 16 < 8 }

  /**
   A lookup finds the first compared entry with that name, if no entry up to it starts with a NUL; it fails exactly
   when every such entry comes after one that does.
   */
  lemma FindMeans(dir: seq<Dirent>, want: seq<byte>)
    ensures var r := Find(dir, want, 0);
      && (r >= 0 ==>
            && dir[r].name == want && Compared(dir[r])
            && (forall j | 0 <= j <= r :: dir[j].name[0] != 0x00)
            && (forall j | 0 <= j < r && Compared(dir[j]) :: dir[j].name != want))
      && (r < 0 ==> forall j | 0 <= j < |dir| && Compared(dir[j]) && dir[j].name == want :: exists i :: 0 <= i <= j && dir[i].name[0] == 0x00)
  {
    FindSound(dir, want, 0);
    assert forall j | 0 <= j < |dir| :: Compared(dir[j]) <==> !Skipped(dir[j]);
    if Find(dir, want, 0) < 0 {
      forall j | 0 <= j < |dir| && Compared(dir[j]) && dir[j].name == want
        ensures exists i :: 0 <= i <= j && dir[i].name[0] == 0x00
      {
        assert !Live(dir, j);
      }
    }
  }

  /** The entries a scan reaches and compares. */
  lemma LiveMeans(dir: seq<Dirent>, i: nat)
    requires i < |dir|
    ensures Live(dir, i) <==> Compared(dir[i]) && forall j | 0 <= j <= i :: dir[j].name[0] != 0x00
  {
  }

  /** A write goes to that entry or, without one, to the first whose name starts with a NUL or 0xE5; with neither it fails. */
  lemma SlotMeans(dir: seq<Dirent>, want: seq<byte>)
    ensures var r := Slot(dir, want);
      if Find(dir, want, 0) >= 0 then r == Find(dir, want, 0)
      else
        && (r >= 0 ==> dir[r].name[0] == 0x00 || dir[r].name[0] == 0xE5)
        && (forall j | 0 <= j < (if r < 0 then |dir| else r) :: dir[j].name[0] != 0x00 && dir[j].name[0] != 0xE5)
  {
    FirstFreeSound(dir, 0);
  }

  /** A path component is followed into the entry of its name if bit 4 of that entry's attributes is set. */
  lemma SubdirectoryMeans(v: Volume, d: nat, component: CString)
    requires Sane(v)
    ensures var e := Find(Directory(v, d), Format83(component), 0);
            Subdirectory(v, d, component)
            == if e >= 0 && Directory(v, d)[e].attr % 32 >= 16 then Some(Directory(v, d)[e].first) else None
  {
    var e := Find(Directory(v, d), Format83(component), 0);
    if e >= 0 { BitFour(Directory(v, d)[e].attr); }
  }

  lemma BitFour(attr: byte)
    ensures attr / 16 % 2 == 1 <==> attr % 32 >= 16
  {
  }

  lemma {:induction false} FirstFreeSound(dir: seq<Dirent>, i: nat)
    requires i <= |dir|
    ensures forall j | i <= j < (if FirstFree(dir, i) < 0 then |dir| else FirstFree(dir, i)) :: !IsEnd(dir[j]) && !IsDeleted(dir[j])
    decreases |dir| - i
  {
    if i < |dir| && !IsEnd(dir[i]) && !IsDeleted(dir[i]) {
      FirstFreeSound(dir, i + 1);
    }
  }

  /** Everything before the slot is in use, so a scan gets there. */
  lemma SlotReached(dir: seq<Dirent>, want: seq<byte>)
    requires 0 <= Slot(dir, want)
    ensures forall j | 0 <= j < Slot(dir, want) :: !IsEnd(dir[j])
  {
    FindSound(dir, want, 0);
    FirstFreeSound(dir, 0);
  }

  /** The entries live after the write are those live before, and the slot unless its name starts with the deleted mark. */
  lemma LiveAfter(dir: seq<Dirent>, want: Name83, cs: seq<nat>, size: nat, j: nat)
    requires 0 <= Slot(dir, want) && want[0] != 0x00 && TailClear(dir) && j < |dir|
    ensures var dir' := dir[Slot(dir, want) := NewEntry(want, cs, size)];
      Live(dir', j) <==> if j == Slot(dir, want) then want[0] != 0xE5 else Live(dir, j)
  {
    var slot := Slot(dir, want);
    var dir' := dir[slot := NewEntry(want, cs, size)];
    SlotReached(dir, want);
    assert ClearAfter(dir, slot);
    if j > slot && IsEnd(dir[slot]) {
      assert IsEnd(dir[j]) && IsEnd(dir'[j]);
    }
    if Live(dir', j) && j != slot {
      forall k | 0 <= k <= j ensures !IsEnd(dir[k]) {
        assert !IsEnd(dir'[k]);
      }
    }
  }

  /** Another name resolves to the entry it resolved to. */
  lemma FindOther(dir: seq<Dirent>, want: Name83, cs: seq<nat>, size: nat, other: seq<byte>)
    requires 0 <= Slot(dir, want) && want[0] != 0x00 && TailClear(dir) && other != want
    ensures Find(dir[Slot(dir, want) := NewEntry(want, cs, size)], other, 0) == Find(dir, other, 0)
    ensures Find(dir, other, 0) != Slot(dir, want)
  {
    var slot := Slot(dir, want);
    var dir' := dir[slot := NewEntry(want, cs, size)];
    var e, e' := Find(dir, other, 0), Find(dir', other, 0);
    FindSound(dir, other, 0);
    FindSound(dir', other, 0);
    FindSound(dir, want, 0);
    if e >= 0 {
      assert e != slot;
      LiveAfter(dir, want, cs, size, e);
      FindIs(dir', other, 0, e);
    } else if e' >= 0 {
      LiveAfter(dir, want, cs, size, e');
      assert false;
    }
  }

  /** The written name resolves to the slot, unless it starts with the deleted mark; then it resolves to nothing. */
  lemma FindWritten(dir: seq<Dirent>, want: Name83, cs: seq<nat>, size: nat)
    requires 0 <= Slot(dir, want) && want[0] != 0x00 && TailClear(dir)
    ensures Find(dir[Slot(dir, want) := NewEntry(want, cs, size)], want, 0) ==
            if want[0] != 0xE5 then Slot(dir, want) else -1
  {
    var slot := Slot(dir, want);
    var dir' := dir[slot := NewEntry(want, cs, size)];
    LiveAfter(dir, want, cs, size, slot);
    FindSound(dir', want, 0);
    if want[0] != 0xE5 {
      FindSound(dir, want, 0);
      forall j | 0 <= j < slot ensures Skipped(dir'[j]) || dir'[j].name != want {
        SlotReached(dir, want);
        if Find(dir, want, 0) < 0 && !Skipped(dir[j]) { assert Live(dir, j); }
      }
      FindIs(dir', want, 0, slot);
    }
  }

  // ---- Chains and contents ----

  /** The head of the chain a write gives back, if it gives one back. */
  predicate IsOldHead(v: Volume, want: seq<byte>, h: nat)
    requires Sane(v)
  {
    var e := Find(Root(v), want, 0);
    e >= 0 && Root(v)[e].first == h
  }

  /** The replaced entry's chain is one of the volume's chains. */
  lemma OldChainOk(v: Volume, heads: set<nat>, dirs: set<nat>, want: seq<byte>)
    requires WellFormed(v, heads, dirs)
    ensures Usable(v.fat, OldChain(v, want)) && Distinct(OldChain(v, want))
    ensures forall i | 0 <= i < |OldChain(v, want)| :: v.fat[OldChain(v, want)[i]] != FREE_MARK
    ensures forall h | h in heads && !IsOldHead(v, want, h) :: forall x | x in Chain(v.fat, h) :: x !in OldChain(v, want)
  {
    var e := Find(Root(v), want, 0);
    FindSound(Root(v), want, 0);
    if e >= 0 {
      var first := Root(v)[e].first;
      assert RefOk(Root(v)[e], heads, dirs);
      if Followed(first) {
        assert HeadOk(v, first);
        ChainIsSound(v.fat, first, Chain(v.fat, first));
        forall h | h in heads && h != first ensures forall x | x in Chain(v.fat, h) :: x !in OldChain(v, want) {
          assert ChainsApart(v, h, first);
        }
      }
    }
  }

  /** A chain that is not given back keeps its clusters, its links and its bytes. */
  lemma ChainSurvives(v: Volume, v': Volume, heads: set<nat>, dirs: set<nat>, want: Name83, data: seq<byte>, cs: seq<nat>, h: nat)
    requires WellFormed(v, heads, dirs) && Written(v, v', want, data, cs)
    requires h in heads && !IsOldHead(v, want, h)
    ensures IsChain(v'.fat, h, Chain(v.fat, h)) && Chain(v'.fat, h) == Chain(v.fat, h)
    ensures BytesFrom(v', h) == BytesFrom(v, h)
    ensures forall x | x in Chain(v.fat, h) :: x !in cs
  {
    var hs := Chain(v.fat, h);
    var mid := Freed(v.fat, OldChain(v, want));
    assert HeadOk(v, h);
    OldChainOk(v, heads, dirs, want);
    ChainIsSound(v.fat, h, hs);
    LinkedValue(mid, cs);
    forall i | 0 <= i < |hs| ensures hs[i] !in cs && v'.fat[hs[i]] == v.fat[hs[i]] {
      assert hs[i] in hs;
      assert hs[i] !in OldChain(v, want) && mid[hs[i]] == v.fat[hs[i]];
      assert hs[i] !in FreeClusters(mid);
      assert hs[i] !in Members(cs);
    }
    ChainKept(v.fat, v'.fat, h, hs);
    ChainIsWalked(v'.fat, h, hs);
    SameBytes(v, v', hs, cs);
  }

  lemma {:induction false} SameBytes(v: Volume, v': Volume, hs: seq<nat>, cs: seq<nat>)
    requires Sane(v) && Sane(v') && |v'.fat| == |v.fat| && Usable(v.fat, hs) && ClustersKept(v, v', cs)
    requires forall i | 0 <= i < |hs| :: hs[i] !in cs
    ensures ChainBytes(v', hs) == ChainBytes(v, hs)
    decreases |hs|
  {
    if hs != [] {
      SameBytes(v, v', hs[1..], cs);
      assert hs[0] !in cs;
    }
  }

  function Flatten(chunks: seq<seq<byte>>): seq<byte> {
    if chunks == [] then [] else chunks[0] + Flatten(chunks[1..])
  }

  lemma {:induction false} FlattenChunks(data: seq<byte>, n: nat)
    requires 0 < n
    ensures |data| <= |Flatten(Chunks(data, n))| && Flatten(Chunks(data, n))[..|data|] == data
  {
    var all := Flatten(Chunks(data, n));
    if data == [] {
    } else if |data| <= n {
      FlattenOne(data + Zeros(n - |data|), []);
    } else {
      FlattenChunks(data[n..], n);
      FlattenOne(data[..n], Chunks(data[n..], n));
      assert all[..|data|] == data[..n] + Flatten(Chunks(data[n..], n))[..|data| - n];
    }
  }

  lemma FlattenOne(x: seq<byte>, xs: seq<seq<byte>>)
    ensures Flatten([x] + xs) == x + Flatten(xs) && Flatten([x]) == x
  {
    assert ([x] + xs)[1..] == xs && [x][1..] == [];
  }

  lemma NoChunks(data: seq<byte>, n: nat)
    requires 0 < n
    ensures Chunks(data, n) == [] <==> data == []
  {
  }

  /** ceil(size / n), as the driver computes it. */
  function ClustersNeeded(size: nat, n: nat): nat
    requires 0 < n
  {
    if size == 0 then 0 else (size + n - 1) / n
  }

  lemma {:induction false} ChunkCount(data: seq<byte>, n: nat)
    requires 0 < n
    ensures |Chunks(data, n)| == ClustersNeeded(|data|, n)
    ensures forall i | 0 <= i < |Chunks(data, n)| :: |Chunks(data, n)[i]| == n
  {
    if |data| > n {
      ChunkCount(data[n..], n);
      DivStep(|data| - 1, n);
    } else if data != [] {
      DivStep(|data| - 1, n);
      DivSmall(|data| - 1, n);
    }
  }

  lemma DivSmall(a: nat, n: nat)
    requires a < n
    ensures a / n == 0
  {
  }

  lemma Product(a: int, b: int, n: nat)
    requires a <= b
    ensures a * n <= b * n
  {
  }

  lemma DivStep(a: nat, n: nat)
    requires 0 < n
    ensures (a + n) / n == a / n + 1
  {
    var q, q' := a / n, (a + n) / n;
    assert q * n <= a < (q + 1) * n;
    assert q' * n <= a + n < (q' + 1) * n;
    if q' <= q { Product(q' + 1, q + 1, n); }
    if q' >= q + 2 { Product(q + 2, q', n); }
  }

  lemma {:induction false} HeldBytes(v: Volume, cs: seq<nat>, chunks: seq<seq<byte>>)
    requires Sane(v) && Usable(v.fat, cs) && |cs| == |chunks|
    requires forall i | 0 <= i < |cs| :: Cluster(v, cs[i]) == chunks[i]
    ensures ChainBytes(v, cs) == Flatten(chunks)
    decreases |cs|
  {
    if cs != [] {
      HeldBytes(v, cs[1..], chunks[1..]);
    }
  }

  /** The new chain is a chain. */
  lemma NewChainOk(v: Volume, v': Volume, want: Name83, data: seq<byte>, cs: seq<nat>)
    requires Written(v, v', want, data, cs) && cs != []
    ensures HeadOk(v', cs[0]) && Chain(v'.fat, cs[0]) == cs
  {
    LinkedIsChain(Freed(v.fat, OldChain(v, want)), cs);
    ChainIsWalked(v'.fat, cs[0], cs);
  }

  /** The bytes along the new chain start with the data. */
  lemma NewChainBytes(v: Volume, v': Volume, want: Name83, data: seq<byte>, cs: seq<nat>)
    requires Written(v, v', want, data, cs)
    ensures var all := BytesFrom(v', if cs == [] then 0 else cs[0]);
            |data| <= |all| && all[..|data|] == data
  {
    var n := ClusterSize(v.g);
    FlattenChunks(data, n);
    if cs == [] {
      NoChunks(data, n);
    } else {
      NewChainOk(v, v', want, data, cs);
      HeldBytes(v', cs, Chunks(data, n));
    }
  }

  lemma TakePrefix(all: seq<byte>, data: seq<byte>, max: nat)
    requires |data| <= |all| && all[..|data|] == data
    ensures Take(all, if |data| < max then |data| else max) == Take(data, max)
  {
    assert data[..|data|] == data;
    if max < |data| { assert all[..max] == all[..|data|][..max]; }
  }

  /** Reading along the new chain gives the data. */
  lemma NewChainReads(v: Volume, v': Volume, want: Name83, data: seq<byte>, cs: seq<nat>, max: nat)
    requires Written(v, v', want, data, cs)
    ensures Read(v', File(if cs == [] then 0 else cs[0], |data|), max) == Take(data, max)
  {
    NewChainBytes(v, v', want, data, cs);
    TakePrefix(BytesFrom(v', if cs == [] then 0 else cs[0]), data, max);
  }

  // ---- Main results ----

  /** A slash-free name of at most 12 characters is looked up in the root. */
  lemma PlainName(v: Volume, name: CString)
    requires Sane(v) && SLASH !in name && |name| <= 12
    ensures ResolveParent(v, name, 0) == Some((0, name))
  {
    IndexIs(name, SLASH, |name|);
    assert name[..|name|] == name && name[|name|..] == [];
  }

  lemma FormatFirstByte(name: CString)
    ensures Format83(name)[0] != 0x00
    ensures Format83(name)[0] == 0xE5 <==> name != [] && name[0] == 0xE5
  {
    var base := BasePart(name);
    if name != [] && name[0] != DOT {
      assert name[0] in name;
      assert base[0] == Upper(name[0]);
      assert Pad(base, 8)[0] == base[0];
    } else {
      assert base == [];
    }
  }

  /**
   Writing a file and opening it again reads back exactly the bytes written, up to the length asked for, if and only
   if the name does not start with the byte 0xE5.  Such a name is stored, but its first byte marks the entry deleted.
   */
  lemma WriteThenRead(v: Volume, v': Volume, name: CString, data: seq<byte>, cs: seq<nat>, max: nat)
    requires SLASH !in name && |name| <= 12
    requires Written(v, v', Format83(name), data, cs) && TailClear(Root(v))
    ensures name == [] || name[0] != 0xE5 ==>
              Open(v', name).Some? && Open(v', name).value.size == |data| && Read(v', Open(v', name).value, max) == Take(data, max)
    ensures name != [] && name[0] == 0xE5 ==> Open(v', name).None?
  {
    var want := Format83(name);
    FormatFirstByte(name);
    PlainName(v', name);
    FindWritten(Root(v), want, cs, |data|);
    NewChainReads(v, v', want, data, cs, max);
  }

  /** What of a write matters to lookups: the root has the new entry, and chains not given back read as before. */
  predicate Aftermath(v: Volume, v': Volume, heads: set<nat>, want: Name83, size: nat, cs: seq<nat>) {
    && Sane(v) && Sane(v') && 0 <= Slot(Root(v), want)
    && Root(v') == Root(v)[Slot(Root(v), want) := NewEntry(want, cs, size)]
    && (forall h | h in heads && !IsOldHead(v, want, h) :: Intact(v, v', cs, h))
    && (forall c | c in cs :: Followed(c))
  }

  predicate Intact(v: Volume, v': Volume, cs: seq<nat>, h: nat)
    requires Sane(v) && Sane(v')
  {
    BytesFrom(v', h) == BytesFrom(v, h) && h !in cs
  }

  lemma WrittenAftermath(v: Volume, v': Volume, heads: set<nat>, dirs: set<nat>, want: Name83, data: seq<byte>, cs: seq<nat>)
    requires WellFormed(v, heads, dirs) && Written(v, v', want, data, cs)
    ensures Aftermath(v, v', heads, want, |data|, cs)
  {
    forall h | h in heads && !IsOldHead(v, want, h) ensures Intact(v, v', cs, h) {
      assert HeadOk(v, h);
      ChainSurvives(v, v', heads, dirs, want, data, cs, h);
      assert h == Chain(v.fat, h)[0];
    }
  }

  /** Subdirectories read as before. */
  lemma DirectorySurvives(v: Volume, v': Volume, heads: set<nat>, dirs: set<nat>, want: Name83, size: nat, cs: seq<nat>, d: nat)
    requires WellFormed(v, heads, dirs) && Aftermath(v, v', heads, want, size, cs) && Writable(v, want)
    requires d in dirs
    ensures !IsOldHead(v, want, d) && (d != 0 ==> Directory(v', d) == Directory(v, d))
  {
    var e := Find(Root(v), want, 0);
    FindSound(Root(v), want, 0);
    assert HeadOk(v, d);
    assert e >= 0 && Followed(Root(v)[e].first) ==> OwnsChain(v, dirs, e);
    assert !IsOldHead(v, want, d);
    assert Intact(v, v', cs, d);
  }

  /** One component resolves as before, to the root or a subdirectory of the volume. */
  lemma ComponentSurvives(v: Volume, v': Volume, heads: set<nat>, dirs: set<nat>, want: Name83, size: nat, cs: seq<nat>, d: nat, component: CString)
    requires WellFormed(v, heads, dirs) && Aftermath(v, v', heads, want, size, cs) && Writable(v, want) && want[0] != 0x00
    requires d == 0 || d in dirs
    ensures Subdirectory(v', d, component) == Subdirectory(v, d, component)
    ensures Subdirectory(v, d, component).Some? ==>
              Subdirectory(v, d, component).value == 0 || Subdirectory(v, d, component).value in dirs
  {
    var dir := Directory(v, d);
    var e := Find(dir, Format83(component), 0);
    FindSound(dir, Format83(component), 0);
    if e >= 0 {
      assert RefOk(dir[e], heads, dirs);
    }
    if d == 0 {
      RootComponent(v, v', heads, want, size, cs, component);
    } else {
      DirectorySurvives(v, v', heads, dirs, want, size, cs, d);
    }
  }

  /** A name that stands for a directory of the root, before the write or after it, stands for the same one. */
  lemma RootLookup(dir: seq<Dirent>, want: Name83, cs: seq<nat>, size: nat, name: seq<byte>)
    requires 0 <= Slot(dir, want) && want[0] != 0x00 && TailClear(dir)
    requires !NamesDirectory(dir, want)
    ensures var dir' := dir[Slot(dir, want) := NewEntry(want, cs, size)];
            var e, e' := Find(dir, name, 0), Find(dir', name, 0);
            && (e >= 0 && IsDir(dir[e]) ==> e' == e && dir'[e] == dir[e])
            && (e' >= 0 && IsDir(dir'[e']) ==> e == e' && dir'[e] == dir[e])
  {
    if name == want {
      FindWritten(dir, want, cs, size);
    } else {
      FindOther(dir, want, cs, size, name);
    }
  }

  lemma RootComponent(v: Volume, v': Volume, heads: set<nat>, want: Name83, size: nat, cs: seq<nat>, component: CString)
    requires Aftermath(v, v', heads, want, size, cs) && Writable(v, want) && want[0] != 0x00
    ensures Subdirectory(v', 0, component) == Subdirectory(v, 0, component)
  {
    RootLookup(Root(v), want, cs, size, Format83(component));
  }

  /** Every path leads to the directory it led to. */
  lemma {:induction false} ParentSurvives(v: Volume, v': Volume, heads: set<nat>, dirs: set<nat>, want: Name83, size: nat, cs: seq<nat>, p: CString, d: nat)
    requires WellFormed(v, heads, dirs) && Aftermath(v, v', heads, want, size, cs) && Writable(v, want) && want[0] != 0x00
    requires d == 0 || d in dirs
    ensures ResolveParent(v', p, d) == ResolveParent(v, p, d)
    ensures ResolveParent(v, p, d).Some? ==> ResolveParent(v, p, d).value.0 == 0 || ResolveParent(v, p, d).value.0 in dirs
    decreases |p|
  {
    var k := ComponentLength(p);
    var rest := SkipSlashes(p[k..]);
    if rest != [] {
      ComponentSurvives(v, v', heads, dirs, want, size, cs, d, p[..k]);
      var sub := Subdirectory(v, d, p[..k]);
      if sub.Some? {
        ParentSurvives(v, v', heads, dirs, want, size, cs, rest, sub.value);
      }
    }
  }

  /** The path names the root entry a write of `want` goes to. */
  predicate Names(v: Volume, path: CString, want: seq<byte>)
    requires Sane(v)
  {
    var r := ResolveParent(v, path, 0);
    r.Some? && r.value.0 == 0 && Format83(r.value.1) == want
  }

  /** Entry `j` of directory `d` is live and is not the root entry the write goes to. */
  predicate IsOther(v: Volume, dirs: set<nat>, want: seq<byte>, d: nat, j: nat)
    requires Sane(v)
  {
    && (d == 0 || d in dirs)
    && j < |Directory(v, d)| && Live(Directory(v, d), j) && (d == 0 ==> j != Slot(Root(v), want))
  }

  /** A chain named by another entry is not the one given back. */
  lemma OtherNotOld(v: Volume, heads: set<nat>, dirs: set<nat>, want: seq<byte>, d: nat, j: nat)
    requires WellFormed(v, heads, dirs) && Writable(v, want) && IsOther(v, dirs, want, d, j)
    requires Followed(Directory(v, d)[j].first)
    ensures Directory(v, d)[j].first in heads && !IsOldHead(v, want, Directory(v, d)[j].first)
  {
    assert RefOk(Directory(v, d)[j], heads, dirs);
    var e := Find(Root(v), want, 0);
    FindSound(Root(v), want, 0);
    assert e >= 0 && Followed(Root(v)[e].first) ==> OwnsChain(v, dirs, e);
    assert d in dirs ==> HeadOk(v, d);
  }

  /** A chain named by another entry reads as before. */
  lemma ContentSurvives(v: Volume, v': Volume, heads: set<nat>, dirs: set<nat>, want: Name83, size: nat, cs: seq<nat>, d: nat, j: nat)
    requires WellFormed(v, heads, dirs) && Aftermath(v, v', heads, want, size, cs) && Writable(v, want) && IsOther(v, dirs, want, d, j)
    ensures BytesFrom(v', Directory(v, d)[j].first) == BytesFrom(v, Directory(v, d)[j].first)
  {
    if Followed(Directory(v, d)[j].first) {
      OtherNotOld(v, heads, dirs, want, d, j);
      assert Intact(v, v', cs, Directory(v, d)[j].first);
    }
  }

  /** A name looked up in a directory that still stands finds the entry it found, and that entry's bytes. */
  lemma LookupSurvives(v: Volume, v': Volume, heads: set<nat>, dirs: set<nat>, want: Name83, size: nat, cs: seq<nat>, d: nat, other: seq<byte>)
    requires WellFormed(v, heads, dirs) && Aftermath(v, v', heads, want, size, cs) && Writable(v, want) && want[0] != 0x00
    requires (d == 0 || d in dirs) && (d == 0 ==> other != want)
    ensures var j := Find(Directory(v, d), other, 0);
            && Find(Directory(v', d), other, 0) == j
            && (j >= 0 ==> j < |Directory(v', d)| && Directory(v', d)[j] == Directory(v, d)[j]
                           && BytesFrom(v', Directory(v, d)[j].first) == BytesFrom(v, Directory(v, d)[j].first))
  {
    FindSound(Directory(v, d), other, 0);
    if d == 0 {
      FindOther(Root(v), want, cs, size, other);
    } else {
      DirectorySurvives(v, v', heads, dirs, want, size, cs, d);
    }
    var j := Find(Directory(v, d), other, 0);
    if j >= 0 {
      ContentSurvives(v, v', heads, dirs, want, size, cs, d, j);
    }
  }

  lemma OthersRead(v: Volume, v': Volume, heads: set<nat>, dirs: set<nat>, want: Name83, size: nat, cs: seq<nat>, path: CString, max: nat)
    requires WellFormed(v, heads, dirs) && Aftermath(v, v', heads, want, size, cs) && Writable(v, want) && want[0] != 0x00
    requires !Names(v, path, want)
    ensures Open(v', path) == Open(v, path)
    ensures Open(v, path).Some? ==> Read(v', Open(v, path).value, max) == Read(v, Open(v, path).value, max)
  {
    ParentSurvives(v, v', heads, dirs, want, size, cs, path, 0);
    var r := ResolveParent(v, path, 0);
    if r.Some? {
      LookupSurvives(v, v', heads, dirs, want, size, cs, r.value.0, Format83(r.value.1));
    }
  }

  /** Every path that does not name the written entry opens the file it opened, and reads the bytes it read. */
  lemma OthersUnchanged(v: Volume, v': Volume, heads: set<nat>, dirs: set<nat>, name: CString, data: seq<byte>, cs: seq<nat>, path: CString, max: nat)
    requires WellFormed(v, heads, dirs) && Written(v, v', Format83(name), data, cs) && Writable(v, Format83(name))
    requires !Names(v, path, Format83(name))
    ensures Open(v', path) == Open(v, path)
    ensures Open(v, path).Some? ==> Read(v', Open(v, path).value, max) == Read(v, Open(v, path).value, max)
  {
    var want := Format83(name);
    FormatFirstByte(name);
    WrittenAftermath(v, v', heads, dirs, want, data, cs);
    OthersRead(v, v', heads, dirs, want, |data|, cs, path, max);
  }

  // ---- The volume stays well formed ----

  function NewHeads(v: Volume, heads: set<nat>, want: seq<byte>, cs: seq<nat>): set<nat>
    requires Sane(v)
  {
    (set h | h in heads && !IsOldHead(v, want, h)) + (if cs == [] then {} else {cs[0]})
  }

  lemma NewHeadOk(v: Volume, v': Volume, heads: set<nat>, dirs: set<nat>, want: Name83, data: seq<byte>, cs: seq<nat>, h: nat)
    requires WellFormed(v, heads, dirs) && Written(v, v', want, data, cs) && h in NewHeads(v, heads, want, cs)
    ensures HeadOk(v', h) && h < |v.fat|
    ensures if cs != [] && h == cs[0] then Chain(v'.fat, h) == cs
            else Chain(v'.fat, h) == Chain(v.fat, h) && forall x | x in Chain(v.fat, h) :: x !in cs
  {
    if cs != [] { NewChainOk(v, v', want, data, cs); }
    if h in heads && !IsOldHead(v, want, h) {
      assert HeadOk(v, h);
      ChainSurvives(v, v', heads, dirs, want, data, cs, h);
    }
  }

  lemma NewHeadsApart(v: Volume, v': Volume, heads: set<nat>, dirs: set<nat>, want: Name83, data: seq<byte>, cs: seq<nat>, h: nat, k: nat)
    requires WellFormed(v, heads, dirs) && Written(v, v', want, data, cs)
    requires h in NewHeads(v, heads, want, cs) && k in NewHeads(v, heads, want, cs)
    ensures HeadOk(v', h) && ChainsApart(v', h, k) && h < |v.fat|
  {
    NewHeadOk(v, v', heads, dirs, want, data, cs, h);
    NewHeadOk(v, v', heads, dirs, want, data, cs, k);
    assert h in heads && k in heads ==> ChainsApart(v, h, k);
  }

  /** What entry `j` of directory `d` is after the write. */
  lemma EntryIs(v: Volume, v': Volume, heads: set<nat>, dirs: set<nat>, want: Name83, size: nat, cs: seq<nat>, d: nat, j: nat)
    requires WellFormed(v, heads, dirs) && Aftermath(v, v', heads, want, size, cs) && Writable(v, want) && want[0] != 0x00
    requires (d == 0 || d in dirs) && j < |Directory(v', d)| && Live(Directory(v', d), j)
    ensures if d == 0 && j == Slot(Root(v), want) then Directory(v', d)[j] == NewEntry(want, cs, size)
            else IsOther(v, dirs, want, d, j) && Directory(v', d)[j] == Directory(v, d)[j]
  {
    if d == 0 {
      LiveAfter(Root(v), want, cs, size, j);
    } else {
      DirectorySurvives(v, v', heads, dirs, want, size, cs, d);
    }
  }

  lemma OtherEntryAfter(v: Volume, v': Volume, heads: set<nat>, dirs: set<nat>, want: Name83, size: nat, cs: seq<nat>, d: nat, j: nat)
    requires WellFormed(v, heads, dirs) && Aftermath(v, v', heads, want, size, cs) && Writable(v, want)
    requires IsOther(v, dirs, want, d, j)
    ensures RefOk(Directory(v, d)[j], NewHeads(v, heads, want, cs), dirs) && Directory(v, d)[j].first !in cs
  {
    assert RefOk(Directory(v, d)[j], heads, dirs);
    if Followed(Directory(v, d)[j].first) {
      OtherNotOld(v, heads, dirs, want, d, j);
      assert Intact(v, v', cs, Directory(v, d)[j].first);
    }
  }

  /** And what it names. */
  lemma EntryAfter(v: Volume, v': Volume, heads: set<nat>, dirs: set<nat>, want: Name83, size: nat, cs: seq<nat>, d: nat, j: nat)
    requires WellFormed(v, heads, dirs) && Aftermath(v, v', heads, want, size, cs) && Writable(v, want) && want[0] != 0x00
    requires (d == 0 || d in dirs) && j < |Directory(v', d)| && Live(Directory(v', d), j)
    ensures RefOk(Directory(v', d)[j], NewHeads(v, heads, want, cs), dirs)
    ensures if d == 0 && j == Slot(Root(v), want) then Directory(v', d)[j] == NewEntry(want, cs, size)
            else IsOther(v, dirs, want, d, j) && Directory(v', d)[j] == Directory(v, d)[j] && Directory(v, d)[j].first !in cs
  {
    EntryIs(v, v', heads, dirs, want, size, cs, d, j);
    if !(d == 0 && j == Slot(Root(v), want)) {
      OtherEntryAfter(v, v', heads, dirs, want, size, cs, d, j);
    }
  }

  lemma OwnsAfter(v: Volume, v': Volume, heads: set<nat>, dirs: set<nat>, want: Name83, size: nat, cs: seq<nat>, i: nat)
    requires WellFormed(v, heads, dirs) && Aftermath(v, v', heads, want, size, cs) && Writable(v, want) && want[0] != 0x00
    requires i < |Root(v')| && Live(Root(v'), i) && !IsDir(Root(v')[i]) && Followed(Root(v')[i].first)
    ensures OwnsChain(v', dirs, i)
  {
    var first := Root(v')[i].first;
    EntryAfter(v, v', heads, dirs, want, size, cs, 0, i);
    forall d | d in dirs ensures d != first {
      DirectorySurvives(v, v', heads, dirs, want, size, cs, d);
      assert Intact(v, v', cs, d);
      if i != Slot(Root(v), want) { assert OwnsChain(v, dirs, i); }
    }
    forall j | 0 <= j < |Root(v')| && j != i && Live(Root(v'), j) ensures Root(v')[j].first != first {
      EntryAfter(v, v', heads, dirs, want, size, cs, 0, j);
      if i != Slot(Root(v), want) { assert OwnsChain(v, dirs, i); }
    }
    forall d, j | d in dirs && 0 <= j < |Directory(v', d)| && Live(Directory(v', d), j)
      ensures Directory(v', d)[j].first != first
    {
      assert HeadOk(v, d);
      EntryAfter(v, v', heads, dirs, want, size, cs, d, j);
      if i != Slot(Root(v), want) { assert OwnsChain(v, dirs, i); }
    }
  }

  lemma ChainsAfter(v: Volume, v': Volume, heads: set<nat>, dirs: set<nat>, want: Name83, data: seq<byte>, cs: seq<nat>)
    requires WellFormed(v, heads, dirs) && Written(v, v', want, data, cs) && Writable(v, want)
    ensures var heads' := NewHeads(v, heads, want, cs);
      && dirs <= heads'
      && (forall h | h in heads' :: HeadOk(v', h))
      && (forall h, k | h in heads' && k in heads' :: ChainsApart(v', h, k))
  {
    var heads' := NewHeads(v, heads, want, cs);
    WrittenAftermath(v, v', heads, dirs, want, data, cs);
    forall d | d in dirs ensures d in heads' {
      DirectorySurvives(v, v', heads, dirs, want, |data|, cs, d);
    }
    forall h, k | h in heads' && k in heads' ensures HeadOk(v', h) && ChainsApart(v', h, k) {
      NewHeadsApart(v, v', heads, dirs, want, data, cs, h, k);
    }
    forall h | h in heads' ensures HeadOk(v', h) {
      NewHeadsApart(v, v', heads, dirs, want, data, cs, h, h);
    }
  }

  /**
   Every write keeps the volume well formed: with the new head for the old one, chains still end, are still disjoint,
   and every entry still names one of them; and the root still ends in never used entries.
   */
  lemma WriteKeepsWellFormed(v: Volume, v': Volume, heads: set<nat>, dirs: set<nat>, want: Name83, data: seq<byte>, cs: seq<nat>)
    requires WellFormed(v, heads, dirs) && Written(v, v', want, data, cs) && Writable(v, want) && want[0] != 0x00
    ensures WellFormed(v', NewHeads(v, heads, want, cs), dirs) && TailClear(Root(v'))
  {
    var heads' := NewHeads(v, heads, want, cs);
    ChainsAfter(v, v', heads, dirs, want, data, cs);
    WrittenAftermath(v, v', heads, dirs, want, data, cs);
    forall i | 0 <= i < |Root(v')| && Live(Root(v'), i) ensures RefOk(Root(v')[i], heads', dirs) {
      EntryAfter(v, v', heads, dirs, want, |data|, cs, 0, i);
    }
    forall d, i | d in dirs && 0 <= i < |Directory(v', d)| && Live(Directory(v', d), i)
      ensures RefOk(Directory(v', d)[i], heads', dirs)
    {
      EntryAfter(v, v', heads, dirs, want, |data|, cs, d, i);
    }
    forall i | 0 <= i < |Root(v')| && Live(Root(v'), i) && !IsDir(Root(v')[i]) && Followed(Root(v')[i].first)
      ensures OwnsChain(v', dirs, i)
    {
      OwnsAfter(v, v', heads, dirs, want, |data|, cs, i);
    }
    TailAfter(Root(v), want, cs, |data|);
  }

  lemma {:induction false} ChunkByte(data: seq<byte>, n: nat, i: nat, j: nat)
    requires 0 < n && i < |Chunks(data, n)| && j < n
    ensures |Chunks(data, n)[i]| == n
    ensures Chunks(data, n)[i][j] == if Times(i, n) + j < |data| then data[Times(i, n) + j] else 0
    decreases i
  {
    if i > 0 {
      ChunkByte(data[n..], n, i - 1, j);
    }
  }

  /** Byte j of the i-th cluster a write fills: the byte of the data at i times the cluster size plus j, or zero past its end. */
  lemma WrittenByte(v: Volume, v': Volume, want: Name83, data: seq<byte>, cs: seq<nat>, i: nat, j: nat, o: nat)
    requires Written(v, v', want, data, cs) && i < |cs| && j < ClusterSize(v.g) && o == i * ClusterSize(v.g) + j
    ensures Cluster(v', cs[i])[j] == if o < |data| then data[o] else 0
  {
    ChunkByte(data, ClusterSize(v.g), i, j);
    TimesIsProduct(i, ClusterSize(v.g));
  }

  /** The entry a write leaves: the name, attribute byte 32, the first cluster or 0, and the size. */
  lemma WrittenEntry(v: Volume, v': Volume, want: Name83, data: seq<byte>, cs: seq<nat>)
    requires Written(v, v', want, data, cs)
    ensures |Root(v')| == |Root(v)|
    ensures forall i | 0 <= i < |Root(v)| ::
              Root(v')[i] == if i == Slot(Root(v), want) then Dirent(want, 32, if data == [] then 0 else cs[0], |data|)
                             else Root(v)[i]
  {
    NoChunks(data, ClusterSize(v.g));
  }

  /** A write takes ceil(size / cluster size) clusters. */
  lemma WriteTakes(v: Volume, v': Volume, want: Name83, data: seq<byte>, cs: seq<nat>)
    requires Written(v, v', want, data, cs)
    ensures |cs| == ClustersNeeded(|data|, ClusterSize(v.g))
  {
    ChunkCount(data, ClusterSize(v.g));
  }

  /** A write takes ceil(size / cluster size) clusters and gives back the old chain; no cluster leaks or is taken twice. */
  lemma WriteBalance(v: Volume, v': Volume, heads: set<nat>, dirs: set<nat>, want: Name83, data: seq<byte>, cs: seq<nat>)
    requires WellFormed(v, heads, dirs) && Written(v, v', want, data, cs)
    ensures FreeClusters(v'.fat) == FreeClusters(v.fat) + Members(OldChain(v, want)) - Members(cs)
    ensures |FreeClusters(v'.fat)| == |FreeClusters(v.fat)| + |OldChain(v, want)| - ClustersNeeded(|data|, ClusterSize(v.g))
  {
    OldChainOk(v, heads, dirs, want);
    FreeClustersBalance(v.fat, OldChain(v, want), cs);
    WriteTakes(v, v', want, data, cs);
  }

  lemma TailAfter(dir: seq<Dirent>, want: Name83, cs: seq<nat>, size: nat)
    requires 0 <= Slot(dir, want) && want[0] != 0x00 && TailClear(dir)
    ensures TailClear(dir[Slot(dir, want) := NewEntry(want, cs, size)])
  {
    SlotReached(dir, want);
    var dir' := dir[Slot(dir, want) := NewEntry(want, cs, size)];
    forall i | 0 <= i < |dir'| ensures ClearAfter(dir', i) {
      assert ClearAfter(dir, i);
    }
  }
}
