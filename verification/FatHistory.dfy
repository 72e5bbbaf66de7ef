/**
 Whole histories of writes: however many files are written, overwritten and shrunk, the
 volume behaves as a map from names to the contents last written.
 */
module FatHistory {
  import opened Common
  import opened FatChains
  import opened FatNames
  import opened FatVolume
  import opened FatWrite

  /** One successful fat16_write_file(): the stored name, the data and the clusters it took. */
  datatype Write = Write(want: Name83, data: seq<byte>, clusters: seq<nat>)

  /** format_83() never makes a name that starts with a NUL. */
  ghost predicate WriteAt(vs: seq<Volume>, ws: seq<Write>, i: nat)
    requires |vs| == |ws| + 1 && i < |ws|
  {
    Written(vs[i], vs[i + 1], ws[i].want, ws[i].data, ws[i].clusters) && ws[i].want[0] != 0x00
  }

  /** The root ends in never used entries only, and has no directory of this name. */
  ghost predicate MayWrite(v: Volume, want: seq<byte>) { Sane(v) && Writable(v, want) }

  /** Any number of writes, one after another, where no name stands for a directory at the start. */
  ghost predicate Writes(vs: seq<Volume>, ws: seq<Write>) {
    && |vs| == |ws| + 1
    && (forall i | 0 <= i < |ws| :: MayWrite(vs[0], ws[i].want))
    && (forall i | 0 <= i < |ws| :: WriteAt(vs, ws, i))
  }

  /** Such writes to a volume that is well formed at the start. */
  ghost predicate History(vs: seq<Volume>, ws: seq<Write>, heads: set<nat>, dirs: set<nat>) {
    Writes(vs, ws) && WellFormed(vs[0], heads, dirs)
  }

  /** What the first n writes left under this stored name: the data of the last one to it, if any. */
  function Contents(ws: seq<Write>, want: seq<byte>, n: nat): Option<seq<byte>>
    requires n <= |ws|
  {
    if n == 0 then None
    else if ws[n - 1].want == want then Some(ws[n - 1].data)
    else Contents(ws, want, n - 1)
  }

  /** A volume with an empty root directory is well formed. */
  lemma EmptyIsWellFormed(v: Volume)
    requires Sane(v) && forall i | 0 <= i < |Root(v)| :: IsEnd(Root(v)[i])
    ensures WellFormed(v, {}, {}) && TailClear(Root(v))
  {
    assert forall i | 0 <= i < |Root(v)| :: !Live(Root(v), i);
  }

  // ---------------------------------------------------------------- what every write keeps

  /** A write makes no directory, and leaves the end of the root alone. */
  lemma WritableAfter(v: Volume, v': Volume, w: Write, other: seq<byte>)
    requires Written(v, v', w.want, w.data, w.clusters) && w.want[0] != 0x00
    ensures MayWrite(v, w.want) && MayWrite(v, other) ==> MayWrite(v', other)
  {
    if MayWrite(v, w.want) && MayWrite(v, other) {
      TailAfter(Root(v), w.want, w.clusters, |w.data|);
      RootLookup(Root(v), w.want, w.clusters, |w.data|, other);
    }
  }

  lemma WritableNext(vs: seq<Volume>, ws: seq<Write>, n: nat, other: seq<byte>)
    requires Writes(vs, ws) && n < |ws|
    ensures MayWrite(vs[n], ws[n].want) && MayWrite(vs[n], other) ==> MayWrite(vs[n + 1], other)
  {
    assert WriteAt(vs, ws, n);
    WritableAfter(vs[n], vs[n + 1], ws[n], other);
  }

  lemma {:induction false} StaysWritable(vs: seq<Volume>, ws: seq<Write>, n: nat, other: seq<byte>)
    requires Writes(vs, ws) && n <= |ws|
    ensures MayWrite(vs[0], other) ==> MayWrite(vs[n], other)
  {
    if n > 0 {
      var w := ws[n - 1];
      assert MayWrite(vs[0], w.want);
      StaysWritable(vs, ws, n - 1, w.want);
      StaysWritable(vs, ws, n - 1, other);
      WritableNext(vs, ws, n - 1, other);
    }
  }

  lemma MayWriteNext(vs: seq<Volume>, ws: seq<Write>, n: nat)
    requires Writes(vs, ws) && n < |ws|
    ensures WriteAt(vs, ws, n) && MayWrite(vs[n], ws[n].want)
  {
    assert MayWrite(vs[0], ws[n].want);
    StaysWritable(vs, ws, n, ws[n].want);
  }

  lemma OneWrite(v: Volume, v': Volume, heads: set<nat>, dirs: set<nat>, w: Write) returns (heads': set<nat>)
    requires Written(v, v', w.want, w.data, w.clusters) && w.want[0] != 0x00
    ensures WellFormed(v, heads, dirs) && MayWrite(v, w.want) ==> WellFormed(v', heads', dirs)
  {
    heads' := NewHeads(v, heads, w.want, w.clusters);
    if WellFormed(v, heads, dirs) && MayWrite(v, w.want) {
      WriteKeepsWellFormed(v, v', heads, dirs, w.want, w.data, w.clusters);
    }
  }

  lemma WellFormedNext(vs: seq<Volume>, ws: seq<Write>, heads: set<nat>, dirs: set<nat>, n: nat) returns (heads': set<nat>)
    requires Writes(vs, ws) && n < |ws|
    ensures WellFormed(vs[n], heads, dirs) ==> WellFormed(vs[n + 1], heads', dirs)
  {
    MayWriteNext(vs, ws, n);
    heads' := OneWrite(vs[n], vs[n + 1], heads, dirs, ws[n]);
  }

  /** The volume stays well formed, with the same subdirectories. */
  lemma {:induction false} StaysWellFormed(vs: seq<Volume>, ws: seq<Write>, heads: set<nat>, dirs: set<nat>, n: nat)
    returns (heads': set<nat>)
    requires History(vs, ws, heads, dirs) && n <= |ws|
    ensures WellFormed(vs[n], heads', dirs)
  {
    if n == 0 {
      heads' := heads;
    } else {
      var before := StaysWellFormed(vs, ws, heads, dirs, n - 1);
      heads' := WellFormedNext(vs, ws, before, dirs, n - 1);
    }
  }

  // ---------------------------------------------------------------- what reads see

  /** A name the root can hold: no slash, and short enough for the path code. */
  predicate RootName(name: CString) { SLASH !in name && |name| <= 12 }

  /** Opening `name` and reading up to max bytes of it. */
  ghost predicate ReadsAs(v: Volume, name: CString, data: seq<byte>, max: nat)
    requires Sane(v)
  {
    var f := Open(v, name);
    f.Some? && f.value.size == |data| && Read(v, f.value, max) == Take(data, max)
  }

  ghost predicate ReadsTheSame(v: Volume, v': Volume, name: CString, max: nat)
    requires Sane(v) && Sane(v')
  {
    Open(v', name) == Open(v, name)
    && (Open(v, name).Some? ==> Read(v', Open(v, name).value, max) == Read(v, Open(v, name).value, max))
  }

  /** What a read of at most max bytes gives, when `last` was written to the name since volume v0, if anything was. */
  ghost predicate ReadsUpTo(v0: Volume, v: Volume, name: CString, last: Option<seq<byte>>, max: nat) {
    && Sane(v0) && Sane(v)
    && match last
       case Some(data) => ReadsAs(v, name, data, max)
       case None => ReadsTheSame(v0, v, name, max)
  }

  ghost predicate ReadsLast(v0: Volume, v: Volume, name: CString, last: Option<seq<byte>>) {
    forall max: nat :: ReadsUpTo(v0, v, name, last, max)
  }

  /** A write under another name leaves what this name reads as alone. */
  lemma OtherName(v: Volume, v': Volume, heads: set<nat>, dirs: set<nat>, w: Write, name: CString, max: nat)
    requires WellFormed(v, heads, dirs) && Written(v, v', w.want, w.data, w.clusters) && w.want[0] != 0x00
    requires MayWrite(v, w.want) && RootName(name) && w.want != Format83(name)
    ensures ReadsTheSame(v, v', name, max)
  {
    PlainName(v, name);
    WrittenAftermath(v, v', heads, dirs, w.want, w.data, w.clusters);
    OthersRead(v, v', heads, dirs, w.want, |w.data|, w.clusters, name, max);
  }

  /** One write: the name reads as the new data if it was written, and as before otherwise. */
  lemma ReadsNext(v0: Volume, v: Volume, v': Volume, heads: set<nat>, dirs: set<nat>, w: Write, name: CString,
                  last: Option<seq<byte>>, max: nat)
    requires WellFormed(v, heads, dirs) && Written(v, v', w.want, w.data, w.clusters) && w.want[0] != 0x00
    requires MayWrite(v, w.want) && RootName(name) && (name == [] || name[0] != 0xE5)
    ensures ReadsUpTo(v0, v, name, last, max) ==>
              ReadsUpTo(v0, v', name, if w.want == Format83(name) then Some(w.data) else last, max)
  {
    if w.want == Format83(name) {
      WriteThenRead(v, v', name, w.data, w.clusters, max);
    } else {
      OtherName(v, v', heads, dirs, w, name, max);
    }
  }

  lemma LastWriteStep(vs: seq<Volume>, ws: seq<Write>, heads: set<nat>, dirs: set<nat>, n: nat, name: CString, want: Name83)
    requires History(vs, ws, heads, dirs) && n < |ws| && RootName(name) && (name == [] || name[0] != 0xE5)
    requires want == Format83(name)
    ensures ReadsLast(vs[0], vs[n], name, Contents(ws, want, n)) ==>
              ReadsLast(vs[0], vs[n + 1], name, Contents(ws, want, n + 1))
  {
    var before := StaysWellFormed(vs, ws, heads, dirs, n);
    MayWriteNext(vs, ws, n);
    var v0, v, v', last, next := vs[0], vs[n], vs[n + 1], Contents(ws, want, n), Contents(ws, want, n + 1);
    if ReadsLast(v0, v, name, last) {
      forall max: nat ensures ReadsUpTo(v0, v', name, next, max) {
        assert ReadsUpTo(v0, v, name, last, max);
        ReadsNext(v0, v, v', before, dirs, ws[n], name, last, max);
      }
    }
  }

  /**
   After any history of writes a name reads back as the data of the last write to it; a
   name never written opens and reads as it did at the start. Names that start with
   0xE5 are the ones a write does not make readable.
   */
  lemma {:induction false} LastWriteWins(vs: seq<Volume>, ws: seq<Write>, heads: set<nat>, dirs: set<nat>, n: nat, name: CString)
    requires History(vs, ws, heads, dirs) && n <= |ws| && RootName(name) && (name == [] || name[0] != 0xE5)
    ensures ReadsLast(vs[0], vs[n], name, Contents(ws, Format83(name), n))
  {
    if n > 0 {
      LastWriteWins(vs, ws, heads, dirs, n - 1, name);
      LastWriteStep(vs, ws, heads, dirs, n - 1, name, Format83(name));
    }
  }

  /** The writes were made under these names. */
  ghost predicate Named(ws: seq<Write>, names: seq<CString>) {
    |names| == |ws| && forall i | 0 <= i < |ws| :: ws[i].want == Format83(names[i])
  }

  lemma {:induction false} ContentsNamed(ws: seq<Write>, names: seq<CString>, name: CString, n: nat, j: nat)
    requires Named(ws, names) && j <= n <= |ws|
    requires forall i | j <= i < n :: !SameName(names[i], name)
    ensures Contents(ws, Format83(name), n) == Contents(ws, Format83(name), j)
    decreases n - j
  {
    if j < n {
      SameStoredName(names[n - 1], name);
      ContentsNamed(ws, names, name, n - 1, j);
    }
  }

  /**
   The same in terms of the names the writers used. When write j is the last whose name agrees with this one up to
   letter case in the part that is stored, the file has the size of its data, and a read of at most max bytes
   gives that data or its first max bytes.
   */
  lemma LastNamedWrite(vs: seq<Volume>, ws: seq<Write>, names: seq<CString>, heads: set<nat>, dirs: set<nat>,
                       n: nat, j: nat, name: CString, max: nat)
    requires History(vs, ws, heads, dirs) && Named(ws, names) && j < n <= |ws|
    requires RootName(name) && (name == [] || name[0] != 0xE5)
    requires SameName(names[j], name) && forall i | j < i < n :: !SameName(names[i], name)
    ensures Sane(vs[n])
    ensures var f, data := Open(vs[n], name), ws[j].data;
            && f.Some? && f.value.size == |data|
            && Read(vs[n], f.value, max) == if |data| <= max then data else data[..max]
  {
    LastWriteWins(vs, ws, heads, dirs, n, name);
    ContentsNamed(ws, names, name, n, j + 1);
    SameStoredName(names[j], name);
    assert ReadsUpTo(vs[0], vs[n], name, Some(ws[j].data), max);
  }

  /** And a name that agrees with none of them opens and reads as before all the writes. */
  lemma NeverNamed(vs: seq<Volume>, ws: seq<Write>, names: seq<CString>, heads: set<nat>, dirs: set<nat>,
                   n: nat, name: CString, max: nat)
    requires History(vs, ws, heads, dirs) && Named(ws, names) && n <= |ws|
    requires RootName(name) && (name == [] || name[0] != 0xE5)
    requires forall i | 0 <= i < n :: !SameName(names[i], name)
    ensures Sane(vs[0]) && Sane(vs[n]) && Open(vs[n], name) == Open(vs[0], name)
    ensures Open(vs[0], name).Some? ==> Read(vs[n], Open(vs[0], name).value, max) == Read(vs[0], Open(vs[0], name).value, max)
  {
    LastWriteWins(vs, ws, heads, dirs, n, name);
    ContentsNamed(ws, names, name, n, 0);
    assert ReadsUpTo(vs[0], vs[n], name, None, max);
  }

  /** No cluster is ever lost: after any history the free clusters are those of the start, plus and minus what the writes gave and took. */
  lemma {:induction false} NothingLeaks(vs: seq<Volume>, ws: seq<Write>, heads: set<nat>, dirs: set<nat>, n: nat)
    requires History(vs, ws, heads, dirs) && n <= |ws|
    ensures |FreeClusters(vs[n].fat)| == |FreeClusters(vs[0].fat)| + Balance(vs, ws, n)
  {
    if n > 0 {
      NothingLeaks(vs, ws, heads, dirs, n - 1);
      var before := StaysWellFormed(vs, ws, heads, dirs, n - 1);
      assert WriteAt(vs, ws, n - 1);
      WriteBalance(vs[n - 1], vs[n], before, dirs, ws[n - 1].want, ws[n - 1].data, ws[n - 1].clusters);
    }
  }

  /** Clusters given back minus clusters taken by the first n writes. */
  function Balance(vs: seq<Volume>, ws: seq<Write>, n: nat): int
    requires n <= |ws| && |vs| == |ws| + 1
  {
    if n == 0 then 0
    else Balance(vs, ws, n - 1)
         + (if Sane(vs[n - 1]) then |OldChain(vs[n - 1], ws[n - 1].want)|
              - ClustersNeeded(|ws[n - 1].data|, ClusterSize(vs[n - 1].g)) else 0)
  }
}
