/**
 Four-level page tables held in physical frames: kernel/src/vmm.c. The tables refine a
 partial map from (address space, virtual page) to leaf entries. The hardware's view
 (sections 4.5 and 4.6 of the Intel SDM, volume 3A) is defined beside the code's own
 walk, and a placement of every frame in the forest of tables is the invariant.
 */
module PageTables {
  import opened Common
  import opened PagePool

  datatype Pte = Pte(frame: nat, present: bool, writable: bool, user: bool, huge: bool, nx: bool)

  const NO_ENTRY := Pte(0, false, false, false, false, false)

  /** One physical frame: a table of 512 entries, or 4096 bytes of somebody's data. */
  datatype Page = Table(entries: seq<Pte>) | Bytes(data: seq<byte>)

  /** `kernel` is the frame of kernel_pml4 and `fb` the frames of the framebuffer. */
  datatype Memory = Memory(ram: map<nat, Page>, pool: Pool, kernel: nat, fb: set<nat>)

  function Blank(): Page { Table(seq(512, _ => NO_ENTRY)) }

  predicate IsTable(m: Memory, t: nat) {
    t in m.ram && m.ram[t].Table? && |m.ram[t].entries| == 512
  }

  predicate IsData(m: Memory, t: nat) {
    t in m.ram && m.ram[t].Bytes? && |m.ram[t].data| == 4096
  }

  function Entry(m: Memory, t: nat, i: nat): Pte {
    if IsTable(m, t) && i < 512 then m.ram[t].entries[i] else NO_ENTRY
  }

  function SetEntry(m: Memory, t: nat, i: nat, e: Pte): Memory {
    if IsTable(m, t) && i < 512 then m.(ram := m.ram[t := Table(m.ram[t].entries[i := e])]) else m
  }

  /** pmm_alloc_page() of frame f, filled with `page`. */
  function NewPage(m: Memory, f: nat, page: Page): Memory {
    m.(ram := m.ram[f := page], pool := Take(m.pool, f))
  }

  /** The entry every intermediate level gets: present, writable and user. */
  function LinkTo(f: nat): Pte { Pte(f, true, true, true, false, false) }

  function Leaf(f: nat, write: bool, exec: bool): Pte { Pte(f, true, write, true, false, !exec) }

  const LEVELS: nat := 4

  /** The last k base-512 digits of a page number, most significant first. */
  function Indices(n: nat, k: nat): (r: seq<nat>)
    ensures |r| == k && IsPath(r)
  {
    if k == 0 then [] else Indices(n / 512, k - 1) + [n % 512]
  }

  /** The four table indices of a virtual address. */
  function Path(v: nat): (r: seq<nat>)
    ensures |r| == 4 && IsPath(r)
  {
    Indices(v / 0x1000, LEVELS)
  }

  /** The shifts and masks of the source compute them. */
  lemma PathBits(v: nat)
    ensures Path(v) == [v / 0x8000000000 % 512, v / 0x40000000 % 512, v / 0x200000 % 512, v / 0x1000 % 512]
  {
    var n := v / 0x1000;
    FourDigits(n);
    Shifts(v);
  }

  lemma FourDigits(n: nat)
    ensures Indices(n, LEVELS) == [n / 512 / 512 / 512 % 512, n / 512 / 512 % 512, n / 512 % 512, n % 512]
  {
    var a := n / 512;
    var b := a / 512;
    var c := b / 512;
    assert Indices(c / 512, LEVELS - 4) == [];
    assert Indices(c, LEVELS - 3) == [] + [c % 512];
    assert Indices(b, LEVELS - 2) == Indices(c, LEVELS - 3) + [b % 512];
    assert Indices(a, LEVELS - 1) == Indices(b, LEVELS - 2) + [a % 512];
    assert Indices(n, LEVELS) == Indices(a, LEVELS - 1) + [n % 512];
  }

  lemma Shifts(v: nat)
    ensures v / 0x1000 / 512 == v / 0x200000 && v / 0x1000 / 512 / 512 == v / 0x40000000
    ensures v / 0x1000 / 512 / 512 / 512 == v / 0x8000000000
  {
  }

  lemma {:induction false} IndicesInjective(n: nat, m: nat, k: nat)
    requires Indices(n, k) == Indices(m, k) && Small(n, k) && Small(m, k)
    ensures n == m
  {
    if k > 0 {
      var a, b := Indices(n, k), Indices(m, k);
      assert a[..k - 1] == Indices(n / 512, k - 1) && b[..k - 1] == Indices(m / 512, k - 1);
      assert a[k - 1] == n % 512 && b[k - 1] == m % 512;
      IndicesInjective(n / 512, m / 512, k - 1);
    }
  }

  predicate Small(n: nat, k: nat) { if k == 0 then n == 0 else Small(n / 512, k - 1) }

  /** Addresses of different pages below 2^48 have different paths. */
  lemma PathInjective(a: nat, b: nat)
    requires a < 0x1_0000_0000_0000 && b < 0x1_0000_0000_0000 && Path(a) == Path(b)
    ensures a / 4096 == b / 4096
  {
    PageIsSmall(a / 4096);
    PageIsSmall(b / 4096);
    IndicesInjective(a / 4096, b / 4096, LEVELS);
  }

  lemma PageIsSmall(n: nat)
    requires n < 0x10_0000_0000
    ensures Small(n, LEVELS)
  {
    assert n / 512 / 512 / 512 / 512 == 0;
    assert Small(n / 512 / 512 / 512 / 512, LEVELS - 4);
    assert Small(n / 512 / 512 / 512, LEVELS - 3);
    assert Small(n / 512 / 512, LEVELS - 2);
  }

  predicate IsPath(p: seq<nat>) {
    forall k | 0 <= k < |p| :: p[k] < 512
  }

  /** walk_to_leaf() from table t: a leaf is a PT entry, or a PD entry with the huge bit. */
  function Lookup(m: Memory, t: nat, path: seq<nat>): Option<Pte>
    requires path != []
    decreases |path|
  {
    var e := Entry(m, t, path[0]);
    if !e.present then None
    else if |path| == 1 || (|path| == 2 && e.huge) then Some(e)
    else Lookup(m, e.frame, path[1..])
  }

  datatype Hit = Hit(leaf: Pte, user: bool, write: bool, exec: bool)

  /** The processor's walk: rights are the conjunction over every level. */
  function Translate(m: Memory, t: nat, path: seq<nat>): Option<Hit>
    requires path != []
    decreases |path|
  {
    var e := Entry(m, t, path[0]);
    if !e.present then None
    else if |path| == 1 || (|path| <= 3 && e.huge) then Some(Hit(e, e.user, e.writable, !e.nx))
    else match Translate(m, e.frame, path[1..])
      case None => None
      case Some(h) => Some(Hit(h.leaf, h.user && e.user, h.write && e.writable, h.exec && !e.nx))
  }

  /** The rights of the leaf alone. */
  function AsHit(e: Option<Pte>): Option<Hit> {
    match e
    case None => None
    case Some(e) => Some(Hit(e, e.user, e.writable, !e.nx))
  }

  /** The three "allocate if missing" steps of vmm_map_page(): the page table that `path` ends in. */
  function Reserve(m: Memory, t: nat, path: seq<nat>): Option<(Memory, nat)>
    requires path != []
    decreases |path|
  {
    if |path| == 1 then Some((m, t))
    else if Entry(m, t, path[0]).present then Reserve(m, Entry(m, t, path[0]).frame, path[1..])
    else match Pick(m.pool)
      case None => None
      case Some(f) => Reserve(Grow(m, t, path[0], f), f, path[1..])
  }

  function Grow(m: Memory, t: nat, i: nat, f: nat): Memory {
    SetEntry(NewPage(m, f, Blank()), t, i, LinkTo(f))
  }

  /** vmm_map_page(); None where the source panics. */
  function MapPage(m: Memory, root: nat, v: nat, f: nat, write: bool, exec: bool): Option<Memory> {
    if Path(v)[0] == 0 then None
    else match Reserve(m, root, Path(v))
      case None => None
      case Some((m1, pt)) => Some(SetEntry(m1, pt, Path(v)[3], Leaf(f, write, exec)))
  }

  // ---------------------------------------------------------------- the invariant

  /** Where a frame sits: under which root, and behind which indices. Four indices make a data page. */
  datatype Place = Place(root: nat, path: seq<nat>)

  type Places = map<nat, Place>

  predicate IsLink(e: Pte) {
    e.present && e.writable && e.user && !e.huge && !e.nx
  }

  /** Entry i of table t leads where the placement says, or is a leaf of the right kind. */
  ghost predicate EntryOk(m: Memory, place: Places, t: nat, i: nat)
    requires t in place
  {
    var e, p := Entry(m, t, i), place[t];
    e.present ==>
      if p.path == [] && i == 0 then
        IsLink(e) && e == Entry(m, m.kernel, 0) && At(place, e.frame, m.kernel, [0])
      else if |p.path| == 2 && p.path[0] == 0 then e.huge
      else if |p.path| <= 2 then IsLink(e) && At(place, e.frame, p.root, p.path + [i])
      else e.user && !e.huge && (e.frame in m.fb || At(place, e.frame, p.root, p.path + [i]))
  }

  ghost predicate At(place: Places, f: nat, root: nat, path: seq<nat>) {
    f in place && place[f] == Place(root, path)
  }

  ghost predicate FrameOk(m: Memory, place: Places, t: nat)
    requires t in place
  {
    var p := place[t];
    && |p.path| <= 4 && IsPath(p.path)
    && (p.path == [] ==> p.root == t)
    && (p.path != [] && p.path[0] == 0 ==> p.root == m.kernel && |p.path| <= 2)
    && (if |p.path| <= 3 then IsTable(m, t) else IsData(m, t))
    && t !in m.pool.free && t !in m.fb
  }

  ghost predicate Tree(m: Memory, place: Places) {
    && At(place, m.kernel, m.kernel, [])
    && m.fb !! m.pool.free
    && (forall t {:trigger FrameOk(m, place, t)} | t in place :: FrameOk(m, place, t))
    && (forall t, i {:trigger EntryOk(m, place, t, i)} |
          t in place && |place[t].path| <= 3 && 0 <= i < 512 :: EntryOk(m, place, t, i))
  }

  ghost predicate IsRoot(place: Places, r: nat) { At(place, r, r, []) }

  /** p completes the place of table u to a full four-index path. */
  ghost predicate Below(place: Places, u: nat, p: seq<nat>) {
    u in place && p != [] && IsPath(p) && |place[u].path| + |p| == 4
  }

  /** The path does not run through the shared kernel slot PML4[0]. */
  predicate Private(p: seq<nat>) { p != [] && p[0] != 0 }

  // ---------------------------------------------------------------- growing the tree

  ghost predicate Extends(place: Places, place': Places) {
    forall t | t in place :: t in place' && place'[t] == place[t]
  }

  lemma FreeIsUnplaced(m: Memory, place: Places, f: nat)
    requires Tree(m, place) && f in m.pool.free
    ensures f !in place
  {
    assert f in place ==> FrameOk(m, place, f);
  }

  lemma NewPageKeeps(m: Memory, place: Places, f: nat, data: seq<byte>, root: nat, path: seq<nat>)
    requires Tree(m, place) && f in m.pool.free && |data| == 4096
    requires |path| == 4 && IsPath(path) && path[0] != 0
    ensures Tree(NewPage(m, f, Bytes(data)), place[f := Place(root, path)])
  {
    var m', place' := NewPage(m, f, Bytes(data)), place[f := Place(root, path)];
    FreeIsUnplaced(m, place, f);
    forall t | t in place' ensures FrameOk(m', place', t) {
      assert t != f ==> FrameOk(m, place, t);
    }
    forall t, i | t in place' && |place'[t].path| <= 3 && 0 <= i < 512 ensures EntryOk(m', place', t, i) {
      assert EntryOk(m, place, t, i);
    }
  }

  lemma GrowKeeps(m: Memory, place: Places, t: nat, i: nat, f: nat)
    requires Tree(m, place) && f in m.pool.free && t in place && |place[t].path| <= 2 && i < 512
    requires Private(place[t].path + [i]) && !Entry(m, t, i).present
    ensures Tree(Grow(m, t, i, f), place[f := Place(place[t].root, place[t].path + [i])])
  {
    var m', place' := Grow(m, t, i, f), place[f := Place(place[t].root, place[t].path + [i])];
    assert FrameOk(m, place, t);
    FreeIsUnplaced(m, place, f);
    forall u | u in place' ensures FrameOk(m', place', u) {
      assert u != f ==> FrameOk(m, place, u);
    }
    forall u, j | u in place' && |place'[u].path| <= 3 && 0 <= j < 512 ensures EntryOk(m', place', u, j) {
      if u == f {
        assert !Entry(m', u, j).present;
      } else {
        assert EntryOk(m, place, u, j);
      }
    }
  }

  lemma LeafKeeps(m: Memory, place: Places, t: nat, i: nat, e: Pte)
    requires Tree(m, place) && t in place && |place[t].path| == 3 && i < 512
    requires e.user && !e.huge && (e.frame in m.fb || At(place, e.frame, place[t].root, place[t].path + [i]))
    ensures Tree(SetEntry(m, t, i, e), place)
  {
    var m' := SetEntry(m, t, i, e);
    assert FrameOk(m, place, t);
    forall u | u in place ensures FrameOk(m', place, u) {
      assert FrameOk(m, place, u);
    }
    forall u, j | u in place && |place[u].path| <= 3 && 0 <= j < 512 ensures EntryOk(m', place, u, j) {
      assert EntryOk(m, place, u, j);
    }
  }

  /** The child reached from table u along p is placed one index deeper (or in the kernel's tree). */
  lemma ChildPlace(m: Memory, place: Places, u: nat, p: seq<nat>)
    requires Tree(m, place) && Below(place, u, p) && |p| >= 2
    requires Entry(m, u, p[0]).present && !(|p| == 2 && Entry(m, u, p[0]).huge)
    ensures Below(place, Entry(m, u, p[0]).frame, p[1..])
    ensures Private(place[u].path + p) ==> At(place, Entry(m, u, p[0]).frame, place[u].root, place[u].path + [p[0]])
    ensures !Private(place[u].path + p) ==>
              place[Entry(m, u, p[0]).frame].path != [] && place[Entry(m, u, p[0]).frame].path[0] == 0
    ensures IsLink(Entry(m, u, p[0]))
  {
    assert FrameOk(m, place, u);
    assert EntryOk(m, place, u, p[0]);
  }

  /** Two memories whose entries differ at most at (t, i), in tables placed by `place`. */
  ghost predicate DifferAt(m: Memory, m': Memory, place: Places, t: nat, i: nat) {
    forall u, j | u in place && 0 <= j < 512 && (u, j) != (t, i) :: Entry(m', u, j) == Entry(m, u, j)
  }

  /** A change at (t, i) that no lookup starting there notices is noticed by no lookup at all. */
  lemma {:induction false} LookupKept(m: Memory, m': Memory, place: Places, t: nat, i: nat, u: nat, p: seq<nat>)
    requires Tree(m, place) && Below(place, u, p) && t in place && DifferAt(m, m', place, t, i)
    requires forall q | Below(place, t, q) && q[0] == i :: Lookup(m', t, q) == Lookup(m, t, q)
    ensures Lookup(m', u, p) == Lookup(m, u, p)
    decreases |p|
  {
    if (u, p[0]) != (t, i) {
      var e := Entry(m, u, p[0]);
      assert Entry(m', u, p[0]) == e;
      if e.present && |p| >= 2 && !(|p| == 2 && e.huge) {
        ChildPlace(m, place, u, p);
        LookupKept(m, m', place, t, i, e.frame, p[1..]);
      }
    }
  }

  lemma GrowLookup(m: Memory, place: Places, t: nat, i: nat, f: nat, u: nat, p: seq<nat>)
    requires Tree(m, place) && f in m.pool.free && t in place && |place[t].path| <= 2 && i < 512
    requires !Entry(m, t, i).present && Below(place, u, p)
    ensures Lookup(Grow(m, t, i, f), u, p) == Lookup(m, u, p)
  {
    var m' := Grow(m, t, i, f);
    assert FrameOk(m, place, t);
    FreeIsUnplaced(m, place, f);
    forall q | Below(place, t, q) && q[0] == i ensures Lookup(m', t, q) == Lookup(m, t, q) {
      assert !Entry(m', f, q[1]).present;
      assert q[1..][0] == q[1];
    }
    LookupKept(m, m', place, t, i, u, p);
  }

  lemma NewPageLookup(m: Memory, place: Places, f: nat, page: Page, u: nat, p: seq<nat>)
    requires Tree(m, place) && f in m.pool.free && Below(place, u, p)
    ensures Lookup(NewPage(m, f, page), u, p) == Lookup(m, u, p)
  {
    FreeIsUnplaced(m, place, f);
    LookupUntouched(m, NewPage(m, f, page), place, u, p);
  }

  /** Memories that agree on every placed table agree on every lookup. */
  lemma {:induction false} LookupUntouched(m: Memory, m': Memory, place: Places, u: nat, p: seq<nat>)
    requires Tree(m, place) && Below(place, u, p)
    requires forall x, j | x in place && 0 <= j < 512 :: Entry(m', x, j) == Entry(m, x, j)
    ensures Lookup(m', u, p) == Lookup(m, u, p)
    decreases |p|
  {
    var e := Entry(m, u, p[0]);
    assert Entry(m', u, p[0]) == e;
    if e.present && |p| >= 2 && !(|p| == 2 && e.huge) {
      ChildPlace(m, place, u, p);
      LookupUntouched(m, m', place, e.frame, p[1..]);
    }
  }

  /** Writing a leaf changes the lookup of no other page, in this or any other address space. */
  lemma {:induction false} LeafElsewhere(m: Memory, place: Places, t: nat, i: nat, e: Pte, u: nat, p: seq<nat>)
    requires Tree(m, place) && t in place && |place[t].path| == 3 && i < 512 && Private(place[t].path)
    requires Below(place, u, p) && (place[u].root, place[u].path + p) != (place[t].root, place[t].path + [i])
    ensures Lookup(SetEntry(m, t, i, e), u, p) == Lookup(m, u, p)
    decreases |p|
  {
    var m' := SetEntry(m, t, i, e);
    assert FrameOk(m, place, t) && FrameOk(m, place, u);
    if u == t {
      assert place[u].path + p != place[t].path + [i];
      assert p == [p[0]];
    }
    assert (u, p[0]) != (t, i);
    var c := Entry(m, u, p[0]);
    assert Entry(m', u, p[0]) == c;
    if c.present && |p| >= 2 && !(|p| == 2 && c.huge) {
      ChildPlace(m, place, u, p);
      assert place[u].path + p == (place[u].path + [p[0]]) + p[1..];
      assert (place[t].path + [i])[0] != 0;
      assert Private(place[u].path + p) || (place[c.frame].path + p[1..])[0] == 0;
      LeafElsewhere(m, place, t, i, e, c.frame, p[1..]);
    }
  }

  // ---------------------------------------------------------------- vmm_map_page()

  /** What reserving or mapping leaves alone besides lookups: the data pages, and who the frames belong to. */
  ghost predicate Later(m: Memory, place: Places, m': Memory, place': Places) {
    && m'.kernel == m.kernel && m'.fb == m.fb && m'.pool.free <= m.pool.free && m'.pool.bits == m.pool.bits
    && Extends(place, place')
    && (forall t | t in place' && t !in place :: t in m.pool.free)
    && (forall t | t in place && |place[t].path| == 4 :: t in m.ram && t in m'.ram && m'.ram[t] == m.ram[t])
  }

  /** The table that holds the last index of `path`, reached by following links only. */
  ghost predicate Leads(m: Memory, t: nat, path: seq<nat>, pt: nat)
    requires path != []
    decreases |path|
  {
    if |path| == 1 then pt == t
    else IsLink(Entry(m, t, path[0])) && Leads(m, Entry(m, t, path[0]).frame, path[1..], pt)
  }

  ghost predicate SameLookups(m: Memory, place: Places, m': Memory) {
    forall u, p | Below(place, u, p) :: Lookup(m', u, p) == Lookup(m, u, p)
  }

  /** One level of the descent: follow the link, or allocate a table and link it in. */
  lemma ReserveStep(m: Memory, place: Places, t: nat, path: seq<nat>) returns (m1: Memory, place1: Places, c: nat)
    requires Tree(m, place) && Below(place, t, path) && |path| >= 2 && Private(place[t].path + path)
    requires Reserve(m, t, path).Some?
    ensures Tree(m1, place1) && Later(m, place, m1, place1)
    ensures At(place1, c, place[t].root, place[t].path + [path[0]])
    ensures Reserve(m, t, path) == Reserve(m1, c, path[1..])
    ensures Entry(m1, t, path[0]) == LinkTo(c) && SameLookups(m, place, m1)
    ensures forall u, j | u in place && u != t :: Entry(m1, u, j) == Entry(m, u, j)
  {
    var i := path[0];
    m1, place1, c := m, place, Entry(m, t, i).frame;
    forall x | x in place ensures FrameOk(m, place, x) { }
    if Entry(m, t, i).present {
      if |path| == 2 { NotHuge(m, place, t, i); }
      ChildPlace(m, place, t, path);
    } else {
      c := Pick(m.pool).value;
      m1, place1 := Grow(m, t, i, c), place[c := Place(place[t].root, place[t].path + [i])];
      assert Private(place[t].path + [i]);
      GrowKeeps(m, place, t, i, c);
      FreeIsUnplaced(m, place, c);
      forall u, p | Below(place, u, p) ensures Lookup(m1, u, p) == Lookup(m, u, p) {
        GrowLookup(m, place, t, i, c, u, p);
      }
    }
  }

  lemma LaterTrans(m: Memory, place: Places, m1: Memory, place1: Places, m2: Memory, place2: Places)
    requires Later(m, place, m1, place1) && Later(m1, place1, m2, place2)
    ensures Later(m, place, m2, place2)
  {
  }

  lemma PathStep(a: seq<nat>, p: seq<nat>)
    requires |p| >= 2
    ensures a + p == (a + [p[0]]) + p[1..]
    ensures (a + [p[0]]) + p[1..][..|p| - 2] == a + p[..|p| - 1]
  {
    assert p[1..][..|p| - 2] == p[1..|p| - 1];
  }

  lemma {:induction false} ReserveKeeps(m: Memory, place: Places, t: nat, path: seq<nat>) returns (place': Places)
    requires Tree(m, place) && Below(place, t, path) && Private(place[t].path + path)
    requires Reserve(m, t, path).Some?
    ensures var (m', pt) := Reserve(m, t, path).value;
            && Tree(m', place') && Later(m, place, m', place') && SameLookups(m, place, m')
            && At(place', pt, place[t].root, place[t].path + path[..|path| - 1])
            && Leads(m', t, path, pt)
            && (forall u, j | u in place && |place[u].path| < |place[t].path| :: Entry(m', u, j) == Entry(m, u, j))
    decreases |path|
  {
    if |path| == 1 {
      place' := place;
      assert place[t].path + path[..0] == place[t].path;
      forall u | u in place && |place[u].path| == 4 ensures u in m.ram { assert FrameOk(m, place, u); }
    } else {
      var m1, place1, c := ReserveStep(m, place, t, path);
      PathStep(place[t].path, path);
      place' := ReserveKeeps(m1, place1, c, path[1..]);
      var m' := Reserve(m, t, path).value.0;
      LaterTrans(m, place, m1, place1, m', place');
      LookupsTrans(m, place, m1, place1, m');
      assert Entry(m', t, path[0]) == LinkTo(c);
    }
  }

  lemma LookupsTrans(m: Memory, place: Places, m1: Memory, place1: Places, m2: Memory)
    requires SameLookups(m, place, m1) && SameLookups(m1, place1, m2) && Extends(place, place1)
    ensures SameLookups(m, place, m2)
  {
    forall u, p | Below(place, u, p) ensures Lookup(m2, u, p) == Lookup(m, u, p) {
      assert Below(place1, u, p);
      assert Lookup(m1, u, p) == Lookup(m, u, p);
    }
  }

  /** A leaf stored in the table a path leads to is what the walk along that path then finds. */
  lemma {:induction false} LeadsToLeaf(m: Memory, place: Places, t: nat, path: seq<nat>, pt: nat, e: Pte)
    requires Tree(m, place) && Below(place, t, path) && Leads(m, t, path, pt) && Private(place[t].path + path)
    requires pt in place && |place[pt].path| == 3 && e.present
    ensures Lookup(SetEntry(m, pt, path[|path| - 1], e), t, path) == Some(e)
    decreases |path|
  {
    assert FrameOk(m, place, pt) && FrameOk(m, place, t);
    if |path| > 1 {
      ChildPlace(m, place, t, path);
      PathStep(place[t].path, path);
      LeadsToLeaf(m, place, Entry(m, t, path[0]).frame, path[1..], pt, e);
    }
  }

  lemma NotHuge(m: Memory, place: Places, t: nat, i: nat)
    requires Tree(m, place) && t in place && |place[t].path| == 2 && i < 512 && Private(place[t].path)
    requires Entry(m, t, i).present
    ensures !Entry(m, t, i).huge
  {
    assert EntryOk(m, place, t, i);
  }
  /**
   vmm_map_page() keeps the forest of tables in shape, whether it allocates none, one,
   two or three tables on the way.
   */
  lemma MapKeeps(m: Memory, place: Places, root: nat, v: nat, f: nat, write: bool, exec: bool)
    returns (place': Places)
    requires Tree(m, place) && IsRoot(place, root) && MapPage(m, root, v, f, write, exec).Some?
    requires f in m.fb || At(place, f, root, Path(v))
    ensures Tree(MapPage(m, root, v, f, write, exec).value, place')
    ensures Later(m, place, MapPage(m, root, v, f, write, exec).value, place')
  {
    assert [] + Path(v) == Path(v);
    place' := ReserveKeeps(m, place, root, Path(v));
    var (m1, pt) := Reserve(m, root, Path(v)).value;
    assert [] + Path(v)[..3] + [Path(v)[3]] == Path(v);
    LeafKeeps(m1, place', pt, Path(v)[3], Leaf(f, write, exec));
    assert FrameOk(m1, place', pt);
  }

  /** Storing a leaf in a bottom table leaves the processor and the kernel agreed on every page. */
  lemma {:induction false} LeafAgrees(m: Memory, place: Places, pt: nat, i: nat, e: Pte, u: nat, p: seq<nat>)
    requires Tree(m, place) && pt in place && |place[pt].path| == 3 && Below(place, u, p)
    ensures var m' := SetEntry(m, pt, i, e);
            Translate(m', u, p) == AsHit(Lookup(m', u, p))
    decreases |p|
  {
    var c := Entry(m, u, p[0]);
    assert u != pt ==> Entry(SetEntry(m, pt, i, e), u, p[0]) == c;
    if c.present && |p| >= 2 && !(|p| == 2 && c.huge) {
      ChildPlace(m, place, u, p);
      LeafAgrees(m, place, pt, i, e, c.frame, p[1..]);
    }
  }

  /** The state just before vmm_map_page() stores its leaf. */
  lemma MapStages(m: Memory, place: Places, root: nat, v: nat, f: nat, write: bool, exec: bool)
    returns (m1: Memory, place1: Places, pt: nat)
    requires Tree(m, place) && IsRoot(place, root) && MapPage(m, root, v, f, write, exec).Some?
    ensures MapPage(m, root, v, f, write, exec) == Some(SetEntry(m1, pt, Path(v)[3], Leaf(f, write, exec)))
    ensures Tree(m1, place1) && Extends(place, place1) && SameLookups(m, place, m1)
    ensures At(place1, pt, root, Path(v)[..3]) && Leads(m1, root, Path(v), pt) && Path(v)[0] != 0
  {
    assert [] + Path(v) == Path(v) && [] + Path(v)[..3] == Path(v)[..3];
    place1 := ReserveKeeps(m, place, root, Path(v));
    m1, pt := Reserve(m, root, Path(v)).value.0, Reserve(m, root, Path(v)).value.1;
  }

  /**
   vmm_map_page() is a map update of what the processor sees: v hits a 4 KiB leaf with
   frame f, for ring 3, writable and executable exactly as asked, and every other page of
   this and of every other address space translates as before.
   */
  lemma MapRefines(m: Memory, place: Places, root: nat, v: nat, f: nat, write: bool, exec: bool, r: nat, p: seq<nat>)
    requires Tree(m, place) && IsRoot(place, root) && MapPage(m, root, v, f, write, exec).Some?
    requires IsRoot(place, r) && |p| == 4 && IsPath(p)
    ensures var m' := MapPage(m, root, v, f, write, exec).value;
            if (r, p) != (root, Path(v)) then
              Lookup(m', r, p) == Lookup(m, r, p) && Translate(m', r, p) == Translate(m, r, p)
            else
              && Lookup(m', r, p) == Some(Leaf(f, write, exec))
              && var h := Translate(m', r, p);
              && h.Some? && h.value.leaf.frame == f && !h.value.leaf.huge
              && h.value.user && h.value.write == write && h.value.exec == exec
  {
    assert [] + Path(v) == Path(v) && [] + p == p;
    var m1, place1, pt := MapStages(m, place, root, v, f, write, exec);
    assert Below(place, r, p) && Below(place1, r, p);
    assert Path(v)[..3] + [Path(v)[3]] == Path(v);
    LeafAgrees(m1, place1, pt, Path(v)[3], Leaf(f, write, exec), r, p);
    HardwareAgrees(m, place, r, p);
    if (r, p) == (root, Path(v)) {
      LeadsToLeaf(m1, place1, root, Path(v), pt, Leaf(f, write, exec));
    } else {
      LeafElsewhere(m1, place1, pt, Path(v)[3], Leaf(f, write, exec), r, p);
    }
  }

  /** The descent fails only when the page pool runs dry on the way, and takes at most one page a level. */
  lemma {:induction false} ReserveFails(m: Memory, t: nat, path: seq<nat>)
    requires path != [] && Tracked(m.pool)
    ensures Reserve(m, t, path).None? ==> |m.pool.free| < |path| - 1
    ensures Reserve(m, t, path).Some? ==>
              var p' := Reserve(m, t, path).value.0.pool;
              Tracked(p') && p'.bits == m.pool.bits && |p'.free| + |path| - 1 >= |m.pool.free|
    decreases |path|
  {
    TakesOne(m.pool);
    if |path| > 1 {
      if Entry(m, t, path[0]).present {
        ReserveFails(m, Entry(m, t, path[0]).frame, path[1..]);
      } else if Pick(m.pool).Some? {
        var f := Pick(m.pool).value;
        ReserveFails(Grow(m, t, path[0], f), f, path[1..]);
      }
    }
  }

  /**
   vmm_map_page() panics for an address in the shared kernel slot, and otherwise at most when
   fewer than three pages are free; it takes no more than three.
   */
  lemma MapPanics(m: Memory, root: nat, v: nat, f: nat, write: bool, exec: bool)
    requires Tracked(m.pool)
    ensures v / 0x80_0000_0000 % 512 == 0 ==> MapPage(m, root, v, f, write, exec).None?
    ensures v / 0x80_0000_0000 % 512 != 0 && |m.pool.free| >= 3 ==> MapPage(m, root, v, f, write, exec).Some?
    ensures MapPage(m, root, v, f, write, exec).Some? ==>
              var p' := MapPage(m, root, v, f, write, exec).value.pool;
              Tracked(p') && p'.bits == m.pool.bits && |p'.free| + 3 >= |m.pool.free|
  {
    PathBits(v);
    ReserveFails(m, root, Path(v));
  }

  // ---------------------------------------------------------------- the hardware's view

  /**
   The processor's walk, level by level: it stops at an entry that is not present, a PDPT or PD
   entry with the huge bit is a leaf, and a right is granted only if all entries passed grant it.
   */
  lemma WalkInFull(m: Memory, root: nat, p: seq<nat>)
    requires |p| == 4
    ensures var e0 := Entry(m, root, p[0]);
            var e1 := Entry(m, e0.frame, p[1]);
            var e2 := Entry(m, e1.frame, p[2]);
            var e3 := Entry(m, e2.frame, p[3]);
            Translate(m, root, p)
            == if !e0.present || !e1.present then None
               else if e1.huge then
                 Some(Hit(e1, e0.user && e1.user, e0.writable && e1.writable, !e0.nx && !e1.nx))
               else if !e2.present then None
               else if e2.huge then
                 Some(Hit(e2, e0.user && e1.user && e2.user, e0.writable && e1.writable && e2.writable,
                          !e0.nx && !e1.nx && !e2.nx))
               else if !e3.present then None
               else
                 Some(Hit(e3, e0.user && e1.user && e2.user && e3.user,
                          e0.writable && e1.writable && e2.writable && e3.writable,
                          !e0.nx && !e1.nx && !e2.nx && !e3.nx))
  {
    var e0 := Entry(m, root, p[0]);
    var e1 := Entry(m, e0.frame, p[1]);
    var e2 := Entry(m, e1.frame, p[2]);
    var a, b, c := p[1..], p[1..][1..], p[1..][1..][1..];
    assert a[0] == p[1] && b[0] == p[2] && c[0] == p[3] && |c| == 1;
    assert Translate(m, e2.frame, c) == if Entry(m, e2.frame, p[3]).present then AsHit(Some(Entry(m, e2.frame, p[3]))) else None;
    assert Translate(m, e1.frame, b).Some? == (e2.present && (e2.huge || Translate(m, e2.frame, c).Some?));
    assert Translate(m, e0.frame, a).Some? == (e1.present && (e1.huge || Translate(m, e1.frame, b).Some?));
  }

  /**
   The processor checks every level, the kernel only the leaf. They agree because every
   link ever built is present, writable, user and executable.
   */
  lemma {:induction false} HardwareAgrees(m: Memory, place: Places, u: nat, p: seq<nat>)
    requires Tree(m, place) && Below(place, u, p)
    ensures Translate(m, u, p) == AsHit(Lookup(m, u, p))
    decreases |p|
  {
    var e := Entry(m, u, p[0]);
    if e.present && |p| >= 2 && !(|p| == 2 && e.huge) {
      ChildPlace(m, place, u, p);
      HardwareAgrees(m, place, e.frame, p[1..]);
    }
  }

  /** May ring 3 read (or write) address a in the address space of `root`? */
  ghost predicate UserMay(m: Memory, root: nat, a: nat, write: bool) {
    var h := Translate(m, root, Path(a));
    h.Some? && h.value.user && (write ==> h.value.write)
  }

  /** The test vmm_check_range() makes on one page: leaf bits only. */
  predicate LeafAllows(m: Memory, root: nat, a: nat, write: bool) {
    var e := Lookup(m, root, Path(a));
    e.Some? && e.value.user && (write ==> e.value.writable)
  }

  lemma LeafIsEnough(m: Memory, place: Places, root: nat, a: nat, write: bool)
    requires Tree(m, place) && IsRoot(place, root)
    ensures LeafAllows(m, root, a, write) <==> UserMay(m, root, a, write)
  {
    HardwareAgrees(m, place, root, Path(a));
  }

  lemma SamePagePath(a: nat, b: nat)
    requires a / 0x1000 == b / 0x1000
    ensures Path(a) == Path(b)
  {
  }

  /** One page of the check settles every address in it. */
  lemma PageVerdict(m: Memory, place: Places, root: nat, page: nat, write: bool, a: nat)
    requires Tree(m, place) && IsRoot(place, root) && page % 0x1000 == 0 && page <= a < page + 0x1000
    ensures UserMay(m, root, a, write) <==> LeafAllows(m, root, page, write)
  {
    LeafIsEnough(m, place, root, page, write);
    SamePagePath(a, page);
  }

  /**
   vmm_check_range() over a range that wraps (refused) or is canonical in the low half:
   1 exactly when ring 3 may access every byte of it.
   */
  method CheckRange(m: Memory, ghost place: Places, root: nat, v: nat, len: nat, write: bool) returns (ok: bool)
    requires Tree(m, place) && IsRoot(place, root)
    requires v < 0x1_0000_0000_0000_0000 && len < 0x1_0000_0000_0000_0000
    requires v + len <= 0x8000_0000_0000 || v + len >= 0x1_0000_0000_0000_0000
    ensures v + len <= 0x8000_0000_0000 ==> (ok <==> forall a | v <= a < v + len :: UserMay(m, root, a, write))
    ensures v + len >= 0x1_0000_0000_0000_0000 ==> (ok <==> len == 0)
  {
    if len == 0 {
      return true;
    }
    if (v + len) % 0x1_0000_0000_0000_0000 < v {
      return false;
    }
    var page := v - v % 0x1000;
    while page < v + len
      invariant page % 0x1000 == 0 && v - v % 0x1000 <= page
      invariant forall a | v <= a < v + len && a < page :: UserMay(m, root, a, write)
    {
      forall a | page <= a < page + 0x1000
        ensures UserMay(m, root, a, write) <==> LeafAllows(m, root, page, write)
      {
        PageVerdict(m, place, root, page, write, a);
      }
      if !LeafAllows(m, root, page, write) {
        assert !UserMay(m, root, if v < page then page else v, write);
        return false;
      }
      page := page + 0x1000;
    }
    return true;
  }
}
