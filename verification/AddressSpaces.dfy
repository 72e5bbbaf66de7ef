/**
 Address spaces over the page tables: vmm_init() and vmm_create_address_space() of
 kernel/src/vmm.c, and the "allocate, fill, map" step that the ELF loader, the stack
 fault handler and SYS_SBRK share.
 */
module AddressSpaces {
  import opened Common
  import opened PagePool
  import opened PageTables

  // ---------------------------------------------------------------- vmm_init()

  /** A 2 MiB identity leaf; only the first 4 MiB are user-accessible and executable. */
  function Identity(gib: nat, i: nat): Pte {
    var phys := gib * 0x40000000 + i * 0x200000;
    Pte(phys / 4096, true, true, phys < 0x400000, true, phys >= 0x400000)
  }

  function IdentityTable(gib: nat): Page { Table(seq(512, i requires 0 <= i => Identity(gib, i))) }

  /** The loop of vmm_init() over the first four gigabytes, from gigabyte g on. */
  function MapLow(m: Memory, pdpt: nat, g: nat): Option<Memory>
    decreases 4 - g
  {
    if g >= 4 then Some(m)
    else match Pick(m.pool)
      case None => None
      case Some(f) => MapLow(SetEntry(NewPage(m, f, IdentityTable(g)), pdpt, g, LinkTo(f)), pdpt, g + 1)
  }

  /** vmm_init() from a machine whose page pool and framebuffer are given. */
  function Boot(pool: Pool, fb: set<nat>): Option<Memory> {
    match Pick(pool)
    case None => None
    case Some(k) =>
      var m := NewPage(Memory(map[], pool, k, fb), k, Blank());
      match Pick(m.pool)
      case None => None
      case Some(d) => MapLow(SetEntry(NewPage(m, d, Blank()), k, 0, LinkTo(d)), d, 0)
  }

  /** Newly placed frames, and those still free, come from the old pool. */
  ghost predicate TakenFrom(m: Memory, place: Places, m': Memory, place': Places) {
    m'.pool.free <= m.pool.free && forall t | t in place' && t !in place :: t in m.pool.free
  }

  lemma {:induction false} MapLowKeeps(m: Memory, place: Places, pdpt: nat, g: nat) returns (place': Places)
    requires Tree(m, place) && At(place, pdpt, m.kernel, [0]) && MapLow(m, pdpt, g).Some?
    ensures Tree(MapLow(m, pdpt, g).value, place') && IsRoot(place', MapLow(m, pdpt, g).value.kernel)
    ensures MapLow(m, pdpt, g).value.kernel == m.kernel
    ensures TakenFrom(m, place, MapLow(m, pdpt, g).value, place')
    decreases 4 - g
  {
    place' := place;
    if g < 4 {
      var f := Pick(m.pool).value;
      FreeIsUnplaced(m, place, f);
      var m1 := SetEntry(NewPage(m, f, IdentityTable(g)), pdpt, g, LinkTo(f));
      var place1 := place[f := Place(m.kernel, [0, g])];
      IdentityKeeps(m, place, pdpt, g, f);
      place' := MapLowKeeps(m1, place1, pdpt, g + 1);
    }
  }

  lemma IdentityKeeps(m: Memory, place: Places, pdpt: nat, g: nat, f: nat)
    requires Tree(m, place) && At(place, pdpt, m.kernel, [0]) && g < 4 && f in m.pool.free && f !in place
    ensures Tree(SetEntry(NewPage(m, f, IdentityTable(g)), pdpt, g, LinkTo(f)), place[f := Place(m.kernel, [0, g])])
  {
    var m1 := SetEntry(NewPage(m, f, IdentityTable(g)), pdpt, g, LinkTo(f));
    var place1 := place[f := Place(m.kernel, [0, g])];
    assert FrameOk(m, place, pdpt);
    forall u | u in place1 ensures FrameOk(m1, place1, u) {
      assert u != f ==> FrameOk(m, place, u);
    }
    forall u, j | u in place1 && |place1[u].path| <= 3 && 0 <= j < 512 ensures EntryOk(m1, place1, u, j) {
      assert u != f ==> EntryOk(m, place, u, j);
      assert u == pdpt && j == g ==> [0] + [g] == [0, g];
    }
  }

  /** The kernel's root and its one PDPT, before the loop over the gigabytes. */
  lemma BootStart(pool: Pool, fb: set<nat>) returns (m: Memory, place: Places, d: nat)
    requires fb !! pool.free && Boot(pool, fb).Some?
    ensures Tree(m, place) && At(place, d, m.kernel, [0]) && MapLow(m, d, 0) == Boot(pool, fb)
    ensures Entry(m, m.kernel, 0) == LinkTo(d) && forall i :: !Entry(m, d, i).present
    ensures Some(m.kernel) == Pick(pool) && m.pool.free <= pool.free && forall t | t in place :: t in pool.free
  {
    var k := Pick(pool).value;
    var m0 := NewPage(Memory(map[], pool, k, fb), k, Blank());
    d := Pick(m0.pool).value;
    m := SetEntry(NewPage(m0, d, Blank()), k, 0, LinkTo(d));
    place := map[k := Place(k, []), d := Place(k, [0])];
    forall u | u in place ensures FrameOk(m, place, u) { }
    forall u, j | u in place && |place[u].path| <= 3 && 0 <= j < 512 ensures EntryOk(m, place, u, j) { }
  }

  /** The tables vmm_init() leaves behind start the invariant. */
  lemma BootTree(pool: Pool, fb: set<nat>) returns (place: Places)
    requires fb !! pool.free && Boot(pool, fb).Some?
    ensures Tree(Boot(pool, fb).value, place) && IsRoot(place, Boot(pool, fb).value.kernel)
    ensures Some(Boot(pool, fb).value.kernel) == Pick(pool)
    ensures Boot(pool, fb).value.pool.free <= pool.free && forall t | t in place :: t in pool.free
  {
    var m, start, d := BootStart(pool, fb);
    place := MapLowKeeps(m, start, d, 0);
  }

  /** One gigabyte of the identity map: its 2 MiB leaves appear, and nothing else below the PDPT changes. */
  lemma LowStep(m: Memory, place: Places, pdpt: nat, g: nat, f: nat, q: seq<nat>)
    requires Tree(m, place) && At(place, pdpt, m.kernel, [0]) && g < 4 && f in m.pool.free && |q| == 3 && IsPath(q)
    ensures var m1 := SetEntry(NewPage(m, f, IdentityTable(g)), pdpt, g, LinkTo(f));
            Lookup(m1, pdpt, q) == if q[0] == g then Some(Identity(g, q[1])) else Lookup(m, pdpt, q)
  {
    var m1 := SetEntry(NewPage(m, f, IdentityTable(g)), pdpt, g, LinkTo(f));
    FreeIsUnplaced(m, place, f);
    assert FrameOk(m, place, pdpt) && EntryOk(m, place, pdpt, q[0]);
    var e := Entry(m1, pdpt, q[0]);
    if q[0] == g {
      assert q[1..][0] == q[1] && Entry(m1, f, q[1]) == Identity(g, q[1]);
    } else if e.present {
      assert [0] + [q[0]] == [0, q[0]];
      assert At(place, e.frame, m.kernel, [0, q[0]]);
      assert EntryOk(m, place, e.frame, q[1]) && q[1..][0] == q[1];
      assert Entry(m1, e.frame, q[1]) == Entry(m, e.frame, q[1]);
    }
  }

  lemma {:induction false} MapLowIs(m: Memory, place: Places, pdpt: nat, g: nat, q: seq<nat>)
    requires Tree(m, place) && At(place, pdpt, m.kernel, [0]) && MapLow(m, pdpt, g).Some? && |q| == 3 && IsPath(q)
    ensures var m' := MapLow(m, pdpt, g).value;
            && Lookup(m', pdpt, q) == (if g <= q[0] < 4 then Some(Identity(q[0], q[1])) else Lookup(m, pdpt, q))
            && Entry(m', m.kernel, 0) == Entry(m, m.kernel, 0)
    decreases 4 - g
  {
    if g < 4 {
      var f := Pick(m.pool).value;
      FreeIsUnplaced(m, place, f);
      IdentityKeeps(m, place, pdpt, g, f);
      LowStep(m, place, pdpt, g, f, q);
      var m1 := SetEntry(NewPage(m, f, IdentityTable(g)), pdpt, g, LinkTo(f));
      MapLowIs(m1, place[f := Place(m.kernel, [0, g])], pdpt, g + 1, q);
    }
  }

  /** What the kernel slot translates to: 2 MiB identity pages for the first four gigabytes, nothing above. */
  function LowLeaf(p: seq<nat>): Option<Pte>
    requires |p| == 4
  {
    if p[1] < 4 then Some(Identity(p[1], p[2])) else None
  }

  lemma BootLow(pool: Pool, fb: set<nat>, p: seq<nat>)
    requires fb !! pool.free && Boot(pool, fb).Some? && |p| == 4 && IsPath(p) && p[0] == 0
    ensures Lookup(Boot(pool, fb).value, Boot(pool, fb).value.kernel, p) == LowLeaf(p)
  {
    var m1, place, d := BootStart(pool, fb);
    MapLowIs(m1, place, d, 0, p[1..]);
    var _ := MapLowKeeps(m1, place, d, 0);
  }

  lemma LowAddress(a: nat)
    requires a < 0x80_0000_0000
    ensures Path(a)[0] == 0 && (Path(a)[1] < 4 <==> a < 0x1_0000_0000)
    ensures a < 0x1_0000_0000 ==> 0x40000000 * Path(a)[1] + 0x200000 * Path(a)[2] + a % 0x200000 == a
  {
    PathBits(a);
  }

  lemma IdentityAt(g: nat, i: nat, a: nat)
    requires 0x40000000 * g + 0x200000 * i + a % 0x200000 == a
    ensures var e := Identity(g, i);
            && e.present && e.writable && e.huge && e.frame * 4096 + a % 0x200000 == a
            && e.user == (a < 0x400000) && e.nx == (a >= 0x400000)
  {
    var phys := g * 0x40000000 + i * 0x200000;
    assert phys == 4096 * (g * 0x40000 + i * 0x200);
    assert phys < 0x400000 <==> g == 0 && i < 2;
  }

  /**
   vmm_init() maps the first 4 GiB to themselves in pages of 2 MiB, writable, for ring 3 and
   executable exactly below 4 MiB, and nothing above them in the kernel's slot.
   */
  lemma BootIdentity(pool: Pool, fb: set<nat>, a: nat)
    requires fb !! pool.free && Boot(pool, fb).Some? && a < 0x80_0000_0000
    ensures var m := Boot(pool, fb).value; var h := Translate(m, m.kernel, Path(a));
            if a >= 0x1_0000_0000 then h.None?
            else
              && h.Some? && h.value.leaf.huge && h.value.leaf.frame * 4096 + a % 0x200000 == a
              && h.value.write && h.value.user == (a < 0x400000) && h.value.exec == (a < 0x400000)
  {
    var place := BootTree(pool, fb);
    var m, p := Boot(pool, fb).value, Path(a);
    LowAddress(a);
    BootLow(pool, fb, p);
    HardwareAgrees(m, place, m.kernel, p);
    if a < 0x1_0000_0000 { IdentityAt(p[1], p[2], a); }
  }

  lemma {:induction false} MapLowPanics(m: Memory, pdpt: nat, g: nat)
    requires Tracked(m.pool) && g <= 4
    ensures MapLow(m, pdpt, g).Some? <==> |m.pool.free| >= 4 - g
    decreases 4 - g
  {
    TakesOne(m.pool);
    if g < 4 && Pick(m.pool).Some? {
      var f := Pick(m.pool).value;
      MapLowPanics(SetEntry(NewPage(m, f, IdentityTable(g)), pdpt, g, LinkTo(f)), pdpt, g + 1);
    }
  }

  /** vmm_init() needs six pages, and panics with fewer. */
  lemma BootPanics(pool: Pool, fb: set<nat>)
    requires Tracked(pool)
    ensures Boot(pool, fb).Some? <==> |pool.free| >= 6
  {
    TakesOne(pool);
    if Pick(pool).Some? {
      var k := Pick(pool).value;
      var m := NewPage(Memory(map[], pool, k, fb), k, Blank());
      TakesOne(m.pool);
      if Pick(m.pool).Some? {
        var d := Pick(m.pool).value;
        MapLowPanics(SetEntry(NewPage(m, d, Blank()), k, 0, LinkTo(d)), d, 0);
      }
    }
  }

  // ---------------------------------------------------------------- vmm_create_address_space()

  const PRIVATE_PATH: seq<nat> := [1, 0, 0, 0]

  function NewRoot(m: Memory, r: nat): Memory {
    SetEntry(NewPage(m, r, Blank()), r, 0, Entry(m, m.kernel, 0))
  }

  /** The new address space and its root, or None where the source panics. */
  function CreateSpace(m: Memory): Option<(Memory, nat)> {
    match Pick(m.pool)
    case None => None
    case Some(r) =>
      match Reserve(NewRoot(m, r), r, PRIVATE_PATH)
      case None => None
      case Some((m1, pt)) =>
        match Pick(m1.pool)
        case None => None
        case Some(q) => Some((SetEntry(NewPage(m1, q, Bytes(Zeros(4096))), pt, 0, Leaf(q, true, true)), r))
  }

  lemma NewRootKeeps(m: Memory, place: Places, r: nat)
    requires Tree(m, place) && r in m.pool.free
    ensures Tree(NewRoot(m, r), place[r := Place(r, [])]) && r !in place
    ensures SameLookups(m, place, NewRoot(m, r))
    ensures Later(m, place, NewRoot(m, r), place[r := Place(r, [])])
  {
    var m', place' := NewRoot(m, r), place[r := Place(r, [])];
    FreeIsUnplaced(m, place, r);
    assert FrameOk(m, place, m.kernel);
    forall u | u in place' ensures FrameOk(m', place', u) {
      assert u != r ==> FrameOk(m, place, u);
    }
    forall u, j | u in place' && |place'[u].path| <= 3 && 0 <= j < 512 ensures EntryOk(m', place', u, j) {
      assert EntryOk(m, place, m.kernel, 0);
      assert u != r ==> EntryOk(m, place, u, j);
    }
    forall u, p | Below(place, u, p) ensures Lookup(m', u, p) == Lookup(m, u, p) {
      LookupUntouched(m, m', place, u, p);
    }
    forall u | u in place && |place[u].path| == 4 ensures u in m.ram { assert FrameOk(m, place, u); }
  }

  /** A fresh root sees the kernel's slot and nothing else. */
  lemma NewRootLookup(m: Memory, place: Places, r: nat, p: seq<nat>)
    requires Tree(m, place) && r in m.pool.free && |p| == 4 && IsPath(p)
    ensures Lookup(NewRoot(m, r), r, p) == if p[0] == 0 then Lookup(m, m.kernel, p) else None
  {
    var m' := NewRoot(m, r);
    NewRootKeeps(m, place, r);
    assert FrameOk(m, place, m.kernel) && EntryOk(m, place, m.kernel, 0);
    if p[0] == 0 && Entry(m, m.kernel, 0).present {
      assert Below(place, m.kernel, p);
      ChildPlace(m, place, m.kernel, p);
    }
  }

  lemma CreateKeeps(m: Memory, place: Places) returns (place': Places)
    requires Tree(m, place) && CreateSpace(m).Some?
    ensures var (m', r) := CreateSpace(m).value;
            Tree(m', place') && Later(m, place, m', place') && r !in place && IsRoot(place', r)
  {
    var r := Pick(m.pool).value;
    NewRootKeeps(m, place, r);
    var m0, place0 := NewRoot(m, r), place[r := Place(r, [])];
    PrivatePath();
    var place1 := ReserveKeeps(m0, place0, r, PRIVATE_PATH);
    var (m1, pt) := Reserve(m0, r, PRIVATE_PATH).value;
    LaterTrans(m, place, m0, place0, m1, place1);
    var q := Pick(m1.pool).value;
    place' := FinishCreate(m, place, m1, place1, r, pt, q);
  }

  lemma FinishCreate(m: Memory, place: Places, m1: Memory, place1: Places, r: nat, pt: nat, q: nat)
    returns (place': Places)
    requires Tree(m1, place1) && Later(m, place, m1, place1) && IsRoot(place1, r)
    requires At(place1, pt, r, [1, 0, 0]) && q in m1.pool.free
    ensures var m' := SetEntry(NewPage(m1, q, Bytes(Zeros(4096))), pt, 0, Leaf(q, true, true));
            Tree(m', place') && Later(m, place, m', place') && IsRoot(place', r)
  {
    NewPageKeeps(m1, place1, q, Zeros(4096), r, PRIVATE_PATH);
    FreeIsUnplaced(m1, place1, q);
    place' := place1[q := Place(r, PRIVATE_PATH)];
    var m2 := NewPage(m1, q, Bytes(Zeros(4096)));
    PrivatePath();
    LeafKeeps(m2, place', pt, 0, Leaf(q, true, true));
    assert FrameOk(m2, place', pt);
    assert Later(m1, place1, SetEntry(m2, pt, 0, Leaf(q, true, true)), place') by {
      forall u | u in place1 && |place1[u].path| == 4 ensures u in m1.ram { assert FrameOk(m1, place1, u); }
    }
    LaterTrans(m, place, m1, place1, SetEntry(m2, pt, 0, Leaf(q, true, true)), place');
  }

  lemma PrivatePath()
    ensures |PRIVATE_PATH| == 4 && IsPath(PRIVATE_PATH) && Private(PRIVATE_PATH) && [] + PRIVATE_PATH == PRIVATE_PATH
    ensures [] + PRIVATE_PATH[..3] == [1, 0, 0] && [1, 0, 0] + [0] == PRIVATE_PATH
  {
  }

  lemma PageStage(m1: Memory, place1: Places, r: nat, pt: nat, q: nat) returns (m2: Memory, place2: Places)
    requires Tree(m1, place1) && q in m1.pool.free && IsRoot(place1, r) && Leads(m1, r, PRIVATE_PATH, pt)
    ensures m2 == NewPage(m1, q, Bytes(Zeros(4096))) && Tree(m2, place2) && Extends(place1, place2)
    ensures Leads(m2, r, PRIVATE_PATH, pt) && SameLookups(m1, place1, m2)
  {
    PrivatePath();
    NewPageKeeps(m1, place1, q, Zeros(4096), r, PRIVATE_PATH);
    FreeIsUnplaced(m1, place1, q);
    m2, place2 := NewPage(m1, q, Bytes(Zeros(4096))), place1[q := Place(r, PRIVATE_PATH)];
    LeadsAfterPage(m1, place1, r, PRIVATE_PATH, pt, q);
    forall u, p | Below(place1, u, p) ensures Lookup(m2, u, p) == Lookup(m1, u, p) {
      NewPageLookup(m1, place1, q, Bytes(Zeros(4096)), u, p);
    }
  }

  /** The state just before the private page's leaf is written. */
  lemma CreateStages(m: Memory, place: Places)
    returns (m2: Memory, place2: Places, r: nat, pt: nat, q: nat)
    requires Tree(m, place) && CreateSpace(m).Some?
    ensures CreateSpace(m).value == (SetEntry(m2, pt, 0, Leaf(q, true, true)), r)
    ensures r == Pick(m.pool).value && q in m.pool.free
    ensures Tree(m2, place2) && Extends(place[r := Place(r, [])], place2)
    ensures At(place2, pt, r, [1, 0, 0]) && Leads(m2, r, PRIVATE_PATH, pt)
    ensures q in m2.ram && m2.ram[q] == Bytes(Zeros(4096))
    ensures SameLookups(NewRoot(m, r), place[r := Place(r, [])], m2)
  {
    r := Pick(m.pool).value;
    NewRootKeeps(m, place, r);
    var m0, place0 := NewRoot(m, r), place[r := Place(r, [])];
    PrivatePath();
    var place1 := ReserveKeeps(m0, place0, r, PRIVATE_PATH);
    var m1 := Reserve(m0, r, PRIVATE_PATH).value.0;
    pt := Reserve(m0, r, PRIVATE_PATH).value.1;
    q := Pick(m1.pool).value;
    m2, place2 := PageStage(m1, place1, r, pt, q);
    LookupsTrans(m0, place0, m1, place1, m2);
  }

  /**
   The new address space shares the kernel's slot, holds one private page, and nothing
   else; every existing address space translates as before.
   */
  lemma CreateRefines(m: Memory, place: Places, s: nat, p: seq<nat>)
    requires Tree(m, place) && CreateSpace(m).Some? && |p| == 4 && IsPath(p)
    requires IsRoot(place, s) || s == CreateSpace(m).value.1
    ensures var (m', r) := CreateSpace(m).value;
            if s != r then Lookup(m', s, p) == Lookup(m, s, p)
            else if p[0] == 0 then Lookup(m', r, p) == Lookup(m, m.kernel, p)
            else if p == PRIVATE_PATH then
              && Lookup(m', r, p).Some? && Lookup(m', r, p).value.frame in m.pool.free
              && Lookup(m', r, p) == Some(Leaf(Lookup(m', r, p).value.frame, true, true))
            else Lookup(m', r, p) == None
  {
    var m2, place2, r, pt, q := CreateStages(m, place);
    NewRootKeeps(m, place, r);
    PrivatePath();
    assert [] + p == p;
    assert Below(place[r := Place(r, [])], s, p) && Below(place2, s, p);
    if (s, p) == (r, PRIVATE_PATH) {
      LeadsToLeaf(m2, place2, r, PRIVATE_PATH, pt, Leaf(q, true, true));
    } else {
      LeafElsewhere(m2, place2, pt, 0, Leaf(q, true, true), s, p);
      assert Lookup(m2, s, p) == Lookup(NewRoot(m, r), s, p);
      if s == r { NewRootLookup(m, place, r, p); } else { assert Below(place, s, p); }
    }
  }

  lemma SlotZero(a: nat)
    requires a < 0x1_0000_0000_0000
    ensures Path(a)[0] == 0 <==> a < 0x80_0000_0000
  {
    PathBits(a);
  }

  lemma PathOfPrivate()
    ensures Path(0x80_0000_0000) == PRIVATE_PATH
  {
    PathBits(0x80_0000_0000);
  }

  lemma PrivateAddress(a: nat)
    requires a < 0x1_0000_0000_0000
    ensures Path(a)[0] == 0 <==> a < 0x80_0000_0000
    ensures Path(a) == PRIVATE_PATH <==> 0x80_0000_0000 <= a < 0x80_0000_1000
  {
    SlotZero(a);
    PathOfPrivate();
    if Path(a) == PRIVATE_PATH {
      PathInjective(a, 0x80_0000_0000);
    } else if 0x80_0000_0000 <= a < 0x80_0000_1000 {
      SamePagePath(a, 0x80_0000_0000);
    }
  }

  /**
   What the processor sees in a new address space: below 512 GiB the kernel's slot, from there
   one zeroed page with all rights, and nothing else.
   */
  lemma CreatedSpace(m: Memory, place: Places, a: nat)
    requires Tree(m, place) && CreateSpace(m).Some? && a < 0x1_0000_0000_0000
    ensures var (m', r) := CreateSpace(m).value; var h := Translate(m', r, Path(a));
            if a < 0x80_0000_0000 then h == Translate(m, m.kernel, Path(a))
            else if a >= 0x80_0000_1000 then h.None?
            else
              && h.Some? && !h.value.leaf.huge && h.value.user && h.value.write && h.value.exec
              && h.value.leaf.frame in m.pool.free
              && h.value.leaf.frame in m'.ram && m'.ram[h.value.leaf.frame] == Bytes(Zeros(4096))
  {
    var (m', r) := CreateSpace(m).value;
    var place' := CreateKeeps(m, place);
    PrivateAddress(a);
    CreateRefines(m, place, r, Path(a));
    HardwareAgrees(m', place', r, Path(a));
    HardwareAgrees(m, place, m.kernel, Path(a));
    PrivatePageIsZero(m, place);
  }

  lemma PrivatePageIsZero(m: Memory, place: Places)
    requires Tree(m, place) && CreateSpace(m).Some?
    ensures var (m', r) := CreateSpace(m).value; var e := Lookup(m', r, PRIVATE_PATH);
            e.Some? && e.value.frame in m'.ram && m'.ram[e.value.frame] == Bytes(Zeros(4096))
  {
    var m2, place2, r, pt, q := CreateStages(m, place);
    PrivatePath();
    LeadsToLeaf(m2, place2, r, PRIVATE_PATH, pt, Leaf(q, true, true));
    StoreKeepsBytes(m2, pt, 0, Leaf(q, true, true), q);
  }

  lemma StoreKeepsBytes(m: Memory, t: nat, i: nat, e: Pte, q: nat)
    requires q in m.ram && m.ram[q].Bytes?
    ensures q in SetEntry(m, t, i, e).ram && SetEntry(m, t, i, e).ram[q] == m.ram[q]
  {
  }

  /** Below a table without an entry the descent takes a page a level, no fewer. */
  lemma {:induction false} ReserveAnew(m: Memory, t: nat, path: seq<nat>)
    requires path != [] && Tracked(m.pool) && t !in m.pool.free && !Entry(m, t, path[0]).present
    ensures Reserve(m, t, path).Some? <==> |m.pool.free| >= |path| - 1
    ensures Reserve(m, t, path).Some? ==>
              var p' := Reserve(m, t, path).value.0.pool; Tracked(p') && |p'.free| == |m.pool.free| - (|path| - 1)
    decreases |path|
  {
    TakesOne(m.pool);
    if |path| > 1 && Pick(m.pool).Some? {
      var f := Pick(m.pool).value;
      ReserveAnew(Grow(m, t, path[0], f), f, path[1..]);
    }
  }

  /** vmm_create_address_space() needs five pages, and panics with fewer. */
  lemma CreatePanics(m: Memory)
    requires Tracked(m.pool)
    ensures CreateSpace(m).Some? <==> |m.pool.free| >= 5
  {
    TakesOne(m.pool);
    if Pick(m.pool).Some? {
      var r := Pick(m.pool).value;
      var m0 := NewRoot(m, r);
      ReserveAnew(m0, r, PRIVATE_PATH);
      if Reserve(m0, r, PRIVATE_PATH).Some? { TakesOne(Reserve(m0, r, PRIVATE_PATH).value.0.pool); }
    }
  }

  lemma {:induction false} LeadsAfterPage(m: Memory, place: Places, t: nat, path: seq<nat>, pt: nat, q: nat)
    requires Tree(m, place) && Below(place, t, path) && Private(place[t].path + path) && Leads(m, t, path, pt)
    requires q in m.pool.free
    ensures Leads(NewPage(m, q, Bytes(Zeros(4096))), t, path, pt)
    decreases |path|
  {
    FreeIsUnplaced(m, place, q);
    if |path| > 1 {
      ChildPlace(m, place, t, path);
      PathStep(place[t].path, path);
      LeadsAfterPage(m, place, Entry(m, t, path[0]).frame, path[1..], pt, q);
    }
  }

  // ---------------------------------------------------------------- allocate, fill, map

  /** What "allocate a page, fill it, map it" can end in: done, no page to be had, or a panic. */
  datatype Outcome = Done(m: Memory) | NoPage | Panic

  function MapFresh(m: Memory, root: nat, v: nat, data: seq<byte>, write: bool, exec: bool): Outcome {
    match Pick(m.pool)
    case None => NoPage
    case Some(f) =>
      match MapPage(NewPage(m, f, Bytes(data)), root, v, f, write, exec)
      case None => Panic
      case Some(m') => Done(m')
  }

  lemma MapFreshKeeps(m: Memory, place: Places, root: nat, v: nat, data: seq<byte>, write: bool, exec: bool)
    returns (place': Places)
    requires Tree(m, place) && IsRoot(place, root) && |data| == 4096
    requires MapFresh(m, root, v, data, write, exec).Done?
    ensures var m' := MapFresh(m, root, v, data, write, exec).m;
            && Tree(m', place') && Later(m, place, m', place')
            && Lookup(m', root, Path(v)) == Some(Leaf(Pick(m.pool).value, write, exec))
            && At(place', Pick(m.pool).value, root, Path(v))
            && Pick(m.pool).value in m'.ram && m'.ram[Pick(m.pool).value] == Bytes(data)
            && Path(v)[0] != 0
  {
    var f := Pick(m.pool).value;
    NewPageKeeps(m, place, f, data, root, Path(v));
    FreeIsUnplaced(m, place, f);
    var m1, place1 := NewPage(m, f, Bytes(data)), place[f := Place(root, Path(v))];
    place' := MapKeeps(m1, place1, root, v, f, write, exec);
    MapRefines(m1, place1, root, v, f, write, exec, root, Path(v));
    var m' := MapFresh(m, root, v, data, write, exec).m;
    assert place1[f] == Place(root, Path(v));
    assert Later(m, place, m1, place1) by {
      forall u | u in place && |place[u].path| == 4 ensures u in m.ram { assert FrameOk(m, place, u); }
    }
    LaterTrans(m, place, m1, place1, m', place');
  }

  lemma MapFreshElsewhere(m: Memory, place: Places, root: nat, v: nat, data: seq<byte>, write: bool, exec: bool,
                          r: nat, p: seq<nat>)
    requires Tree(m, place) && IsRoot(place, root) && IsRoot(place, r) && |data| == 4096
    requires MapFresh(m, root, v, data, write, exec).Done?
    requires |p| == 4 && IsPath(p) && (r, p) != (root, Path(v))
    ensures Lookup(MapFresh(m, root, v, data, write, exec).m, r, p) == Lookup(m, r, p)
  {
    var f := Pick(m.pool).value;
    NewPageKeeps(m, place, f, data, root, Path(v));
    FreeIsUnplaced(m, place, f);
    assert Below(place, r, p);
    NewPageLookup(m, place, f, Bytes(data), r, p);
    MapRefines(NewPage(m, f, Bytes(data)), place[f := Place(root, Path(v))], root, v, f, write, exec, r, p);
  }

  /** A fresh page is refused exactly when no page is free; with four free, mapping it cannot panic. */
  lemma FreshPanics(m: Memory, root: nat, v: nat, data: seq<byte>, write: bool, exec: bool)
    requires Tracked(m.pool)
    ensures var r := MapFresh(m, root, v, data, write, exec);
            && (r.NoPage? <==> |m.pool.free| == 0)
            && (r.Panic? ==> v / 0x80_0000_0000 % 512 == 0 || |m.pool.free| <= 3)
            && (r.Done? ==> Tracked(r.m.pool) && |r.m.pool.free| + 4 >= |m.pool.free|)
  {
    TakesOne(m.pool);
    if Pick(m.pool).Some? {
      MapPanics(NewPage(m, Pick(m.pool).value, Bytes(data)), root, v, Pick(m.pool).value, write, exec);
    }
  }

  // ---------------------------------------------------------------- isolation

  /** A private leaf maps a framebuffer frame, or the one data frame placed at exactly that page. */
  lemma {:induction false} LookupPlace(m: Memory, place: Places, u: nat, p: seq<nat>)
    requires Tree(m, place) && Below(place, u, p) && Private(place[u].path + p) && Lookup(m, u, p).Some?
    ensures var e := Lookup(m, u, p).value;
            !e.huge && e.user && (e.frame in m.fb || At(place, e.frame, place[u].root, place[u].path + p))
    decreases |p|
  {
    assert EntryOk(m, place, u, p[0]);
    if |p| > 1 {
      if |p| == 2 { NotHuge(m, place, u, p[0]); }
      ChildPlace(m, place, u, p);
      PathStep(place[u].path, p);
      LookupPlace(m, place, Entry(m, u, p[0]).frame, p[1..]);
    } else {
      assert p == [p[0]];
    }
  }

  /**
   No frame outside the framebuffer is mapped at two private pages, whether of two
   address spaces or of one, and no private page maps a page table.
   */
  lemma Isolation(m: Memory, place: Places, r: nat, p: seq<nat>, s: nat, q: seq<nat>)
    requires Tree(m, place) && IsRoot(place, r) && IsRoot(place, s)
    requires |p| == 4 && IsPath(p) && p[0] != 0 && |q| == 4 && IsPath(q) && q[0] != 0
    requires Lookup(m, r, p).Some? && Lookup(m, s, q).Some?
    requires Lookup(m, r, p).value.frame !in m.fb
    ensures Lookup(m, r, p).value.frame == Lookup(m, s, q).value.frame ==> (r, p) == (s, q)
    ensures IsData(m, Lookup(m, r, p).value.frame)
  {
    assert [] + p == p && [] + q == q;
    LookupPlace(m, place, r, p);
    LookupPlace(m, place, s, q);
    assert FrameOk(m, place, Lookup(m, r, p).value.frame);
  }
}
