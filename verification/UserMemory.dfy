/**
 What a process sees through its page tables, and what the kernel's actions on behalf of
 one process leave alone in all the others: the stack-fault handler of
 kernel/src/elf_loader.c and the SYS_SBRK and SYS_FB_MAP cases of kernel/src/syscall.c.
 */
module UserMemory {
  import opened Common
  import opened PagePool
  import opened PageTables
  import opened AddressSpaces

  const FB_START: nat := 0x8008400000

  /** The frame behind a leaf that address a falls in; a 2 MiB leaf covers 512 of them. */
  function Target(e: Pte, a: nat): nat { if e.huge then e.frame + a / 4096 % 512 else e.frame }

  /** The byte at virtual address a; device memory (the framebuffer) has no modelled contents. */
  function ByteAt(m: Memory, root: nat, a: nat): Option<byte> {
    match Lookup(m, root, Path(a))
    case None => None
    case Some(e) =>
      var f := Target(e, a);
      if f !in m.fb && IsData(m, f) then Some(m.ram[f].data[a % 4096]) else None
  }

  /**
   Everything outside process `root` is as before: translations from other roots, their
   data pages, and what `root` itself sees through the shared kernel slot.
   */
  ghost predicate Confined(m: Memory, place: Places, m': Memory, place': Places, root: nat) {
    && m'.kernel == m.kernel && m'.fb == m.fb && m'.pool.free <= m.pool.free && m'.pool.bits == m.pool.bits
    && Extends(place, place')
    && (forall t | t in place' && t !in place :: t in m.pool.free)
    && (forall t | t in place && |place[t].path| == 4 && place[t].root != root ::
          t in m.ram && t in m'.ram && m'.ram[t] == m.ram[t])
    && (forall r, p | IsRoot(place, r) && Outside(r, p, root) :: Lookup(m', r, p) == Lookup(m, r, p))
  }

  /** A page of another address space, or of the kernel slot. */
  predicate Outside(r: nat, p: seq<nat>, root: nat) {
    FullPath(p) && (r != root || p[0] == 0)
  }

  predicate FullPath(p: seq<nat>) { |p| == 4 && IsPath(p) }

  lemma ConfinedTrans(m: Memory, place: Places, m1: Memory, place1: Places, m2: Memory, place2: Places, root: nat)
    requires Confined(m, place, m1, place1, root) && Confined(m1, place1, m2, place2, root)
    ensures Confined(m, place, m2, place2, root)
  {
    forall r, p | IsRoot(place, r) && Outside(r, p, root) ensures Lookup(m2, r, p) == Lookup(m, r, p) {
      assert IsRoot(place1, r);
      assert Lookup(m1, r, p) == Lookup(m, r, p);
    }
  }

  lemma ConfinedSelf(m: Memory, place: Places, root: nat)
    requires Tree(m, place)
    ensures Confined(m, place, m, place, root)
  {
    forall t | t in place ensures FrameOk(m, place, t) { }
  }

  /** A confined change is invisible, byte for byte and right for right, to every other process. */
  lemma Invisible(m: Memory, place: Places, m': Memory, place': Places, root: nat, s: nat, a: nat)
    requires Tree(m, place) && Confined(m, place, m', place', root) && Tree(m', place')
    requires IsRoot(place, s) && s != root && Path(a)[0] != 0
    ensures Lookup(m', s, Path(a)) == Lookup(m, s, Path(a)) && ByteAt(m', s, a) == ByteAt(m, s, a)
  {
    assert Outside(s, Path(a), root) && [] + Path(a) == Path(a);
    if Lookup(m, s, Path(a)).Some? {
      LookupPlace(m, place, s, Path(a));
    }
  }

  // ---------------------------------------------------------------- one page at a time

  /** MapFresh() is confined, and says what its own process sees afterwards. */
  lemma FreshConfined(m: Memory, place: Places, root: nat, v: nat, data: seq<byte>, write: bool, exec: bool)
    returns (place': Places)
    requires Tree(m, place) && IsRoot(place, root) && |data| == 4096
    requires MapFresh(m, root, v, data, write, exec).Done?
    ensures var m' := MapFresh(m, root, v, data, write, exec).m;
            Tree(m', place') && IsRoot(place', root) && Confined(m, place, m', place', root)
  {
    place' := MapFreshKeeps(m, place, root, v, data, write, exec);
    forall r, p | IsRoot(place, r) && Outside(r, p, root)
      ensures Lookup(MapFresh(m, root, v, data, write, exec).m, r, p) == Lookup(m, r, p)
    {
      MapFreshElsewhere(m, place, root, v, data, write, exec, r, p);
    }
  }

  /** The part of it most proofs need. */
  lemma FreshTree(m: Memory, place: Places, root: nat, v: nat, data: seq<byte>, write: bool, exec: bool)
    returns (place': Places)
    requires Tree(m, place) && IsRoot(place, root) && |data| == 4096
    requires MapFresh(m, root, v, data, write, exec).Done?
    ensures Tree(MapFresh(m, root, v, data, write, exec).m, place') && IsRoot(place', root)
  {
    place' := MapFreshKeeps(m, place, root, v, data, write, exec);
  }

  /** The bytes process `root` sees after a fresh page at v: the new data there, the old data elsewhere. */
  lemma FreshBytes(m: Memory, place: Places, root: nat, v: nat, data: seq<byte>, write: bool, exec: bool, a: nat)
    requires Tree(m, place) && IsRoot(place, root) && |data| == 4096 && Path(a)[0] != 0
    requires MapFresh(m, root, v, data, write, exec).Done?
    ensures var m' := MapFresh(m, root, v, data, write, exec).m;
            if Path(a) == Path(v) then
              && ByteAt(m', root, a) == Some(data[a % 4096])
              && Lookup(m', root, Path(a)) == Some(Leaf(Pick(m.pool).value, write, exec))
            else
              ByteAt(m', root, a) == ByteAt(m, root, a) && Lookup(m', root, Path(a)) == Lookup(m, root, Path(a))
  {
    var place' := MapFreshKeeps(m, place, root, v, data, write, exec);
    if Path(a) == Path(v) {
      assert FrameOk(MapFresh(m, root, v, data, write, exec).m, place', Pick(m.pool).value);
    } else {
      MapFreshElsewhere(m, place, root, v, data, write, exec, root, Path(a));
      assert [] + Path(a) == Path(a);
      if Lookup(m, root, Path(a)).Some? { LookupPlace(m, place, root, Path(a)); }
    }
  }

  // ---------------------------------------------------------------- elf_handle_stack_fault()

  /** None is a panic; the flag is the handler's return value. */
  function StackFault(m: Memory, root: nat, addr: nat, present: bool, ring3: bool): Option<(Memory, bool)> {
    var page := addr - addr % 4096;
    if !ring3 || present || page < STACK_TOP - 64 * 4096 || page >= STACK_TOP then Some((m, false))
    else if Lookup(m, root, Path(page)).Some? then Some((m, false))
    else match MapFresh(m, root, page, Zeros(4096), true, false)
      case NoPage => Some((m, false))
      case Panic => None
      case Done(m') => Some((m', true))
  }

  lemma StackFaultKeeps(m: Memory, place: Places, root: nat, addr: nat, present: bool, ring3: bool)
    returns (place': Places)
    requires Tree(m, place) && IsRoot(place, root) && StackFault(m, root, addr, present, ring3).Some?
    ensures var (m', handled) := StackFault(m, root, addr, present, ring3).value;
            && Tree(m', place') && IsRoot(place', root) && Confined(m, place, m', place', root)
            && (!handled ==> m' == m)
            && (handled ==> UserMay(m', root, addr, true) && ByteAt(m', root, addr) == Some(0))
  {
    place' := place;
    var page: nat := addr - addr % 4096;
    ConfinedSelf(m, place, root);
    if StackFault(m, root, addr, present, ring3).value.1 {
      place' := FreshConfined(m, place, root, page, Zeros(4096), true, false);
      SamePagePath(addr, page);
      var _ := MapFreshKeeps(m, place, root, page, Zeros(4096), true, false);
      FreshBytes(m, place, root, page, Zeros(4096), true, false, addr);
      LeafIsEnough(MapFresh(m, root, page, Zeros(4096), true, false).m, place', root, addr, true);
    }
  }

  lemma StackWindow(addr: nat)
    ensures var page := addr - addr % 4096;
            STACK_TOP - 64 * 4096 <= page < STACK_TOP <==> 0x80_0FFC_0000 <= addr < 0x80_1000_0000
    ensures 0x80_0FFC_0000 <= addr < 0x80_1000_0000 ==> addr / 0x80_0000_0000 % 512 == 1
  {
  }

  /** A fault ring 3 takes on a page that is not there, among the 64 pages below ELF_USER_STACK_TOP. */
  ghost predicate StackGrows(m: Memory, root: nat, addr: nat, present: bool, ring3: bool) {
    && ring3 && !present && 0x80_0FFC_0000 <= addr < 0x80_1000_0000
    && Translate(m, root, Path(addr)).None?
  }

  /**
   The handler answers exactly those faults, as long as a page is free, with a writable page
   ring 3 cannot execute; it refuses all others and changes nothing; and with four pages free
   it does not panic.
   */
  lemma StackFaultExactly(m: Memory, place: Places, root: nat, addr: nat, present: bool, ring3: bool)
    requires Tree(m, place) && IsRoot(place, root) && Tracked(m.pool)
    ensures var r := StackFault(m, root, addr, present, ring3);
            if !StackGrows(m, root, addr, present, ring3) || m.pool.free == {} then r == Some((m, false))
            else
              && (r.None? ==> |m.pool.free| <= 3)
              && (r.Some? ==>
                    && r.value.1
                    && var h := Translate(r.value.0, root, Path(addr));
                    && h.Some? && h.value.user && h.value.write && !h.value.exec && h.value.leaf.frame in m.pool.free)
  {
    var page: nat := addr - addr % 4096;
    SamePagePath(addr, page);
    HardwareAgrees(m, place, root, Path(addr));
    StackWindow(addr);
    FreshPanics(m, root, page, Zeros(4096), true, false);
    if StackGrows(m, root, addr, present, ring3) && MapFresh(m, root, page, Zeros(4096), true, false).Done? {
      var place' := MapFreshKeeps(m, place, root, page, Zeros(4096), true, false);
      HardwareAgrees(MapFresh(m, root, page, Zeros(4096), true, false).m, place', root, Path(addr));
    } else {
      StackWindow(page);
    }
  }

  // ---------------------------------------------------------------- SYS_FB_MAP

  function ScreenPage(i: nat): nat { FB_START + i * 4096 }

  /** The loop of SYS_FB_MAP from page i on; `base` is the first framebuffer frame. */
  function MapScreen(m: Memory, root: nat, base: nat, count: nat, i: nat): Option<Memory>
    decreases count - i
  {
    if i >= count then Some(m)
    else if Lookup(m, root, Path(ScreenPage(i))).Some? then MapScreen(m, root, base, count, i + 1)
    else match MapPage(m, root, ScreenPage(i), base + i, true, false)
      case None => None
      case Some(m') => MapScreen(m', root, base, count, i + 1)
  }

  predicate OnScreen(m: Memory, base: nat, i: nat) { base + i in m.fb }

  lemma MapFbConfined(m: Memory, place: Places, root: nat, v: nat, f: nat) returns (place': Places)
    requires Tree(m, place) && IsRoot(place, root) && f in m.fb && MapPage(m, root, v, f, true, false).Some?
    ensures var m' := MapPage(m, root, v, f, true, false).value;
            Tree(m', place') && IsRoot(place', root) && Confined(m, place, m', place', root)
  {
    place' := MapKeeps(m, place, root, v, f, true, false);
    forall r, p | IsRoot(place, r) && Outside(r, p, root)
      ensures Lookup(MapPage(m, root, v, f, true, false).value, r, p) == Lookup(m, r, p)
    {
      MapRefines(m, place, root, v, f, true, false, r, p);
    }
  }

  lemma {:induction false} MapScreenKeeps(m: Memory, place: Places, root: nat, base: nat, count: nat, i: nat)
    returns (place': Places)
    requires Tree(m, place) && IsRoot(place, root) && MapScreen(m, root, base, count, i).Some?
    requires forall k | i <= k < count :: OnScreen(m, base, k)
    ensures var m' := MapScreen(m, root, base, count, i).value;
            Tree(m', place') && IsRoot(place', root) && Confined(m, place, m', place', root)
    decreases count - i
  {
    if i >= count {
      place' := place;
      ConfinedSelf(m, place, root);
    } else if Lookup(m, root, Path(ScreenPage(i))).Some? {
      place' := MapScreenKeeps(m, place, root, base, count, i + 1);
    } else {
      assert OnScreen(m, base, i);
      var m1 := MapPage(m, root, ScreenPage(i), base + i, true, false).value;
      var place1 := MapFbConfined(m, place, root, ScreenPage(i), base + i);
      forall k | i + 1 <= k < count ensures OnScreen(m1, base, k) { assert OnScreen(m, base, k); }
      place' := MapScreenKeeps(m1, place1, root, base, count, i + 1);
      ConfinedTrans(m, place, m1, place1, MapScreen(m, root, base, count, i).value, place', root);
    }
  }

  lemma ScreenApart(i: nat, j: nat)
    requires i < j && ScreenPage(j) < 0x8000_0000_0000
    ensures Path(ScreenPage(i)) != Path(ScreenPage(j))
  {
    if Path(ScreenPage(i)) == Path(ScreenPage(j)) { PathInjective(ScreenPage(i), ScreenPage(j)); }
  }

  /** The pages before i are not touched by the rounds from i on. */
  lemma {:induction false} ScreenKept(m: Memory, place: Places, root: nat, base: nat, count: nat, i: nat, k: nat)
    requires Tree(m, place) && IsRoot(place, root) && MapScreen(m, root, base, count, i).Some? && k < i <= count
    requires ScreenPage(count) <= 0x8000_0000_0000 && forall j | i <= j < count :: OnScreen(m, base, j)
    ensures var p := Path(ScreenPage(k)); Lookup(MapScreen(m, root, base, count, i).value, root, p) == Lookup(m, root, p)
    decreases count - i
  {
    if i < count {
      if Lookup(m, root, Path(ScreenPage(i))).Some? {
        ScreenKept(m, place, root, base, count, i + 1, k);
      } else {
        var m1, place1 := ScreenRound(m, place, root, base, count, i);
        ScreenApart(k, i);
        MapRefines(m, place, root, ScreenPage(i), base + i, true, false, root, Path(ScreenPage(k)));
        ScreenKept(m1, place1, root, base, count, i + 1, k);
      }
    }
  }

  lemma ScreenRound(m: Memory, place: Places, root: nat, base: nat, count: nat, i: nat) returns (m1: Memory, place1: Places)
    requires Tree(m, place) && IsRoot(place, root) && MapScreen(m, root, base, count, i).Some? && i < count
    requires Lookup(m, root, Path(ScreenPage(i))).None? && forall j | i <= j < count :: OnScreen(m, base, j)
    ensures MapPage(m, root, ScreenPage(i), base + i, true, false) == Some(m1)
    ensures Tree(m1, place1) && IsRoot(place1, root) && MapScreen(m, root, base, count, i) == MapScreen(m1, root, base, count, i + 1)
    ensures forall j | i + 1 <= j < count :: OnScreen(m1, base, j)
  {
    assert OnScreen(m, base, i);
    m1 := MapPage(m, root, ScreenPage(i), base + i, true, false).value;
    place1 := MapFbConfined(m, place, root, ScreenPage(i), base + i);
    forall j | i + 1 <= j < count ensures OnScreen(m1, base, j) { assert OnScreen(m, base, j); }
  }

  /** What page k of the screen looks like once the rounds have passed it. */
  ghost predicate ScreenAt(m: Memory, m': Memory, root: nat, base: nat, k: nat) {
    var p := Path(ScreenPage(k));
    Lookup(m', root, p) == if Lookup(m, root, p).Some? then Lookup(m, root, p) else Some(Leaf(base + k, true, false))
  }

  /** Round i itself. */
  lemma ScreenHere(m: Memory, place: Places, root: nat, base: nat, count: nat, i: nat)
    requires Tree(m, place) && IsRoot(place, root) && MapScreen(m, root, base, count, i).Some? && i < count
    requires ScreenPage(count) <= 0x8000_0000_0000 && forall j | i <= j < count :: OnScreen(m, base, j)
    ensures ScreenAt(m, MapScreen(m, root, base, count, i).value, root, base, i)
  {
    if Lookup(m, root, Path(ScreenPage(i))).Some? {
      ScreenKept(m, place, root, base, count, i + 1, i);
    } else {
      var m1, place1 := ScreenRound(m, place, root, base, count, i);
      MapRefines(m, place, root, ScreenPage(i), base + i, true, false, root, Path(ScreenPage(i)));
      ScreenKept(m1, place1, root, base, count, i + 1, i);
    }
  }

  lemma {:induction false} ScreenLookup(m: Memory, place: Places, root: nat, base: nat, count: nat, i: nat, k: nat)
    requires Tree(m, place) && IsRoot(place, root) && MapScreen(m, root, base, count, i).Some? && i <= k < count
    requires ScreenPage(count) <= 0x8000_0000_0000 && forall j | i <= j < count :: OnScreen(m, base, j)
    ensures ScreenAt(m, MapScreen(m, root, base, count, i).value, root, base, k)
    decreases count - i
  {
    if i == k {
      ScreenHere(m, place, root, base, count, i);
    } else if Lookup(m, root, Path(ScreenPage(i))).Some? {
      ScreenLookup(m, place, root, base, count, i + 1, k);
    } else {
      var m1, place1 := ScreenRound(m, place, root, base, count, i);
      ScreenApart(i, k);
      MapRefines(m, place, root, ScreenPage(i), base + i, true, false, root, Path(ScreenPage(k)));
      ScreenLookup(m1, place1, root, base, count, i + 1, k);
    }
  }

  /**
   SYS_FB_MAP makes page k of the framebuffer appear at 0x8008400000 + 4096 k, for ring 3,
   writable and not executable, unless something was there before, which stays.
   */
  lemma ScreenMapped(m: Memory, place: Places, root: nat, base: nat, count: nat, k: nat)
    requires Tree(m, place) && IsRoot(place, root) && MapScreen(m, root, base, count, 0).Some? && k < count
    requires 0x80_0840_0000 + 4096 * count <= 0x8000_0000_0000 && forall j | 0 <= j < count :: OnScreen(m, base, j)
    ensures var p := Path(0x80_0840_0000 + 4096 * k);
            var before, after := Translate(m, root, p), Translate(MapScreen(m, root, base, count, 0).value, root, p);
            if before.Some? then after == before
            else
              && after.Some? && after.value.leaf.frame == base + k && !after.value.leaf.huge
              && after.value.user && after.value.write && !after.value.exec
  {
    var p := Path(ScreenPage(k));
    var place' := MapScreenKeeps(m, place, root, base, count, 0);
    ScreenLookup(m, place, root, base, count, 0, k);
    HardwareAgrees(m, place, root, p);
    HardwareAgrees(MapScreen(m, root, base, count, 0).value, place', root, p);
  }

  /** Three free pages for every page of the screen are enough. */
  lemma {:induction false} ScreenSucceeds(m: Memory, root: nat, base: nat, count: nat, i: nat)
    requires Tracked(m.pool) && i <= count && 0x80_0840_0000 + 4096 * count <= 0x8000_0000_0000
    requires |m.pool.free| >= 3 * (count - i)
    ensures MapScreen(m, root, base, count, i).Some?
    decreases count - i
  {
    if i < count {
      if Lookup(m, root, Path(ScreenPage(i))).None? {
        MapPanics(m, root, ScreenPage(i), base + i, true, false);
        ScreenSlot(i);
        ScreenSucceeds(MapPage(m, root, ScreenPage(i), base + i, true, false).value, root, base, count, i + 1);
      } else {
        ScreenSucceeds(m, root, base, count, i + 1);
      }
    }
  }

  lemma ScreenSlot(i: nat)
    requires ScreenPage(i) < 0x8000_0000_0000
    ensures ScreenPage(i) / 0x80_0000_0000 % 512 != 0
  {
    var q := ScreenPage(i) / 0x80_0000_0000;
    assert 1 <= q < 512;
  }

  // ---------------------------------------------------------------- SYS_SBRK

  /** How the page loop of SYS_SBRK ends: all pages there, out of pages, or a panic. */
  datatype Growth = Grown(m: Memory) | Short(m: Memory) | Stuck

  function GrowTo(m: Memory, root: nat, p: nat, end: nat): Growth
    decreases end - p
  {
    if p >= end then Grown(m)
    else if Lookup(m, root, Path(p)).Some? then GrowTo(m, root, p + 4096, end)
    else match MapFresh(m, root, p, Zeros(4096), true, false)
      case NoPage => Short(m)
      case Panic => Stuck
      case Done(m') => GrowTo(m', root, p + 4096, end)
  }

  datatype SbrkResult = Sbrk(m: Memory, brk: nat, ret: int) | SbrkPanic

  function RoundDown(x: nat): nat { x - x % 4096 }

  function RoundUp(x: nat): nat { RoundDown(x + 4095) }

  function SysSbrk(m: Memory, root: nat, brk: nat, inc: int): SbrkResult {
    if inc < 0 then Sbrk(m, brk, -1)
    else match GrowTo(m, root, RoundDown(brk), RoundUp(brk + inc))
      case Grown(m') => Sbrk(m', brk + inc, brk)
      case Short(m') => Sbrk(m', brk, -1)
      case Stuck => SbrkPanic
  }

  /** The page of a, if present, is a user-writable one. */
  ghost predicate WritableIfPresent(m: Memory, root: nat, a: nat) {
    var e := Lookup(m, root, Path(a));
    e.Some? ==> e.value.user && e.value.writable
  }

  ghost predicate Mapped(m: Memory, root: nat, a: nat) {
    Lookup(m, root, Path(a)).Some?
  }

  /** The heap window holds writable pages only, and every byte below the break is mapped. */
  ghost predicate HeapOk(m: Memory, root: nat, brk: nat) {
    && HEAP_START <= brk <= FB_START
    && (forall a | HEAP_START <= a < FB_START :: WritableIfPresent(m, root, a))
    && (forall a | HEAP_START <= a < brk :: Mapped(m, root, a))
  }

  function After(g: Growth): Memory
    requires !g.Stuck?
  {
    g.m
  }

  lemma {:induction false} GrowToKeeps(m: Memory, place: Places, root: nat, p: nat, end: nat) returns (place': Places)
    requires Tree(m, place) && IsRoot(place, root) && !GrowTo(m, root, p, end).Stuck?
    ensures var m' := After(GrowTo(m, root, p, end));
            Tree(m', place') && IsRoot(place', root) && Confined(m, place, m', place', root)
    decreases end - p
  {
    if p >= end || (Lookup(m, root, Path(p)).None? && Pick(m.pool).None?) {
      place' := place;
      ConfinedSelf(m, place, root);
    } else if Lookup(m, root, Path(p)).Some? {
      place' := GrowToKeeps(m, place, root, p + 4096, end);
    } else {
      var m1 := MapFresh(m, root, p, Zeros(4096), true, false).m;
      var place1 := FreshConfined(m, place, root, p, Zeros(4096), true, false);
      place' := GrowToKeeps(m1, place1, root, p + 4096, end);
      ConfinedTrans(m, place, m1, place1, After(GrowTo(m, root, p, end)), place', root);
    }
  }

  /** A page already present stays as it is; a page that appears is user-writable and zeroed. */
  lemma {:induction false} GrowToPage(m: Memory, place: Places, root: nat, p: nat, end: nat, a: nat)
    requires Tree(m, place) && IsRoot(place, root) && !GrowTo(m, root, p, end).Stuck? && Path(a)[0] != 0
    ensures var m' := After(GrowTo(m, root, p, end));
            if Mapped(m, root, a) then
              Lookup(m', root, Path(a)) == Lookup(m, root, Path(a)) && ByteAt(m', root, a) == ByteAt(m, root, a)
            else Mapped(m', root, a) ==>
              && WritableIfPresent(m', root, a) && ByteAt(m', root, a) == Some(0)
              && Lookup(m', root, Path(a)).value.nx
    decreases end - p
  {
    if p < end {
      if Lookup(m, root, Path(p)).Some? {
        GrowToPage(m, place, root, p + 4096, end, a);
      } else if Pick(m.pool).Some? {
        var place1 := FreshConfined(m, place, root, p, Zeros(4096), true, false);
        FreshBytes(m, place, root, p, Zeros(4096), true, false, a);
        GrowToPage(MapFresh(m, root, p, Zeros(4096), true, false).m, place1, root, p + 4096, end, a);
      }
    }
  }

  /** One round of the loop that does not run dry: the page is there, and the rest is as the loop says. */
  lemma GrowStep(m: Memory, place: Places, root: nat, p: nat, end: nat) returns (m1: Memory, place1: Places)
    requires Tree(m, place) && IsRoot(place, root) && p < end && GrowTo(m, root, p, end).Grown?
    ensures Tree(m1, place1) && IsRoot(place1, root) && Mapped(m1, root, p)
    ensures GrowTo(m, root, p, end) == GrowTo(m1, root, p + 4096, end)
  {
    m1, place1 := m, place;
    if Lookup(m, root, Path(p)).None? {
      m1 := MapFresh(m, root, p, Zeros(4096), true, false).m;
      place1 := MapFreshKeeps(m, place, root, p, Zeros(4096), true, false);
    }
  }

  lemma PageOf(p: nat, a: nat)
    requires p % 4096 == 0 && p <= a
    ensures (p + 4096) % 4096 == 0 && (a < p + 4096 ==> Path(a) == Path(p))
  {
    if a < p + 4096 { SamePagePath(a, p); }
  }

  /** When the loop runs to its end, every page of the range is there. */
  lemma {:induction false} GrowToCovers(m: Memory, place: Places, root: nat, p: nat, end: nat, a: nat)
    requires Tree(m, place) && IsRoot(place, root) && GrowTo(m, root, p, end).Grown?
    requires p % 4096 == 0 && p <= a < end && Path(a)[0] != 0
    ensures Mapped(GrowTo(m, root, p, end).m, root, a)
    decreases end - p
  {
    var m1, place1 := GrowStep(m, place, root, p, end);
    PageOf(p, a);
    if a < p + 4096 {
      GrowToPage(m1, place1, root, p + 4096, end, a);
    } else {
      GrowToCovers(m1, place1, root, p + 4096, end, a);
    }
  }

  lemma WindowIsPrivate(a: nat)
    requires HEAP_START <= a < STACK_TOP
    ensures Path(a)[0] == 1
  {
    PathBits(a);
  }

  function NewBreak(g: Growth, brk: nat, inc: nat): nat { if g.Grown? then brk + inc else brk }

  lemma Rounding(x: nat)
    ensures RoundDown(x) % 4096 == 0 && RoundDown(x) <= x <= RoundUp(x)
  {
  }

  lemma GrowToHeapAt(m: Memory, place: Places, root: nat, p: nat, end: nat, brk: nat, inc: nat, a: nat)
    requires Tree(m, place) && IsRoot(place, root) && Path(a)[0] != 0
    requires WritableIfPresent(m, root, a) && (a < brk ==> Mapped(m, root, a))
    requires !GrowTo(m, root, p, end).Stuck? && p % 4096 == 0 && p <= brk && brk + inc <= end
    ensures var g := GrowTo(m, root, p, end);
            WritableIfPresent(After(g), root, a) && (a < NewBreak(g, brk, inc) ==> Mapped(After(g), root, a))
  {
    GrowToPage(m, place, root, p, end, a);
    if brk <= a < brk + inc && GrowTo(m, root, p, end).Grown? {
      GrowToCovers(m, place, root, p, end, a);
    }
  }

  lemma GrowToHeap(m: Memory, place: Places, root: nat, brk: nat, inc: nat)
    requires Tree(m, place) && IsRoot(place, root) && HeapOk(m, root, brk) && brk + inc <= FB_START
    requires !GrowTo(m, root, RoundDown(brk), RoundUp(brk + inc)).Stuck?
    ensures var g := GrowTo(m, root, RoundDown(brk), RoundUp(brk + inc));
            HeapOk(After(g), root, NewBreak(g, brk, inc))
  {
    var g := GrowTo(m, root, RoundDown(brk), RoundUp(brk + inc));
    Rounding(brk);
    Rounding(brk + inc);
    forall a | HEAP_START <= a < FB_START
      ensures WritableIfPresent(After(g), root, a) && (a < NewBreak(g, brk, inc) ==> Mapped(After(g), root, a))
    {
      assert WritableIfPresent(m, root, a);
      assert a < brk ==> Mapped(m, root, a);
      WindowIsPrivate(a);
      GrowToHeapAt(m, place, root, RoundDown(brk), RoundUp(brk + inc), brk, inc, a);
    }
  }

  /**
   One SYS_SBRK, whether it succeeds or fails: the heap invariant is kept, a success
   returns the old break and moves it by the increment, and a failure returns -1 and
   leaves the break alone.
   */
  lemma SbrkKeeps(m: Memory, place: Places, root: nat, brk: nat, inc: int) returns (place': Places)
    requires Tree(m, place) && IsRoot(place, root) && HeapOk(m, root, brk) && brk + inc <= FB_START
    requires SysSbrk(m, root, brk, inc).Sbrk?
    ensures var s := SysSbrk(m, root, brk, inc);
            && Tree(s.m, place') && IsRoot(place', root) && Confined(m, place, s.m, place', root)
            && HeapOk(s.m, root, s.brk)
            && (if s.ret == -1 then s.brk == brk else s.ret == brk && inc >= 0 && s.brk == brk + inc)
  {
    if inc < 0 {
      place' := place;
      ConfinedSelf(m, place, root);
    } else {
      place' := GrowToKeeps(m, place, root, RoundDown(brk), RoundUp(brk + inc));
      GrowToHeap(m, place, root, brk, inc);
    }
  }

  /** The loop stops short only with no page left, and then some page of the range is missing. */
  lemma {:induction false} GrowToShort(m: Memory, root: nat, p: nat, end: nat)
    requires Tracked(m.pool) && GrowTo(m, root, p, end).Short?
    ensures var m' := GrowTo(m, root, p, end).m; m'.pool.free == {} && exists q :: p <= q < end && !Mapped(m', root, q)
    decreases end - p
  {
    FreshPanics(m, root, p, Zeros(4096), true, false);
    if Mapped(m, root, p) {
      GrowToShort(m, root, p + 4096, end);
    } else if Pick(m.pool).Some? {
      GrowToShort(MapFresh(m, root, p, Zeros(4096), true, false).m, root, p + 4096, end);
    } else {
      assert !Mapped(m, root, p);
    }
  }

  /** Four free pages for every page of the range are enough. */
  lemma {:induction false} GrowToSucceeds(m: Memory, root: nat, p: nat, end: nat, pages: nat)
    requires Tracked(m.pool) && end <= p + 4096 * pages && |m.pool.free| >= 4 * pages
    requires forall q | p <= q < end :: q / 0x80_0000_0000 % 512 != 0
    ensures GrowTo(m, root, p, end).Grown?
    decreases end - p
  {
    if p < end {
      FreshPanics(m, root, p, Zeros(4096), true, false);
      if Mapped(m, root, p) {
        GrowToSucceeds(m, root, p + 4096, end, pages - 1);
      } else {
        GrowToSucceeds(MapFresh(m, root, p, Zeros(4096), true, false).m, root, p + 4096, end, pages - 1);
      }
    }
  }

  /**
   SYS_SBRK returns -1 only for a negative increment, and then changes nothing, or when no
   page is free any more and a page up to the new break is missing; with four free pages for every
   page up to the new break it succeeds.
   */
  lemma SbrkFails(m: Memory, root: nat, brk: nat, inc: int)
    requires Tracked(m.pool) && HEAP_START <= brk && brk + inc <= FB_START
    ensures var r := SysSbrk(m, root, brk, inc);
            && (inc < 0 ==> r == Sbrk(m, brk, -1))
            && (inc >= 0 && r.Sbrk? && r.ret == -1 ==>
                  r.m.pool.free == {} && exists q :: brk - 4096 < q < brk + inc + 4096 && !Mapped(r.m, root, q))
            && (inc >= 0 && |m.pool.free| >= 4 * (inc / 4096 + 2) ==> r.Sbrk? && r.ret == brk && r.brk == brk + inc)
  {
    if inc >= 0 {
      var lo, hi := RoundDown(brk), RoundUp(brk + inc);
      RoundedRange(brk, inc);
      if GrowTo(m, root, lo, hi).Short? { GrowToShort(m, root, lo, hi); }
      if |m.pool.free| >= 4 * (inc / 4096 + 2) { GrowToSucceeds(m, root, lo, hi, inc / 4096 + 2); }
    }
  }

  lemma RoundedRange(brk: nat, inc: nat)
    requires HEAP_START <= brk && brk + inc <= FB_START
    ensures brk - 4096 < RoundDown(brk) <= brk && brk + inc <= RoundUp(brk + inc) < brk + inc + 4096
    ensures RoundUp(brk + inc) <= RoundDown(brk) + 4096 * (inc / 4096 + 2)
    ensures forall q | RoundDown(brk) <= q < RoundUp(brk + inc) :: q / 0x80_0000_0000 % 512 != 0
  {
    var lo, hi := RoundDown(brk), RoundUp(brk + inc);
    assert lo >= 0x80_0000_0000 && hi <= 0x80_F000_0000;
    forall q | lo <= q < hi ensures q / 0x80_0000_0000 % 512 != 0 {
      assert q / 0x80_0000_0000 == 1;
    }
  }

  /** Bytes the process already had in its heap keep their values across SYS_SBRK; new ones read as zero. */
  lemma SbrkBytes(m: Memory, place: Places, root: nat, brk: nat, inc: int, a: nat)
    requires Tree(m, place) && IsRoot(place, root) && SysSbrk(m, root, brk, inc).Sbrk? && Path(a)[0] != 0
    ensures var m' := SysSbrk(m, root, brk, inc).m;
            if Mapped(m, root, a) then ByteAt(m', root, a) == ByteAt(m, root, a)
            else Mapped(m', root, a) ==> ByteAt(m', root, a) == Some(0)
  {
    if inc >= 0 { GrowToPage(m, place, root, RoundDown(brk), RoundUp(brk + inc), a); }
  }

  /** Pages SYS_SBRK adds are there for ring 3 to read and write, not to execute. */
  lemma SbrkRights(m: Memory, place: Places, root: nat, brk: nat, inc: int, a: nat)
    requires Tree(m, place) && IsRoot(place, root) && SysSbrk(m, root, brk, inc).Sbrk? && Path(a)[0] != 0
    requires Translate(m, root, Path(a)).None?
    ensures var h := Translate(SysSbrk(m, root, brk, inc).m, root, Path(a));
            h.Some? ==> h.value.user && h.value.write && !h.value.exec
  {
    HardwareAgrees(m, place, root, Path(a));
    if inc >= 0 {
      var lo, hi := RoundDown(brk), RoundUp(brk + inc);
      GrowToPage(m, place, root, lo, hi, a);
      var place' := GrowToKeeps(m, place, root, lo, hi);
      HardwareAgrees(After(GrowTo(m, root, lo, hi)), place', root, Path(a));
    }
  }

  /** The heap invariant is what ring 3 needs: every byte below the break may be read and written. */
  lemma HeapIsUsable(m: Memory, place: Places, root: nat, brk: nat, a: nat)
    requires Tree(m, place) && IsRoot(place, root) && HeapOk(m, root, brk) && HEAP_START <= a < brk
    ensures UserMay(m, root, a, true)
  {
    assert WritableIfPresent(m, root, a) && Mapped(m, root, a);
    LeafIsEnough(m, place, root, a, true);
  }

  // ---------------------------------------------------------------- series of calls

  datatype Heap = Heap(m: Memory, brk: nat)

  /** The calls were made one after another and none panicked; rets[i] is what call i returned. */
  ghost predicate Series(states: seq<Heap>, root: nat, incs: seq<int>, rets: seq<int>) {
    && |states| == |incs| + 1 && |rets| == |incs|
    && forall i | 0 <= i < |incs| :: CallOk(states, root, incs, rets, i)
  }

  ghost predicate CallOk(states: seq<Heap>, root: nat, incs: seq<int>, rets: seq<int>, i: nat)
    requires |states| == |incs| + 1 && |rets| == |incs| && i < |incs|
  {
    && states[i].brk + incs[i] <= FB_START
    && SysSbrk(states[i].m, root, states[i].brk, incs[i]) == Sbrk(states[i + 1].m, states[i + 1].brk, rets[i])
  }

  /** The bytes handed out by the first n calls. */
  function Granted(incs: seq<int>, rets: seq<int>, n: nat): int
    requires n <= |incs| && |rets| == |incs|
  {
    if n == 0 then 0 else Granted(incs, rets, n - 1) + if rets[n - 1] == -1 then 0 else incs[n - 1]
  }

  /**
   After any series of SYS_SBRK calls every byte from the first break to the current one
   is there, and each successful call returned the address right after all regions
   handed out before it, so successful calls return adjacent regions.
   */
  lemma {:induction false} SeriesOfSbrk(states: seq<Heap>, place: Places, root: nat, incs: seq<int>, rets: seq<int>, n: nat)
    returns (place': Places)
    requires Series(states, root, incs, rets) && n <= |incs|
    requires Tree(states[0].m, place) && IsRoot(place, root) && HeapOk(states[0].m, root, states[0].brk)
    ensures Tree(states[n].m, place') && IsRoot(place', root) && HeapOk(states[n].m, root, states[n].brk)
    ensures states[n].brk == states[0].brk + Granted(incs, rets, n)
    ensures n > 0 && rets[n - 1] != -1 ==> rets[n - 1] == states[0].brk + Granted(incs, rets, n - 1)
  {
    place' := place;
    if n > 0 {
      var place1 := SeriesOfSbrk(states, place, root, incs, rets, n - 1);
      assert CallOk(states, root, incs, rets, n - 1);
      place' := SbrkKeeps(states[n - 1].m, place1, root, states[n - 1].brk, incs[n - 1]);
    }
  }
}
