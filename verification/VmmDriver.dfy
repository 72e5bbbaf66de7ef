/**
 The routines of kernel/src/vmm.c, kernel/src/elf_loader.c and kernel/src/syscall.c that
 change memory step by step, each proved against the functions of the modules above it.
 A method whose `ok` is false stops where the source panics.
 */
module VmmDriver {
  import opened Common
  import opened PagePool
  import opened PageTables
  import opened AddressSpaces
  import opened UserMemory
  import opened ElfFile
  import opened ElfImage
  import ArgvBlob

  /** One "allocate if missing" step: the child table of entry i. */
  function Ensured(m: Memory, t: nat, i: nat): Option<(Memory, nat)> {
    if Entry(m, t, i).present then Some((m, Entry(m, t, i).frame))
    else match Pick(m.pool)
      case None => None
      case Some(f) => Some((Grow(m, t, i, f), f))
  }

  /** Three such steps are what the recursive description does for a full path. */
  lemma ReserveIsThreeSteps(m: Memory, t: nat, p: seq<nat>)
    requires |p| == 4
    ensures Reserve(m, t, p)
            == match Ensured(m, t, p[0])
               case None => None
               case Some((m1, t1)) =>
                 match Ensured(m1, t1, p[1])
                 case None => None
                 case Some((m2, t2)) => Ensured(m2, t2, p[2])
  {
    ReserveStepIs(m, t, p);
    if Ensured(m, t, p[0]).Some? {
      var (m1, t1) := Ensured(m, t, p[0]).value;
      ReserveStepIs(m1, t1, p[1..]);
      if Ensured(m1, t1, p[1]).Some? {
        var (m2, t2) := Ensured(m1, t1, p[1]).value;
        ReserveStepIs(m2, t2, p[1..][1..]);
      }
    }
  }

  lemma ReserveStepIs(m: Memory, t: nat, p: seq<nat>)
    requires |p| >= 2
    ensures Reserve(m, t, p)
            == match Ensured(m, t, p[0])
               case None => None
               case Some((m1, t1)) => Reserve(m1, t1, p[1..])
  {
  }

  /** One round of the SYS_FB_MAP loop. */
  lemma ScreenStep(m: Memory, root: nat, base: nat, count: nat, i: nat)
    requires i < count
    ensures var mapped, v := MapPage(m, root, ScreenPage(i), base + i, true, false), ScreenPage(i);
            MapScreen(m, root, base, count, i)
            == if Mapped(m, root, v) then MapScreen(m, root, base, count, i + 1)
               else if mapped.None? then None
               else MapScreen(mapped.value, root, base, count, i + 1)
  {
  }

  function PartialIdentity(g: nat, n: nat): seq<Pte> {
    seq(512, i requires 0 <= i => if i < n then Identity(g, i) else NO_ENTRY)
  }

  class Kernel {
    var ram: map<nat, Page>
    var pool: Pool
    var kernel: nat
    const fb: set<nat>

    function View(): Memory
      reads this
    {
      Memory(ram, pool, kernel, fb)
    }

    constructor (pool: Pool, fb: set<nat>)
      ensures View() == Memory(map[], pool, 0, fb)
    {
      this.ram, this.pool, this.kernel, this.fb := map[], pool, 0, fb;
    }

    /** pmm_alloc_page() and filling the page that comes back. */
    method AllocFilled(page: Page) returns (f: Option<nat>)
      modifies this`ram, this`pool
      ensures f == old(Pick(pool))
      ensures View() == if f.Some? then NewPage(old(View()), f.value, page) else old(View())
    {
      f := Pick(pool);
      if f.Some? {
        pool := Take(pool, f.value);
        ram := ram[f.value := page];
      }
    }

    method Store(t: nat, i: nat, e: Pte)
      modifies this`ram
      ensures View() == SetEntry(old(View()), t, i, e)
    {
      if IsTable(View(), t) && i < 512 {
        ram := ram[t := Table(ram[t].entries[i := e])];
      }
    }

    method EnsureTable(t: nat, i: nat) returns (ok: bool, child: nat)
      modifies this`ram, this`pool
      ensures ok <==> Ensured(old(View()), t, i).Some?
      ensures ok ==> Ensured(old(View()), t, i) == Some((View(), child))
    {
      if !Entry(View(), t, i).present {
        var f := AllocFilled(Blank());
        if f.None? {
          return false, 0;
        }
        Store(t, i, Pte(f.value, true, true, true, false, false));
        return true, f.value;
      }
      return true, Entry(View(), t, i).frame;
    }

    /** vmm_map_page() */
    method Map(root: nat, v: nat, f: nat, write: bool, exec: bool) returns (ok: bool)
      modifies this`ram, this`pool
      ensures ok <==> MapPage(old(View()), root, v, f, write, exec).Some?
      ensures ok ==> MapPage(old(View()), root, v, f, write, exec) == Some(View())
    {
      var p := Path(v);
      if p[0] == 0 {
        return false;
      }
      ReserveIsThreeSteps(View(), root, p);
      var pdpt, pd, pt;
      ok, pdpt := EnsureTable(root, p[0]);
      if !ok { return; }
      ok, pd := EnsureTable(pdpt, p[1]);
      if !ok { return; }
      ok, pt := EnsureTable(pd, p[2]);
      if !ok { return; }
      Store(pt, p[3], Pte(f, true, write, true, false, !exec));
    }

    /** vmm_init() */
    method Init() returns (ok: bool)
      requires ram == map[]
      modifies this`ram, this`pool, this`kernel
      ensures ok <==> Boot(old(pool), fb).Some?
      ensures ok ==> Boot(old(pool), fb) == Some(View())
    {
      var pml4 := AllocFilled(Blank());
      if pml4.None? { return false; }
      kernel := pml4.value;
      var pdpt := AllocFilled(Blank());
      if pdpt.None? { return false; }
      Store(kernel, 0, Pte(pdpt.value, true, true, true, false, false));
      ok := MapLowMemory(pdpt.value);
    }

    method MapLowMemory(pdpt: nat) returns (ok: bool)
      modifies this`ram, this`pool
      ensures ok <==> MapLow(old(View()), pdpt, 0).Some?
      ensures ok ==> MapLow(old(View()), pdpt, 0) == Some(View())
    {
      ghost var m := View();
      var g := 0;
      while g < 4
        invariant 0 <= g <= 4
        invariant MapLow(View(), pdpt, g) == MapLow(m, pdpt, 0)
      {
        var pd := IdentityEntries(g);
        var f := AllocFilled(Table(pd));
        if f.None? { return false; }
        Store(pdpt, g, Pte(f.value, true, true, true, false, false));
        g := g + 1;
      }
      ok := true;
    }

    /** The inner loop: 512 leaves of 2 MiB each. */
    method IdentityEntries(g: nat) returns (pd: seq<Pte>)
      ensures Table(pd) == IdentityTable(g)
    {
      pd := seq(512, _ => NO_ENTRY);
      var i := 0;
      while i < 512
        invariant 0 <= i <= 512 && pd == PartialIdentity(g, i)
      {
        var phys := g * 0x40000000 + i * 0x200000;
        pd := pd[i := Pte(phys / 4096, true, true, phys < 0x400000, true, phys >= 0x400000)];
        i := i + 1;
      }
    }

    /** vmm_create_address_space() */
    method CreateAddressSpace() returns (ok: bool, root: nat)
      modifies this`ram, this`pool
      ensures ok <==> CreateSpace(old(View())).Some?
      ensures ok ==> CreateSpace(old(View())) == Some((View(), root))
    {
      var e0 := Entry(View(), kernel, 0);
      var pml4 := AllocFilled(Blank());
      if pml4.None? { return false, 0; }
      root := pml4.value;
      Store(root, 0, e0);
      ReserveIsThreeSteps(View(), root, PRIVATE_PATH);
      var pdpt, pd, pt;
      ok, pdpt := EnsureTable(root, 1);
      if !ok { return; }
      ok, pd := EnsureTable(pdpt, 0);
      if !ok { return; }
      ok, pt := EnsureTable(pd, 0);
      if !ok { return; }
      var page := AllocFilled(Bytes(Zeros(4096)));
      if page.None? { return false, 0; }
      Store(pt, 0, Pte(page.value, true, true, true, false, false));
    }

    /** Allocate a page, fill it, map it. */
    method MapNew(root: nat, v: nat, data: seq<byte>, write: bool, exec: bool) returns (r: Outcome)
      modifies this`ram, this`pool
      ensures r == MapFresh(old(View()), root, v, data, write, exec)
      ensures r.Done? ==> View() == r.m
      ensures r.NoPage? ==> View() == old(View())
    {
      var f := AllocFilled(Bytes(data));
      if f.None? {
        return NoPage;
      }
      var ok := Map(root, v, f.value, write, exec);
      r := if ok then Done(View()) else Panic;
    }

    /** elf_handle_stack_fault() */
    method HandleStackFault(root: nat, addr: nat, present: bool, ring3: bool) returns (ok: bool, handled: bool)
      modifies this`ram, this`pool
      ensures ok <==> StackFault(old(View()), root, addr, present, ring3).Some?
      ensures ok ==> StackFault(old(View()), root, addr, present, ring3) == Some((View(), handled))
    {
      if !ring3 { return true, false; }
      if present { return true, false; }
      var page := addr - addr % 4096;
      if page < STACK_TOP - 64 * 4096 || page >= STACK_TOP { return true, false; }
      if Lookup(View(), root, Path(page)).Some? { return true, false; }
      var r := MapNew(root, page, Zeros(4096), true, false);
      ok, handled := !r.Panic?, r.Done?;
    }

    /** Map a writable page of the framebuffer unless something is mapped there already. */
    method MapIfAbsent(root: nat, v: nat, f: nat) returns (ok: bool)
      modifies this`ram, this`pool
      ensures ok <==> Mapped(old(View()), root, v) || MapPage(old(View()), root, v, f, true, false).Some?
      ensures ok ==> View() == if Mapped(old(View()), root, v) then old(View())
                               else MapPage(old(View()), root, v, f, true, false).value
    {
      ok := true;
      if Lookup(View(), root, Path(v)).None? {
        ok := Map(root, v, f, true, false);
      }
    }

    /** SYS_FB_MAP */
    method MapFramebuffer(root: nat, base: nat, count: nat) returns (ok: bool)
      modifies this`ram, this`pool
      ensures ok <==> MapScreen(old(View()), root, base, count, 0).Some?
      ensures ok ==> MapScreen(old(View()), root, base, count, 0) == Some(View())
    {
      ghost var m := View();
      var i := 0;
      while i < count
        invariant 0 <= i <= count
        invariant MapScreen(View(), root, base, count, i) == MapScreen(m, root, base, count, 0)
      {
        ScreenStep(View(), root, base, count, i);
        ok := MapIfAbsent(root, ScreenPage(i), base + i);
        if !ok { return; }
        i := i + 1;
      }
      ok := true;
    }

    /** The page loop of SYS_SBRK. */
    method GrowHeap(root: nat, start: nat, end: nat) returns (g: Growth)
      modifies this`ram, this`pool
      ensures g == GrowTo(old(View()), root, start, end)
      ensures !g.Stuck? ==> g.m == View()
    {
      ghost var m := View();
      var p := start;
      while p < end
        invariant GrowTo(View(), root, p, end) == GrowTo(m, root, start, end)
        decreases end - p
      {
        if Lookup(View(), root, Path(p)).None? {
          var r := MapNew(root, p, Zeros(4096), true, false);
          if r.NoPage? { return Short(View()); }
          if r.Panic? { return Stuck; }
        }
        p := p + 4096;
      }
      g := Grown(View());
    }

    /** SYS_SBRK for a thread whose break is `brk`; the new break comes back with the return value. */
    method Sbrk(root: nat, brk: nat, inc: int) returns (ok: bool, brk': nat, ret: int)
      modifies this`ram, this`pool
      ensures ok <==> SysSbrk(old(View()), root, brk, inc).Sbrk?
      ensures ok ==> SysSbrk(old(View()), root, brk, inc) == SbrkResult.Sbrk(View(), brk', ret)
    {
      if inc < 0 {
        return true, brk, -1;
      }
      var g := GrowHeap(root, RoundDown(brk), RoundUp(brk + inc));
      match g
      case Grown(_) => return true, brk + inc, brk;
      case Short(_) => return true, brk, -1;
      case Stuck => return false, brk, -1;
    }

    /** The page loop of elf_load_user_program() for one segment. */
    method LoadSegment(root: nat, file: File, g: Segment) returns (ok: bool)
      modifies this`ram, this`pool
      ensures ok <==> LoadPages(old(View()), root, file, g, First(g), End(g)).Some?
      ensures ok ==> LoadPages(old(View()), root, file, g, First(g), End(g)) == Some(View())
    {
      ghost var m := View();
      var p := First(g);
      while p < End(g)
        invariant LoadPages(View(), root, file, g, p, End(g)) == LoadPages(m, root, file, g, First(g), End(g))
        decreases End(g) - p
      {
        CopyIsImage(file, g, p);
        var r := MapNew(root, p, CopiedPage(file, g, p), g.write, g.exec);
        if !r.Done? { return false; }
        p := p + 4096;
      }
      ok := true;
    }

    /** The program-header loop. */
    method LoadAll(root: nat, file: File, segs: seq<Segment>) returns (ok: bool)
      modifies this`ram, this`pool
      ensures ok <==> LoadSegments(old(View()), root, file, segs).Some?
      ensures ok ==> LoadSegments(old(View()), root, file, segs) == Some(View())
    {
      ghost var m := View();
      var i := 0;
      while i < |segs|
        invariant 0 <= i <= |segs|
        invariant LoadSegments(View(), root, file, segs[i..]) == LoadSegments(m, root, file, segs)
      {
        assert segs[i..][1..] == segs[i + 1..];
        if segs[i].load {
          if Add(segs[i].offset, segs[i].filesz) > |file.bytes| { return false; }
          ok := LoadSegment(root, file, segs[i]);
          if !ok { return; }
        }
        i := i + 1;
      }
      ok := true;
    }

    /** elf_load_user_program(): header checks, segments, stack page and argument blob. */
    method LoadProgram(root: nat, file: File, argv: seq<seq<byte>>)
      returns (ok: bool, entry: nat, stackTop: nat, argvPtr: nat)
      modifies this`ram, this`pool
      ensures ok <==> LoadElf(old(View()), root, file, argv).Some?
      ensures ok ==> LoadElf(old(View()), root, file, argv) == Some(View())
      ensures ok ==> entry == EntryPoint(file)
      ensures ok ==> stackTop == ArgvBlob.StackTop(argv) && argvPtr == ArgvBlob.ArgvPointer(argv)
    {
      entry, stackTop, argvPtr := 0, 0, 0;
      if |file.bytes| < 64 { return false, 0, 0, 0; }
      if file.bytes[..4] != MAGIC { return false, 0, 0, 0; }
      if file.bytes[4] != 2 || Number16(file, 18) != 62 { return false, 0, 0, 0; }
      ok := LoadAll(root, file, Segments(file));
      if !ok { return; }
      var top := Pick(pool);
      var r := MapNew(root, STACK_PAGE, Zeros(4096), true, false);
      if !r.Done? { return false, 0, 0, 0; }
      var buffer := new byte[4096](_ => 0);
      assert buffer[..] == Zeros(4096);
      ok, stackTop, argvPtr := ArgvBlob.WriteArgvBlob(buffer, argv);
      if !ok { return; }
      ram := ram[top.value := Bytes(buffer[..])];
      entry := EntryPoint(file);
    }
  }
}
