/**
 Processes as a whole: every run of spawning (kernel/src/process.c), stack faults,
 SYS_SBRK, SYS_FB_MAP and the processes' own stores.
 */
module Processes {
  import opened Common
  import opened LittleEndian
  import opened PagePool
  import opened PageTables
  import opened AddressSpaces
  import opened UserMemory
  import opened ElfFile
  import opened ElfImage
  import opened ElfLayout
  import opened ElfProcess

  /** The memory, each process's break, and the framebuffer (first frame and number of pages). */
  datatype System = System(m: Memory, brk: map<nat, nat>, base: nat, count: nat)

  datatype Step =
    | Spawn(file: File, argv: seq<seq<byte>>)
    | Fault(proc: nat, addr: nat, present: bool, ring3: bool)
    | Break(proc: nat, inc: int)
    | Screen(proc: nat)
    | Store(proc: nat, a: nat, b: byte)

  predicate Enabled(s: System, step: Step) {
    step.Spawn? || step.proc in s.brk
  }

  function Bit(b: bool): nat { if b then 1 else 0 }

  /** A page-table entry as the processor has it in memory: flag bits 0, 1, 2, 7 and 63, and the frame from bit 12 to 51. */
  function EntryWord(e: Pte): nat {
    Bit(e.present) + 2 * Bit(e.writable) + 4 * Bit(e.user) + 128 * Bit(e.huge) + 0x1000 * e.frame
    + 0x8000_0000_0000_0000 * Bit(e.nx)
  }

  function WordEntry(w: nat): Pte {
    Pte(w / 0x1000 % 0x100_0000_0000, w % 2 == 1, w / 2 % 2 == 1, w / 4 % 2 == 1, w / 128 % 2 == 1,
        w / 0x8000_0000_0000_0000 % 2 == 1)
  }

  /** The entry a word was made from is read back from it. */
  lemma EntryRoundTrip(e: Pte)
    requires e.frame < 0x100_0000_0000
    ensures WordEntry(EntryWord(e)) == e
  {
    var low := Bit(e.present) + 2 * Bit(e.writable) + 4 * Bit(e.user) + 128 * Bit(e.huge);
    var w := EntryWord(e);
    WordParts(low, e.frame, Bit(e.nx));
    LowBits(e.present, e.writable, e.user, e.huge, e.frame + 0x8_0000_0000_0000 * Bit(e.nx));
  }

  lemma WordParts(low: nat, frame: nat, nx: nat)
    requires low < 0x1000 && frame < 0x100_0000_0000 && nx < 2
    ensures var w := low + 0x1000 * frame + 0x8000_0000_0000_0000 * nx;
            w / 0x1000 % 0x100_0000_0000 == frame && w / 0x8000_0000_0000_0000 % 2 == nx
  {
    var w := low + 0x1000 * frame + 0x8000_0000_0000_0000 * nx;
    assert w / 0x1000 == frame + 0x8_0000_0000_0000 * nx;
  }

  lemma LowBits(a: bool, b: bool, c: bool, d: bool, high: nat)
    ensures var w := Bit(a) + 2 * Bit(b) + 4 * Bit(c) + 128 * Bit(d) + 0x1000 * high;
            (w % 2 == 1 <==> a) && (w / 2 % 2 == 1 <==> b) && (w / 4 % 2 == 1 <==> c) && (w / 128 % 2 == 1 <==> d)
  {
    var top := Bit(d) + 2 * (16 * high);
    Quotient(Bit(a) + 2 * Bit(b) + 4 * Bit(c), top, 128);
    LastBit(d, 16 * high);
    Quotient(Bit(a) + 2 * Bit(b), Bit(c) + 2 * (16 * top), 4);
    LastBit(c, 16 * top);
    Quotient(Bit(a), Bit(b) + 2 * (Bit(c) + 32 * top), 2);
    LastBit(b, Bit(c) + 32 * top);
    LastBit(a, Bit(b) + 2 * (Bit(c) + 32 * top));
  }

  lemma LastBit(b: bool, q: nat)
    ensures (Bit(b) + 2 * q) % 2 == 1 <==> b
  {
  }

  lemma Quotient(r: nat, q: nat, n: nat)
    requires r < n
    ensures (r + n * q) / n == q
  {
    var x := r + n * q;
    assert x == n * (x / n) + x % n;
    if x / n < q { TimesMonotone(n, x / n, q); }
    if q < x / n { TimesMonotone(n, q, x / n); }
  }

  const WORD: nat := 8

  /** The entry after a store of b to byte j of its eight. */
  function Patched(e: Pte, j: nat, b: byte): Pte
    requires j < WORD
  {
    WordEntry(Value(Le(EntryWord(e), WORD)[j := b]))
  }

  /**
   A byte store to frame f at offset o, whatever the frame holds: somebody's data, or a
   page table. Frames that hold neither have no modelled contents.
   */
  function PhysStore(m: Memory, f: nat, o: nat, b: byte): Memory
    requires o < 4096
  {
    if f in m.fb then m
    else if IsData(m, f) then WriteData(m, f, m.ram[f].data[o := b])
    else SetEntry(m, f, o / 8, Patched(Entry(m, f, o / 8), o % 8, b))
  }

  /** Process p stores a byte at address a, if the hardware lets it; a is the 48 address bits the walk uses. */
  function UserStore(m: Memory, p: nat, a: nat, b: byte): Memory {
    match Translate(m, p, Path(a))
    case None => m
    case Some(h) =>
      if a < 0x1_0000_0000_0000 && h.user && h.write then PhysStore(m, Target(h.leaf, a), a % 4096, b) else m
  }

  /** None where the kernel panics. */
  function Apply(s: System, step: Step): Option<System>
    requires Enabled(s, step)
  {
    match step
    case Spawn(file, argv) =>
      (match CreateSpace(s.m)
       case None => None
       case Some((m1, r)) =>
         match LoadElf(m1, r, file, argv)
         case None => None
         case Some(m2) => Some(s.(m := m2, brk := s.brk[r := HEAP_START])))
    case Fault(p, addr, present, ring3) =>
      (match StackFault(s.m, p, addr, present, ring3)
       case None => None
       case Some((m', _)) => Some(s.(m := m')))
    case Break(p, inc) =>
      (match SysSbrk(s.m, p, s.brk[p], inc)
       case SbrkPanic => None
       case Sbrk(m', brk', _) => Some(s.(m := m', brk := s.brk[p := brk'])))
    case Screen(p) =>
      (match MapScreen(s.m, p, s.base, s.count, 0)
       case None => None
       case Some(m') => Some(s.(m := m')))
    case Store(p, a, b) => Some(s.(m := UserStore(s.m, p, a, b)))
  }

  /** The process a step acts for: the new one, when it spawns. */
  function Actor(s: System, step: Step): nat
    requires Enabled(s, step) && Apply(s, step).Some?
  {
    if step.Spawn? then CreateSpace(s.m).value.1 else step.proc
  }

  ghost predicate LowAt(m: Memory, r: nat, p: seq<nat>)
    requires |p| == 4
  {
    Lookup(m, r, p) == LowLeaf(p)
  }

  /** Root r sees the boot-time map through PML4[0]. */
  ghost predicate LowSlot(m: Memory, r: nat) {
    forall p | FullPath(p) && p[0] == 0 :: LowAt(m, r, p)
  }

  ghost predicate Sound(s: System, place: Places) {
    && Tree(s.m, place)
    && (forall r | r in s.brk :: IsRoot(place, r) && r != s.m.kernel && LowSlot(s.m, r))
    && LowSlot(s.m, s.m.kernel)
    && (forall k | 0 <= k < s.count :: OnScreen(s.m, s.base, k))
  }

  /** Ring 3 may write all physical memory below this address: vmm_init() maps it user-accessible. */
  const USER_LOW: nat := 0x400000

  ghost predicate High(f: nat) { f >= USER_LOW / 4096 }

  /** Neither a table or data page, nor a frame that could become one, lies below 4 MiB. */
  ghost predicate Clear(m: Memory, place: Places) {
    && (forall t | t in place :: High(t))
    && (forall f | f in m.pool.free :: High(f))
  }

  predicate LowStore(step: Step) { step.Store? && step.a < USER_LOW }

  lemma CreateConfined(m: Memory, place: Places) returns (place': Places)
    requires Tree(m, place) && CreateSpace(m).Some?
    ensures var (m', r) := CreateSpace(m).value;
            Tree(m', place') && Confined(m, place, m', place', r) && r !in place && IsRoot(place', r)
  {
    place' := CreateKeeps(m, place);
    forall r, p | IsRoot(place, r) && Outside(r, p, CreateSpace(m).value.1)
      ensures Lookup(CreateSpace(m).value.0, r, p) == Lookup(m, r, p)
    {
      CreateRefines(m, place, r, p);
    }
  }

  /** A leaf of the identity map is a user page exactly below 4 MiB. */
  lemma LowUser(a: nat)
    requires a < 0x8000000000
    ensures Path(a)[0] == 0
    ensures var e := LowLeaf(Path(a)); (e.Some? && e.value.user <==> a < USER_LOW) && (e.Some? ==> e.value.writable)
  {
    PathBits(a);
  }

  /** There it maps an address to itself. */
  lemma LowTarget(a: nat)
    requires a < USER_LOW
    ensures LowLeaf(Path(a)).Some? && Target(LowLeaf(Path(a)).value, a) == a / 4096
  {
    PathBits(a);
  }

  /** Below 4 MiB a store goes to the frame of the same address; the rest of the slot refuses it. */
  lemma LowStoreIs(m: Memory, place: Places, p: nat, a: nat, b: byte)
    requires Tree(m, place) && IsRoot(place, p) && LowSlot(m, p) && a < 0x8000000000
    ensures UserStore(m, p, a, b) == if a < USER_LOW then PhysStore(m, a / 4096, a % 4096, b) else m
    ensures UserMay(m, p, a, true) <==> a < USER_LOW
  {
    LowUser(a);
    if a < USER_LOW { LowTarget(a); }
    assert LowAt(m, p, Path(a)) && Below(place, p, Path(a));
    HardwareAgrees(m, place, p, Path(a));
  }

  /** A frame outside the forest can change without anyone noticing. */
  lemma UnplacedChange(m: Memory, place: Places, f: nat, page: Page, root: nat)
    requires Tree(m, place) && f !in place
    ensures var m' := m.(ram := m.ram[f := page]);
            Tree(m', place) && Confined(m, place, m', place, root) && SameLookups(m, place, m')
  {
    var m' := m.(ram := m.ram[f := page]);
    forall u | u in place ensures FrameOk(m', place, u) { assert FrameOk(m, place, u); }
    forall u, j | u in place && |place[u].path| <= 3 && 0 <= j < 512 ensures EntryOk(m', place, u, j) {
      assert EntryOk(m, place, u, j);
    }
    forall u, p | Below(place, u, p) ensures Lookup(m', u, p) == Lookup(m, u, p) {
      LookupUntouched(m, m', place, u, p);
    }
    forall r, p | IsRoot(place, r) && Outside(r, p, root) ensures Lookup(m', r, p) == Lookup(m, r, p) {
      assert Below(place, r, p);
    }
    forall u | u in place && |place[u].path| == 4 ensures u in m.ram { assert FrameOk(m, place, u); }
  }

  lemma PrivateStore(m: Memory, place: Places, p: nat, a: nat, b: byte)
    requires Tree(m, place) && IsRoot(place, p) && Path(a)[0] != 0
    ensures var m' := UserStore(m, p, a, b);
            Tree(m', place) && Confined(m, place, m', place, p) && SameLookups(m, place, m')
  {
    ConfinedSelf(m, place, p);
    assert Below(place, p, Path(a)) && [] + Path(a) == Path(a);
    HardwareAgrees(m, place, p, Path(a));
    if Lookup(m, p, Path(a)).Some? {
      LookupPlace(m, place, p, Path(a));
      var f := Lookup(m, p, Path(a)).value.frame;
      if f !in m.fb {
        assert FrameOk(m, place, f);
        WriteDataKeeps(m, place, f, m.ram[f].data[a % 4096 := b]);
      }
    }
  }

  /**
   A process's store to its private window takes effect exactly when ring 3 may write there: it changes that byte, in
   memory other than the framebuffer, and is refused otherwise.
   */
  lemma StoreTakesEffect(m: Memory, place: Places, p: nat, a: nat, b: byte)
    requires Tree(m, place) && IsRoot(place, p) && 0x80_0000_0000 <= a < 0x1_0000_0000_0000
    ensures !UserMay(m, p, a, true) ==> UserStore(m, p, a, b) == m
    ensures UserMay(m, p, a, true) && Translate(m, p, Path(a)).value.leaf.frame !in m.fb ==>
              ByteAt(UserStore(m, p, a, b), p, a) == Some(b)
  {
    SlotZero(a);
    assert Below(place, p, Path(a)) && [] + Path(a) == Path(a);
    HardwareAgrees(m, place, p, Path(a));
    if UserMay(m, p, a, true) && Translate(m, p, Path(a)).value.leaf.frame !in m.fb {
      LookupPlace(m, place, p, Path(a));
      var f := Lookup(m, p, Path(a)).value.frame;
      assert FrameOk(m, place, f);
      WriteDataAt(m, place, p, Path(a), f, m.ram[f].data[a % 4096 := b], a);
    }
  }

  /** A store below 4 MiB to a frame that is neither a table nor a data page. */
  lemma UnusedStore(m: Memory, place: Places, f: nat, o: nat, b: byte, root: nat)
    requires Tree(m, place) && f !in place && o < 4096
    ensures var m' := PhysStore(m, f, o, b);
            Tree(m', place) && Confined(m, place, m', place, root) && SameLookups(m, place, m')
  {
    ConfinedSelf(m, place, root);
    if IsData(m, f) {
      UnplacedChange(m, place, f, Bytes(m.ram[f].data[o := b]), root);
    } else if IsTable(m, f) {
      UnplacedChange(m, place, f, Table(m.ram[f].entries[o / 8 := Patched(Entry(m, f, o / 8), o % 8, b)]), root);
    }
  }

  lemma StoreConfined(m: Memory, place: Places, p: nat, a: nat, b: byte)
    requires Tree(m, place) && IsRoot(place, p) && LowSlot(m, p) && (a < USER_LOW ==> Clear(m, place))
    ensures var m' := UserStore(m, p, a, b);
            Tree(m', place) && Confined(m, place, m', place, p) && SameLookups(m, place, m')
  {
    ConfinedSelf(m, place, p);
    if a < 0x8000000000 {
      LowStoreIs(m, place, p, a, b);
      if a < USER_LOW {
        assert !High(a / 4096);
        UnusedStore(m, place, a / 4096, a % 4096, b, p);
      }
    } else if a < 0x1_0000_0000_0000 {
      SlotZero(a);
      PrivateStore(m, place, p, a, b);
    }
  }

  lemma SpawnConfined(s: System, place: Places, step: Step) returns (place': Places)
    requires Sound(s, place) && step.Spawn? && Apply(s, step).Some?
    ensures Confined(s.m, place, Apply(s, step).value.m, place', Actor(s, step))
    ensures Tree(Apply(s, step).value.m, place') && IsRoot(place', Actor(s, step)) && Actor(s, step) !in place
  {
    var (m1, r) := CreateSpace(s.m).value;
    var place1 := CreateConfined(s.m, place);
    place' := LoadKeeps(m1, place1, r, step.file, Segments(step.file), step.argv);
    ConfinedTrans(s.m, place, m1, place1, Apply(s, step).value.m, place', r);
  }

  lemma SbrkConfined(m: Memory, place: Places, root: nat, brk: nat, inc: int) returns (place': Places)
    requires Tree(m, place) && IsRoot(place, root) && SysSbrk(m, root, brk, inc).Sbrk?
    ensures var m' := SysSbrk(m, root, brk, inc).m;
            Tree(m', place') && IsRoot(place', root) && Confined(m, place, m', place', root)
  {
    if inc < 0 {
      place' := place;
      ConfinedSelf(m, place, root);
    } else {
      place' := GrowToKeeps(m, place, root, RoundDown(brk), RoundUp(brk + inc));
    }
  }

  /** Stores below 4 MiB hit nothing that is in use. */
  ghost predicate Safe(s: System, place: Places, step: Step) {
    LowStore(step) ==> Clear(s.m, place)
  }

  /** Every step keeps the forest of tables and is confined to the process it acts for. */
  lemma StepConfined(s: System, place: Places, step: Step) returns (place': Places)
    requires Sound(s, place) && Enabled(s, step) && Apply(s, step).Some? && Safe(s, place, step)
    ensures Tree(Apply(s, step).value.m, place') && IsRoot(place', Actor(s, step))
    ensures Confined(s.m, place, Apply(s, step).value.m, place', Actor(s, step))
    ensures step.Spawn? ==> Actor(s, step) !in place
  {
    match step
    case Spawn(_, _) => place' := SpawnConfined(s, place, step);
    case Fault(p, addr, present, ring3) => place' := StackFaultKeeps(s.m, place, p, addr, present, ring3);
    case Break(p, inc) => place' := SbrkConfined(s.m, place, p, s.brk[p], inc);
    case Screen(p) => place' := MapScreenKeeps(s.m, place, p, s.base, s.count, 0);
    case Store(p, a, b) =>
      place' := place;
      StoreConfined(s.m, place, p, a, b);
  }

  lemma SpawnLow(s: System, place: Places, step: Step, p: seq<nat>)
    requires Sound(s, place) && step.Spawn? && Apply(s, step).Some? && FullPath(p) && p[0] == 0
    ensures Lookup(Apply(s, step).value.m, Actor(s, step), p) == Lookup(s.m, s.m.kernel, p)
  {
    var (m1, r) := CreateSpace(s.m).value;
    var place1 := CreateKeeps(s.m, place);
    CreateRefines(s.m, place, r, p);
    var place2 := LoadKeeps(m1, place1, r, step.file, Segments(step.file), step.argv);
    assert Outside(r, p, r);
  }

  /** The root whose view of the kernel slot r had before it was created. */
  function Known(s: System, r: nat): nat { if r in s.brk then r else s.m.kernel }

  lemma StepLow(s: System, place: Places, step: Step, r: nat)
    requires Sound(s, place) && Enabled(s, step) && Apply(s, step).Some? && Safe(s, place, step)
    requires r in Apply(s, step).value.brk || r == s.m.kernel
    ensures LowSlot(Apply(s, step).value.m, r)
  {
    var place' := StepConfined(s, place, step);
    forall p | FullPath(p) && p[0] == 0 ensures LowAt(Apply(s, step).value.m, r, p) {
      assert LowAt(s.m, Known(s, r), p);
      if r in s.brk || r == s.m.kernel {
        assert IsRoot(place, r) && Outside(r, p, Actor(s, step));
      } else {
        SpawnLow(s, place, step, p);
      }
    }
  }

  lemma StepSound(s: System, place: Places, step: Step) returns (place': Places)
    requires Sound(s, place) && Enabled(s, step) && Apply(s, step).Some? && Safe(s, place, step)
    ensures Sound(Apply(s, step).value, place')
    ensures Confined(s.m, place, Apply(s, step).value.m, place', Actor(s, step))
    ensures Clear(s.m, place) ==> Clear(Apply(s, step).value.m, place')
  {
    place' := StepConfined(s, place, step);
    var s' := Apply(s, step).value;
    forall r | r in s'.brk ensures IsRoot(place', r) && r != s'.m.kernel && LowSlot(s'.m, r) {
      assert r in s.brk || r == Actor(s, step);
      StepLow(s, place, step, r);
    }
    StepLow(s, place, step, s.m.kernel);
    forall k | 0 <= k < s'.count ensures OnScreen(s'.m, s'.base, k) {
      assert OnScreen(s.m, s.base, k);
    }
  }

  // ---------------------------------------------------------------- whole runs

  ghost predicate StepAt(run: seq<System>, steps: seq<Step>, i: nat)
    requires |run| == |steps| + 1 && i < |steps|
  {
    Enabled(run[i], steps[i]) && Apply(run[i], steps[i]) == Some(run[i + 1])
  }

  /** A run starts at boot, with no processes, and takes one step after another. */
  ghost predicate IsRun(run: seq<System>, steps: seq<Step>, pool: Pool, fb: set<nat>) {
    && |run| == |steps| + 1
    && fb !! pool.free && Boot(pool, fb) == Some(run[0].m) && run[0].brk == map[]
    && (forall k | 0 <= k < run[0].count :: OnScreen(run[0].m, run[0].base, k))
    && forall i | 0 <= i < |steps| :: StepAt(run, steps, i)
  }

  /** No frame the allocator owns lies below 4 MiB, which can be read off the memory map at boot. */
  ghost predicate HighPool(pool: Pool) { forall f | f in pool.free :: High(f) }

  /** What isolation needs: such a memory map, or processes that never store below 4 MiB. */
  ghost predicate Guarded(pool: Pool, steps: seq<Step>) {
    HighPool(pool) || forall k | 0 <= k < |steps| :: !LowStore(steps[k])
  }

  lemma BootSound(pool: Pool, fb: set<nat>, s: System) returns (place: Places)
    requires fb !! pool.free && Boot(pool, fb) == Some(s.m) && s.brk == map[]
    requires forall k | 0 <= k < s.count :: OnScreen(s.m, s.base, k)
    ensures Sound(s, place) && (HighPool(pool) ==> Clear(s.m, place))
  {
    place := BootTree(pool, fb);
    forall p | FullPath(p) && p[0] == 0 ensures LowAt(s.m, s.m.kernel, p) { BootLow(pool, fb, p); }
  }

  lemma {:induction false} RunSound(run: seq<System>, steps: seq<Step>, pool: Pool, fb: set<nat>, i: nat)
    returns (place: Places)
    requires IsRun(run, steps, pool, fb) && Guarded(pool, steps) && i < |run|
    ensures Sound(run[i], place) && (HighPool(pool) ==> Clear(run[i].m, place))
    ensures run[i].m.kernel == run[0].m.kernel && (i < |steps| ==> Safe(run[i], place, steps[i]))
  {
    if i == 0 {
      place := BootSound(pool, fb, run[0]);
    } else {
      var before := RunSound(run, steps, pool, fb, i - 1);
      assert StepAt(run, steps, i - 1);
      place := StepSound(run[i - 1], before, steps[i - 1]);
    }
  }

  /**
   In every state of every run, two processes' private pages that map the same frame map
   the framebuffer, and no private page maps a page table.
   */
  lemma RunIsolation(run: seq<System>, steps: seq<Step>, pool: Pool, fb: set<nat>, i: nat, p: nat, a: nat, q: nat, b: nat)
    requires IsRun(run, steps, pool, fb) && Guarded(pool, steps) && i < |run| && p in run[i].brk && q in run[i].brk
    requires Path(a)[0] != 0 && Path(b)[0] != 0
    requires Mapped(run[i].m, p, a) && Mapped(run[i].m, q, b)
    requires Lookup(run[i].m, p, Path(a)).value.frame !in run[i].m.fb
    ensures Lookup(run[i].m, p, Path(a)).value.frame == Lookup(run[i].m, q, Path(b)).value.frame
            ==> p == q && Path(a) == Path(b)
    ensures IsData(run[i].m, Lookup(run[i].m, p, Path(a)).value.frame)
  {
    var place := RunSound(run, steps, pool, fb, i);
    Isolation(run[i].m, place, p, Path(a), q, Path(b));
  }

  /**
   No step of any run, whichever process it acts for, changes a translation that the
   kernel or another process sees, or a byte of another process's private window.
   */
  lemma NonInterference(run: seq<System>, steps: seq<Step>, pool: Pool, fb: set<nat>, i: nat, q: nat, a: nat)
    requires IsRun(run, steps, pool, fb) && Guarded(pool, steps) && i < |steps| && StepAt(run, steps, i)
    requires (q in run[i].brk || q == run[i].m.kernel) && q != Actor(run[i], steps[i])
    ensures Lookup(run[i + 1].m, q, Path(a)) == Lookup(run[i].m, q, Path(a))
    ensures Path(a)[0] != 0 ==> ByteAt(run[i + 1].m, q, a) == ByteAt(run[i].m, q, a)
  {
    var place := RunSound(run, steps, pool, fb, i);
    var place' := StepConfined(run[i], place, steps[i]);
    assert IsRoot(place, q) && Outside(q, Path(a), Actor(run[i], steps[i]));
    if Path(a)[0] != 0 {
      Invisible(run[i].m, place, run[i + 1].m, place', Actor(run[i], steps[i]), q, a);
    }
  }

  /**
   A spawn in any run makes a process that did not exist before, with its break at the heap start, and leaves every
   other break alone; and of a file with these headers the new process sees each segment byte for byte, with its rights.
   */
  lemma SpawnedProcess(run: seq<System>, steps: seq<Step>, pool: Pool, fb: set<nat>, i: nat, h: Ehdr, ps: seq<Phdr>, j: nat, k: nat)
    requires IsRun(run, steps, pool, fb) && Guarded(pool, steps) && i < |steps| && StepAt(run, steps, i) && steps[i].Spawn?
    ensures var r := Actor(run[i], steps[i]);
            r !in run[i].brk && run[i + 1].brk == run[i].brk[r := 0x80_0140_0000]
    ensures var file := steps[i].file;
            HasHeaders(file, h, ps) && OnOwnPages(ps) && |file.bytes| < 0x1_0000_0000 && j < |ps| && ps[j].kind == 1
            && k < ps[j].memsz && ps[j].offset + ps[j].filesz < U64 ==>
              Presents(run[i + 1].m, Actor(run[i], steps[i]), file, ps[j], k)
  {
    var place := RunSound(run, steps, pool, fb, i);
    SpawnIsNew(run[i], place, steps[i]);
    var file := steps[i].file;
    if HasHeaders(file, h, ps) && OnOwnPages(ps) && |file.bytes| < 0x1_0000_0000 && j < |ps| && ps[j].kind == 1
       && k < ps[j].memsz && ps[j].offset + ps[j].filesz < U64 {
      SpawnPresents(run[i], place, steps[i], h, ps, j, k);
    }
  }

  lemma SpawnIsNew(s: System, place: Places, step: Step)
    requires Sound(s, place) && step.Spawn? && Apply(s, step).Some?
    ensures Actor(s, step) !in s.brk && Apply(s, step).value.brk == s.brk[Actor(s, step) := 0x80_0140_0000]
  {
    var place1 := CreateConfined(s.m, place);
  }

  lemma SpawnPresents(s: System, place: Places, step: Step, h: Ehdr, ps: seq<Phdr>, j: nat, k: nat)
    requires Sound(s, place) && step.Spawn? && Apply(s, step).Some?
    requires HasHeaders(step.file, h, ps) && OnOwnPages(ps) && |step.file.bytes| < 0x1_0000_0000
    requires j < |ps| && ps[j].kind == 1 && k < ps[j].memsz && ps[j].offset + ps[j].filesz < U64
    ensures Presents(Apply(s, step).value.m, Actor(s, step), step.file, ps[j], k)
  {
    var (m1, r) := CreateSpace(s.m).value;
    var place1 := CreateConfined(s.m, place);
    LoadedElf(m1, place1, r, step.file, step.argv, h, ps, j, k);
  }

  // ---------------------------------------------------------------- the kernel slot in every run

  /** The kernel's root and every process see the boot-time map through PML4[0]. */
  lemma LowInEveryRun(run: seq<System>, steps: seq<Step>, pool: Pool, fb: set<nat>, i: nat, r: nat, p: seq<nat>)
    requires IsRun(run, steps, pool, fb) && Guarded(pool, steps) && i < |run| && FullPath(p) && p[0] == 0
    requires r in run[i].brk || r == run[i].m.kernel
    ensures LowAt(run[i].m, r, p)
  {
    var place := RunSound(run, steps, pool, fb, i);
    assert LowSlot(run[i].m, r);
  }

  /**
   Of the addresses in the shared slot, ring 3 may touch exactly those below 4 MiB, at
   every moment of every run. The kernel image is linked at 1 MiB, inside them.
   */
  lemma KernelSlotAccess(run: seq<System>, steps: seq<Step>, pool: Pool, fb: set<nat>, i: nat, q: nat, a: nat, write: bool)
    requires IsRun(run, steps, pool, fb) && Guarded(pool, steps) && i < |run| && q in run[i].brk && a < 0x8000000000
    ensures UserMay(run[i].m, q, a, write) <==> a < 0x400000
  {
    LowUser(a);
    LowInEveryRun(run, steps, pool, fb, i, q, Path(a));
    var place := RunSound(run, steps, pool, fb, i);
    LeafIsEnough(run[i].m, place, q, a, write);
  }

  // ---------------------------------------------------------------- frames below 4 MiB

  /** From the hint pmm_init() leaves, the first page handed out is the lowest free one. */
  lemma LowestIsPicked(pool: Pool, f: nat)
    requires Tracked(pool) && pool.hint == 1 && 0 !in pool.free && f in pool.free
    ensures Pick(pool).Some? && Pick(pool).value <= f
  {
    PickIsNearest(pool);
    SmallMod(1, pool.bits + 1);
  }

  /**
   The guard on the memory map is needed. If the allocator owns a frame below 4 MiB when
   vmm_init() runs, kernel_pml4 is such a frame, and any process can unmap the kernel
   slot with one byte.
   */
  lemma LowFrameExposesKernel(run: seq<System>, steps: seq<Step>, pool: Pool, fb: set<nat>, f: nat, i: nat, p: nat)
    requires IsRun(run, steps, pool, fb) && (forall k | 0 <= k < |steps| :: !LowStore(steps[k])) && i < |run|
    requires Tracked(pool) && pool.hint == 1 && 0 !in pool.free && f in pool.free && !High(f)
    requires p in run[i].brk
    ensures var m := run[i].m; var a := 4096 * m.kernel; var m' := UserStore(m, p, a, 0);
            && UserMay(m, p, a, true) && Lookup(m, m.kernel, Path(0)).Some? && Lookup(m', m.kernel, Path(0)).None?
  {
    var place := RunSound(run, steps, pool, fb, i);
    var _ := BootTree(pool, fb);
    LowestIsPicked(pool, f);
    ClearsKernelSlot(run[i], place, p);
  }

  /** Byte 0 of PML4[0], cleared. */
  lemma ClearsEntry(m: Memory, k: nat)
    requires IsTable(m, k) && k !in m.fb
    ensures !Entry(PhysStore(m, k, 0, 0), k, 0).present
  {
    var bytes := Le(EntryWord(Entry(m, k, 0)), WORD)[0 := 0];
    assert Value(bytes) == 256 * Value(bytes[1..]);
  }

  lemma ClearsKernelSlot(s: System, place: Places, p: nat)
    requires Sound(s, place) && p in s.brk && !High(s.m.kernel)
    ensures var m := s.m; var a := 4096 * m.kernel; var m' := UserStore(m, p, a, 0);
            && UserMay(m, p, a, true) && Lookup(m, m.kernel, Path(0)).Some? && Lookup(m', m.kernel, Path(0)).None?
  {
    var k := s.m.kernel;
    LowStoreIs(s.m, place, p, 4096 * k, 0);
    LowTarget(0);
    LowUser(0);
    assert LowAt(s.m, k, Path(0)) && FrameOk(s.m, place, k);
    ClearsEntry(s.m, k);
  }

  /**
   What a store below 4 MiB does to a private page of any process, when it does not hit a
   page table: it changes the byte exactly when the page lies in the frame it goes to.
   */
  lemma LowStoreSeenBy(run: seq<System>, steps: seq<Step>, pool: Pool, fb: set<nat>, i: nat, p: nat, a: nat, b: byte, q: nat, x: nat)
    requires IsRun(run, steps, pool, fb) && Guarded(pool, steps) && i < |run| && p in run[i].brk && q in run[i].brk
    requires a < USER_LOW && !IsTable(run[i].m, a / 4096) && a / 4096 !in run[i].m.fb && Path(x)[0] != 0
    ensures var m := run[i].m; var e := Lookup(m, q, Path(x));
            ByteAt(UserStore(m, p, a, b), q, x)
            == if e.Some? && e.value.frame == a / 4096 && x % 4096 == a % 4096 then Some(b) else ByteAt(m, q, x)
  {
    var place := RunSound(run, steps, pool, fb, i);
    LowStoreIs(run[i].m, place, p, a, b);
    DataStoreSeenBy(run[i].m, place, a / 4096, a % 4096, b, q, x);
  }

  lemma DataStoreSeenBy(m: Memory, place: Places, f: nat, o: nat, b: byte, q: nat, x: nat)
    requires Tree(m, place) && IsRoot(place, q) && Path(x)[0] != 0 && o < 4096 && !IsTable(m, f) && f !in m.fb
    ensures var e := Lookup(m, q, Path(x));
            ByteAt(PhysStore(m, f, o, b), q, x)
            == if e.Some? && e.value.frame == f && x % 4096 == o then Some(b) else ByteAt(m, q, x)
  {
    assert Below(place, q, Path(x)) && [] + Path(x) == Path(x);
    if Lookup(m, q, Path(x)).Some? {
      LookupPlace(m, place, q, Path(x));
      assert At(place, f, q, Path(x)) ==> FrameOk(m, place, f);
    }
    if IsData(m, f) {
      LookupUntouched(m, PhysStore(m, f, o, b), place, q, Path(x));
    }
  }

  // ---------------------------------------------------------------- the heap window in every run

  predicate EndsBelowHeap(segs: seq<Segment>) {
    forall i | 0 <= i < |segs| && segs[i].load :: End(segs[i]) <= HEAP_START
  }

  /** Mapped segments end below the heap start, and the break is never asked past the framebuffer window. */
  ghost predicate Orderly(s: System, step: Step) {
    match step
    case Spawn(file, _) => EndsBelowHeap(Segments(file))
    case Break(p, inc) => p in s.brk ==> s.brk[p] + inc <= FB_START
    case Screen(_) => ScreenPage(s.count) <= 0x8000_0000_0000
    case _ => true
  }

  lemma Uncovered(segs: seq<Segment>, a: nat)
    requires HEAP_START <= a && EndsBelowHeap(segs)
    ensures Fit(segs) && forall i | 0 <= i < |segs| :: !Covers(segs[i], a)
  {
  }

  ghost predicate WindowKept(m: Memory, m': Memory, root: nat) {
    forall a | HEAP_START <= a < FB_START :: KeptAt(m, m', root, a)
  }

  ghost predicate KeptAt(m: Memory, m': Memory, root: nat, a: nat) {
    Lookup(m', root, Path(a)) == Lookup(m, root, Path(a))
  }

  lemma WindowHeap(m: Memory, m': Memory, root: nat, brk: nat)
    requires HeapOk(m, root, brk) && WindowKept(m, m', root)
    ensures HeapOk(m', root, brk)
  {
    forall a | HEAP_START <= a < FB_START
      ensures WritableIfPresent(m', root, a) && (Mapped(m, root, a) ==> Mapped(m', root, a))
    {
      assert KeptAt(m, m', root, a) && WritableIfPresent(m, root, a);
    }
    forall a | HEAP_START <= a < brk ensures Mapped(m', root, a) {
      assert Mapped(m, root, a);
    }
  }

  lemma OtherWindow(m: Memory, place: Places, m': Memory, place': Places, root: nat, q: nat)
    requires Confined(m, place, m', place', root) && IsRoot(place, q) && q != root
    ensures WindowKept(m, m', q)
  {
    forall a | HEAP_START <= a < FB_START ensures KeptAt(m, m', q, a) {
      assert Outside(q, Path(a), root);
    }
  }

  lemma FaultWindow(m: Memory, place: Places, root: nat, addr: nat, present: bool, ring3: bool)
    requires Tree(m, place) && IsRoot(place, root) && StackFault(m, root, addr, present, ring3).Some?
    ensures WindowKept(m, StackFault(m, root, addr, present, ring3).value.0, root)
  {
    forall a | HEAP_START <= a < FB_START
      ensures KeptAt(m, StackFault(m, root, addr, present, ring3).value.0, root, a)
    {
      if StackFault(m, root, addr, present, ring3).value.1 {
        var page: nat := addr - addr % 4096;
        ApartPaths(a, page);
        MapFreshElsewhere(m, place, root, page, Zeros(4096), true, false, root, Path(a));
      }
    }
  }

  /** Pages at or above the framebuffer window are not pages of the heap window. */
  lemma ApartPaths(a: nat, page: nat)
    requires HEAP_START <= a < FB_START <= page < 0x8000_0000_0000
    ensures Path(a) != Path(page)
  {
    if Path(a) == Path(page) { PathInjective(a, page); }
  }

  lemma {:induction false} ScreenWindow(m: Memory, place: Places, root: nat, base: nat, count: nat, i: nat, a: nat)
    requires Tree(m, place) && IsRoot(place, root) && MapScreen(m, root, base, count, i).Some?
    requires (forall k | i <= k < count :: OnScreen(m, base, k)) && ScreenPage(count) <= 0x8000_0000_0000
    requires HEAP_START <= a < FB_START
    ensures KeptAt(m, MapScreen(m, root, base, count, i).value, root, a)
    decreases count - i
  {
    if i < count {
      if Lookup(m, root, Path(ScreenPage(i))).Some? {
        ScreenWindow(m, place, root, base, count, i + 1, a);
      } else {
        assert OnScreen(m, base, i);
        var m1 := MapPage(m, root, ScreenPage(i), base + i, true, false).value;
        var place1 := MapFbConfined(m, place, root, ScreenPage(i), base + i);
        forall k | i + 1 <= k < count ensures OnScreen(m1, base, k) { assert OnScreen(m, base, k); }
        ApartPaths(a, ScreenPage(i));
        MapRefines(m, place, root, ScreenPage(i), base + i, true, false, root, Path(a));
        ScreenWindow(m1, place1, root, base, count, i + 1, a);
      }
    }
  }

  lemma CreatedWindow(m: Memory, place: Places, a: nat)
    requires Tree(m, place) && CreateSpace(m).Some? && HEAP_START <= a < FB_START
    ensures !Mapped(CreateSpace(m).value.0, CreateSpace(m).value.1, a)
  {
    WindowPath(a);
    CreateRefines(m, place, CreateSpace(m).value.1, Path(a));
  }

  lemma WindowPath(a: nat)
    requires HEAP_START <= a < FB_START
    ensures Path(a)[0] == 1 && Path(a) != PRIVATE_PATH
  {
    PathBits(a);
    assert Path(a)[2] != 0;
  }

  lemma LoadedWindow(m: Memory, place: Places, r: nat, file: File, segs: seq<Segment>, argv: seq<seq<byte>>, a: nat)
    requires Tree(m, place) && IsRoot(place, r) && Load(m, r, file, segs, argv).Some?
    requires HEAP_START <= a < FB_START && EndsBelowHeap(segs)
    ensures KeptAt(m, Load(m, r, file, segs, argv).value, r, a)
  {
    WindowIsPrivate(a);
    var place1 := LoadSegmentsKeeps(m, place, r, file, segs);
    Uncovered(segs, a);
    LoadElsewhere(m, place, r, file, segs, a);
    StackAt(LoadSegments(m, r, file, segs).value, place1, r, argv, a);
  }

  lemma SpawnWindow(s: System, place: Places, step: Step, a: nat)
    requires Sound(s, place) && step.Spawn? && Apply(s, step).Some? && Orderly(s, step)
    requires HEAP_START <= a < FB_START
    ensures !Mapped(Apply(s, step).value.m, Actor(s, step), a)
  {
    CreatedWindow(s.m, place, a);
    var place1 := CreateKeeps(s.m, place);
    LoadedWindow(CreateSpace(s.m).value.0, place1, Actor(s, step), step.file, Segments(step.file), step.argv, a);
  }

  ghost predicate Heaps(s: System) {
    forall r | r in s.brk :: HeapOk(s.m, r, s.brk[r])
  }

  lemma ActorHeap(s: System, place: Places, step: Step)
    requires Sound(s, place) && Heaps(s) && Enabled(s, step) && Apply(s, step).Some? && Orderly(s, step)
    requires Safe(s, place, step)
    ensures var s', r := Apply(s, step).value, Actor(s, step); r in s'.brk && HeapOk(s'.m, r, s'.brk[r])
  {
    var s' := Apply(s, step).value;
    match step
    case Spawn(_, _) =>
      var r := Actor(s, step);
      forall a | HEAP_START <= a < FB_START ensures WritableIfPresent(s'.m, r, a) {
        SpawnWindow(s, place, step, a);
      }
    case Fault(p, addr, present, ring3) =>
      FaultWindow(s.m, place, p, addr, present, ring3);
      WindowHeap(s.m, s'.m, p, s.brk[p]);
    case Break(p, inc) =>
      var _ := SbrkKeeps(s.m, place, p, s.brk[p], inc);
    case Screen(p) =>
      forall a | HEAP_START <= a < FB_START ensures KeptAt(s.m, s'.m, p, a) {
        ScreenWindow(s.m, place, p, s.base, s.count, 0, a);
      }
      WindowHeap(s.m, s'.m, p, s.brk[p]);
    case Store(p, a, b) =>
      StoreConfined(s.m, place, p, a, b);
      forall x | HEAP_START <= x < FB_START ensures KeptAt(s.m, s'.m, p, x) {
        assert Below(place, p, Path(x));
      }
      WindowHeap(s.m, s'.m, p, s.brk[p]);
  }

  lemma StepHeaps(s: System, place: Places, step: Step)
    requires Sound(s, place) && Heaps(s) && Enabled(s, step) && Apply(s, step).Some? && Orderly(s, step)
    requires Safe(s, place, step)
    ensures Heaps(Apply(s, step).value)
  {
    var s', r := Apply(s, step).value, Actor(s, step);
    ActorHeap(s, place, step);
    var place' := StepConfined(s, place, step);
    forall q | q in s'.brk ensures HeapOk(s'.m, q, s'.brk[q]) {
      if q != r {
        OtherWindow(s.m, place, s'.m, place', r, q);
        WindowHeap(s.m, s'.m, q, s.brk[q]);
      }
    }
  }

  lemma HeapsNext(run: seq<System>, steps: seq<Step>, pool: Pool, fb: set<nat>, i: nat)
    requires IsRun(run, steps, pool, fb) && Guarded(pool, steps) && i < |steps|
    requires StepAt(run, steps, i) && Orderly(run[i], steps[i]) && Heaps(run[i])
    ensures Heaps(run[i + 1])
  {
    var place := RunSound(run, steps, pool, fb, i);
    StepHeaps(run[i], place, steps[i]);
  }

  lemma {:induction false} RunHeaps(run: seq<System>, steps: seq<Step>, pool: Pool, fb: set<nat>, i: nat)
    requires IsRun(run, steps, pool, fb) && Guarded(pool, steps) && i < |run|
    requires forall j | 0 <= j < |steps| :: Orderly(run[j], steps[j])
    ensures Heaps(run[i])
  {
    if i > 0 {
      RunHeaps(run, steps, pool, fb, i - 1);
      assert StepAt(run, steps, i - 1) && Orderly(run[i - 1], steps[i - 1]);
      HeapsNext(run, steps, pool, fb, i - 1);
    }
  }

  /**
   In every orderly run, at every moment, every byte from the heap start to the break of
   every process may be read and written by it.
   */
  lemma HeapsInEveryRun(run: seq<System>, steps: seq<Step>, pool: Pool, fb: set<nat>, i: nat, p: nat, a: nat)
    requires IsRun(run, steps, pool, fb) && Guarded(pool, steps) && i < |run|
    requires forall j | 0 <= j < |steps| :: Orderly(run[j], steps[j])
    requires p in run[i].brk && 0x80_0140_0000 <= a < run[i].brk[p]
    ensures UserMay(run[i].m, p, a, true)
  {
    RunHeaps(run, steps, pool, fb, i);
    var place := RunSound(run, steps, pool, fb, i);
    HeapIsUsable(run[i].m, place, p, run[i].brk[p], a);
  }
}
