/**
 What elf_load_user_program() of kernel/src/elf_loader.c makes of a file, in the terms of the
 fields of its headers: which bytes stand at which addresses with which rights, what stays
 as it was, and when a file is refused.
 */
module ElfProcess {
  import opened Common
  import opened PagePool
  import opened PageTables
  import opened AddressSpaces
  import opened UserMemory
  import opened ElfFile
  import opened ElfImage
  import opened ElfLayout
  import ArgvBlob

  /** The numbers of the first page of a segment and of the one after its last. */
  function FirstPage(p: Phdr): nat { p.vaddr / 4096 }

  function EndPage(p: Phdr): nat { (p.vaddr + p.memsz + 4095) / 4096 }

  /** Segments in the low half of the address space, no two of them on one page, and none on the top stack page. */
  ghost predicate OnOwnPages(ps: seq<Phdr>) {
    && (forall i | 0 <= i < |ps| && ps[i].kind == 1 :: ps[i].vaddr + ps[i].memsz <= 0x7FFF_FFFF_F000)
    && (forall i, j | 0 <= i < j < |ps| && ps[i].kind == 1 && ps[j].kind == 1 ::
          EndPage(ps[i]) <= FirstPage(ps[j]) || EndPage(ps[j]) <= FirstPage(ps[i]))
    && (forall i | 0 <= i < |ps| && ps[i].kind == 1 :: EndPage(ps[i]) <= 0x800_FFFF || 0x801_0000 <= FirstPage(ps[i]))
  }

  /** A page is covered exactly when its number is between those two. */
  lemma CoversPage(p: Phdr, a: nat)
    requires p.vaddr + p.memsz <= 0x7FFF_FFFF_F000
    ensures Covers(AsSegment(p), a) <==> p.kind == 1 && FirstPage(p) <= a / 4096 < EndPage(p)
    ensures End(AsSegment(p)) == 4096 * EndPage(p) <= 0x8000_0000_0000 && Whole(AsSegment(p))
  {
    var x := p.vaddr + p.memsz + 4095;
    assert RoundDown(x) == 4096 * (x / 4096) && RoundDown(p.vaddr) == 4096 * (p.vaddr / 4096);
  }

  lemma OwnPagesApart(file: File, h: Ehdr, ps: seq<Phdr>)
    requires HasHeaders(file, h, ps) && OnOwnPages(ps)
    ensures Fit(Segments(file)) && Apart(Segments(file))
  {
    ReadsFile(file, h, ps);
    var segs := Segments(file);
    forall i | 0 <= i < |segs| && segs[i].load ensures End(segs[i]) <= 0x8000_0000_0000 {
      CoversPage(ps[i], 0);
    }
    forall i, j, a | 0 <= i < j < |segs| && Covers(segs[i], a) ensures !Covers(segs[j], a) {
      CoversPage(ps[i], a);
      if segs[j].load { CoversPage(ps[j], a); }
    }
    forall i, a | 0 <= i < |segs| && STACK_PAGE <= a < STACK_TOP ensures !Covers(segs[i], a) {
      if segs[i].load { CoversPage(ps[i], a); }
    }
  }

  /**
   Byte k of a PT_LOAD segment: at p_vaddr + k ring 3 reads the file byte at p_offset + k below
   p_filesz, and zero from there on, and may write and execute there exactly as bits 1 and 0
   of p_flags say.
   */
  ghost predicate Presents(m: Memory, root: nat, file: File, p: Phdr, k: nat) {
    && p.offset + p.filesz <= |file.bytes|
    && ByteAt(m, root, p.vaddr + k) == Some(if k < p.filesz then file.bytes[p.offset + k] else 0)
    && var hit := Translate(m, root, Path(p.vaddr + k));
    && hit.Some? && hit.value.user
    && hit.value.write == (p.flags / 2 % 2 == 1) && hit.value.exec == (p.flags % 2 == 1)
  }

  lemma SegmentPresents(m: Memory, root: nat, file: File, p: Phdr, k: nat)
    requires ShowsSegment(m, root, file, AsSegment(p), k)
    ensures Presents(m, root, file, p, k)
  {
  }

  lemma ApplyToOne(m: Memory, root: nat, file: File, g: Segment, k: nat)
    requires k < g.memsz
    ensures (forall j: nat | j < g.memsz :: ShowsSegment(m, root, file, g, j)) ==> ShowsSegment(m, root, file, g, k)
  {
  }

  /** The process sees every byte of the i-th program header's segment, with its rights. */
  lemma LoadedElf(m: Memory, place: Places, root: nat, file: File, argv: seq<seq<byte>>, h: Ehdr, ps: seq<Phdr>, i: nat, k: nat)
    requires Tree(m, place) && IsRoot(place, root) && LoadElf(m, root, file, argv).Some?
    requires HasHeaders(file, h, ps) && OnOwnPages(ps) && |file.bytes| < 0x1_0000_0000
    requires i < |ps| && ps[i].kind == 1 && k < ps[i].memsz && ps[i].offset + ps[i].filesz < U64
    ensures Presents(LoadElf(m, root, file, argv).value, root, file, ps[i], k)
  {
    ReadsFile(file, h, ps);
    OwnPagesApart(file, h, ps);
    var segs, p := Segments(file), ps[i];
    assert segs[i] == AsSegment(p);
    CoversPage(p, 0);
    LoadedImage(m, place, root, file, segs, argv, i);
    var m' := LoadElf(m, root, file, argv).value;
    ApplyToOne(m', root, file, AsSegment(p), k);
    SegmentPresents(m', root, file, p, k);
  }

  /** Any other page of the process, its top stack page aside, is as it was before. */
  lemma LoadedElsewhere(m: Memory, place: Places, root: nat, file: File, argv: seq<seq<byte>>, h: Ehdr, ps: seq<Phdr>, a: nat)
    requires Tree(m, place) && IsRoot(place, root) && LoadElf(m, root, file, argv).Some?
    requires HasHeaders(file, h, ps) && OnOwnPages(ps) && 0x80_0000_0000 <= a < 0x8000_0000_0000
    requires a / 4096 != 0x800_FFFF
    requires forall i | 0 <= i < |ps| && ps[i].kind == 1 :: a / 4096 < FirstPage(ps[i]) || EndPage(ps[i]) <= a / 4096
    ensures var m' := LoadElf(m, root, file, argv).value;
            ByteAt(m', root, a) == ByteAt(m, root, a) && Translate(m', root, Path(a)) == Translate(m, root, Path(a))
  {
    ReadsFile(file, h, ps);
    OwnPagesApart(file, h, ps);
    var segs, m' := Segments(file), LoadElf(m, root, file, argv).value;
    forall i | 0 <= i < |segs| ensures !Covers(segs[i], a) {
      if segs[i].load { CoversPage(ps[i], a); }
    }
    PrivateAddress(a);
    var place1 := LoadSegmentsKeeps(m, place, root, file, segs);
    LoadElsewhere(m, place, root, file, segs, a);
    StackAt(LoadSegments(m, root, file, segs).value, place1, root, argv, a);
    var place' := LoadKeeps(m, place, root, file, segs, argv);
    HardwareAgrees(m, place, root, Path(a));
    HardwareAgrees(m', place', root, Path(a));
  }

  /** The top stack page: readable and writable for ring 3, not executable. */
  lemma LoadedStackRights(m: Memory, place: Places, root: nat, file: File, argv: seq<seq<byte>>, a: nat)
    requires Tree(m, place) && IsRoot(place, root) && LoadElf(m, root, file, argv).Some?
    requires 0x80_0FFF_F000 <= a < 0x80_1000_0000
    ensures var hit := Translate(LoadElf(m, root, file, argv).value, root, Path(a));
            hit.Some? && hit.value.user && hit.value.write && !hit.value.exec
  {
    var segs := Segments(file);
    var m1 := LoadSegments(m, root, file, segs).value;
    var place1 := LoadSegmentsKeeps(m, place, root, file, segs);
    StackRights(m1, place1, root, argv, a);
  }

  lemma StackRights(m1: Memory, place1: Places, root: nat, argv: seq<seq<byte>>, a: nat)
    requires Tree(m1, place1) && IsRoot(place1, root) && 0x80_0FFF_F000 <= a < 0x80_1000_0000 && ArgvBlob.Accepted(argv)
    requires MapFresh(m1, root, STACK_PAGE, Zeros(4096), true, false).Done?
    ensures var m2 := MapFresh(m1, root, STACK_PAGE, Zeros(4096), true, false).m;
            var hit := Translate(WriteData(m2, Pick(m1.pool).value, StackBytes(argv)), root, Path(a));
            hit.Some? && hit.value.user && hit.value.write && !hit.value.exec
  {
    var m2 := MapFresh(m1, root, STACK_PAGE, Zeros(4096), true, false).m;
    var place2 := MapFreshKeeps(m1, place1, root, STACK_PAGE, Zeros(4096), true, false);
    var m' := WriteData(m2, Pick(m1.pool).value, StackBytes(argv));
    SamePagePath(a, STACK_PAGE);
    WriteDataKeeps(m2, place2, Pick(m1.pool).value, StackBytes(argv));
    assert Below(place2, root, Path(a));
    assert Lookup(m', root, Path(a)) == Lookup(m2, root, Path(a));
    HardwareAgrees(m', place2, root, Path(a));
  }

  // ---------------------------------------------------------------- which files are refused

  lemma {:induction false} LoadedAreAccepted(m: Memory, root: nat, file: File, segs: seq<Segment>, i: nat)
    requires LoadSegments(m, root, file, segs).Some? && i < |segs| && segs[i].load
    ensures Accepts(file, segs[i])
    decreases |segs|
  {
    if i > 0 {
      var g := segs[0];
      var m1 := if g.load then LoadPages(m, root, file, g, First(g), End(g)).value else m;
      LoadedAreAccepted(m1, root, file, segs[1..], i - 1);
    }
  }

  /** p_offset + p_filesz, added in 64 bits, is at most n. */
  predicate EndsInside(p: Phdr, n: nat) {
    var end := p.offset + p.filesz;
    end <= n || U64 <= end <= U64 + n
  }

  /** A loaded segment ends inside the file, in 64-bit arithmetic, and does not start in the kernel's slot. */
  lemma LoadedSegmentIs(m: Memory, root: nat, file: File, segs: seq<Segment>, p: Phdr, i: nat)
    requires LoadSegments(m, root, file, segs).Some? && i < |segs| && segs[i] == AsSegment(p) && p.kind == 1
    ensures EndsInside(p, |file.bytes|)
    ensures p.vaddr + p.memsz <= 0x7FFF_FFFF_F000 && FirstPage(p) < EndPage(p) ==> 0x80_0000_0000 <= p.vaddr
  {
    LoadedAreAccepted(m, root, file, segs, i);
    if p.vaddr + p.memsz <= 0x7FFF_FFFF_F000 && FirstPage(p) < EndPage(p) {
      CoversPage(p, p.vaddr);
      LoadSegmentsPrivate(m, root, file, segs, i, p.vaddr);
      PrivateAddress(p.vaddr);
    }
  }

  /**
   The loader panics for a file without the right first five bytes and machine, for a segment whose
   file range, added in 64 bits, ends past the file, for one with a page in the kernel's slot, and for
   arguments over the limits.
   */
  lemma LoadRefuses(m: Memory, root: nat, file: File, argv: seq<seq<byte>>, h: Ehdr, ps: seq<Phdr>, i: nat)
    requires LoadElf(m, root, file, argv).Some? && HasHeaders(file, h, ps)
    ensures RightHeader(h) && ArgvBlob.Accepted(argv)
    ensures i < |ps| && ps[i].kind == 1 ==>
              && EndsInside(ps[i], |file.bytes|)
              && (ps[i].vaddr + ps[i].memsz <= 0x7FFF_FFFF_F000 && FirstPage(ps[i]) < EndPage(ps[i]) ==>
                    0x80_0000_0000 <= ps[i].vaddr)
  {
    ReadsFile(file, h, ps);
    if i < |ps| && ps[i].kind == 1 {
      LoadedSegmentIs(m, root, file, Segments(file), ps[i], i);
    }
  }

  lemma {:induction false} PagesSucceed(m: Memory, root: nat, file: File, g: Segment, p: nat, end: nat, n: nat)
    requires Tracked(m.pool) && end <= p + 4096 * n && |m.pool.free| >= 4 * n
    requires forall q | p <= q < end :: q / 0x80_0000_0000 % 512 != 0
    ensures LoadPages(m, root, file, g, p, end).Some?
    ensures var p' := LoadPages(m, root, file, g, p, end).value.pool; Tracked(p') && |p'.free| + 4 * n >= |m.pool.free|
    decreases end - p
  {
    if p < end {
      FreshPanics(m, root, p, PageBytes(file, g, p), g.write, g.exec);
      PagesSucceed(MapFresh(m, root, p, PageBytes(file, g, p), g.write, g.exec).m, root, file, g, p + 4096, end, n - 1);
    }
  }

  /** The pages all segments take together. */
  function PageCount(ps: seq<Phdr>): nat {
    if ps == [] then 0
    else PageCount(ps[1..]) + if ps[0].kind == 1 then EndPage(ps[0]) - FirstPage(ps[0]) else 0
  }

  predicate Loadable(file: File, p: Phdr) {
    p.kind == 1 ==>
      && 0x80_0000_0000 <= p.vaddr && p.vaddr + p.memsz <= 0x7FFF_FFFF_F000
      && p.offset + p.filesz <= |file.bytes|
  }

  lemma SegmentSucceeds(m: Memory, root: nat, file: File, p: Phdr, extra: nat)
    requires Tracked(m.pool) && |file.bytes| < U64 && Loadable(file, p) && p.kind == 1
    requires |m.pool.free| >= 4 * (EndPage(p) - FirstPage(p)) + extra
    ensures var g := AsSegment(p); var r := LoadPages(m, root, file, g, First(g), End(g));
            Accepts(file, g) && r.Some? && Tracked(r.value.pool) && |r.value.pool.free| >= extra
  {
    var g, n := AsSegment(p), EndPage(p) - FirstPage(p);
    PageRange(p);
    var lo, hi := First(g), End(g);
    forall q | lo <= q < hi ensures q / 0x80_0000_0000 % 512 != 0 {
      SlotOf(q);
    }
    PagesSucceed(m, root, file, g, lo, hi, n);
  }

  lemma PageRange(p: Phdr)
    requires 0x80_0000_0000 <= p.vaddr && p.vaddr + p.memsz <= 0x7FFF_FFFF_F000
    ensures var lo, hi := First(AsSegment(p)), End(AsSegment(p));
            && FirstPage(p) <= EndPage(p) && hi <= lo + 4096 * (EndPage(p) - FirstPage(p))
            && 0x80_0000_0000 <= lo && hi <= 0x8000_0000_0000
  {
    CoversPage(p, 0);
    assert First(AsSegment(p)) == 4096 * FirstPage(p);
  }

  lemma SlotOf(q: nat)
    requires 0x80_0000_0000 <= q < 0x8000_0000_0000
    ensures q / 0x80_0000_0000 % 512 != 0
  {
    assert 1 <= q / 0x80_0000_0000 < 512;
  }

  lemma {:induction false} SegmentsSucceed(m: Memory, root: nat, file: File, segs: seq<Segment>, ps: seq<Phdr>, extra: nat)
    requires Tracked(m.pool) && |file.bytes| < U64 && forall i | 0 <= i < |ps| :: Loadable(file, ps[i])
    requires |segs| == |ps| && forall i | 0 <= i < |ps| :: segs[i] == AsSegment(ps[i])
    requires |m.pool.free| >= 4 * PageCount(ps) + extra
    ensures var r := LoadSegments(m, root, file, segs); r.Some? && Tracked(r.value.pool) && |r.value.pool.free| >= extra
    decreases |ps|
  {
    if ps != [] {
      assert segs[0] == AsSegment(ps[0]) && Loadable(file, ps[0]);
      var m1 := m;
      if ps[0].kind == 1 {
        SegmentSucceeds(m, root, file, ps[0], 4 * PageCount(ps[1..]) + extra);
        m1 := LoadPages(m, root, file, segs[0], First(segs[0]), End(segs[0])).value;
      }
      SegmentsSucceed(m1, root, file, segs[1..], ps[1..], extra);
    }
  }

  /**
   The converse: a file with the right first bytes, segments inside the file and in the low half above the
   kernel's slot, and arguments within the limits is loaded, as soon as four pages are free for every page
   of a segment and for the stack page.
   */
  lemma LoadSucceeds(m: Memory, root: nat, file: File, argv: seq<seq<byte>>, h: Ehdr, ps: seq<Phdr>)
    requires Tracked(m.pool) && HasHeaders(file, h, ps) && forall i | 0 <= i < |ps| :: Loadable(file, ps[i])
    requires RightHeader(h) && ArgvBlob.Accepted(argv)
    requires |m.pool.free| >= 4 * PageCount(ps) + 4
    ensures LoadElf(m, root, file, argv).Some?
  {
    ReadsFile(file, h, ps);
    SegmentsSucceed(m, root, file, Segments(file), ps, 4);
    FreshPanics(LoadSegments(m, root, file, Segments(file)).value, root, STACK_PAGE, Zeros(4096), true, false);
    SlotOf(STACK_PAGE);
  }
}
