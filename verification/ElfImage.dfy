/**
 elf_load_user_program() of kernel/src/elf_loader.c: page by page it builds the memory
 image the System V gABI (chapter 5, "Program Loading") describes, then the stack page
 with the argument blob.
 */
module ElfImage {
  import opened Common
  import opened PagePool
  import opened PageTables
  import opened AddressSpaces
  import opened UserMemory
  import opened ElfFile
  import ArgvBlob

  /** The page range of a segment: both ends wrap like the 64-bit sums they are. */
  function First(g: Segment): nat { RoundDown(g.vaddr) }

  function End(g: Segment): nat {
    var end := RoundUp(Add(g.vaddr, g.memsz));
    if end < U64 then end else 0
  }

  /** The contents the page at p should have. */
  function PageBytes(file: File, g: Segment, p: nat): (r: seq<byte>)
    ensures |r| == 4096
  {
    seq<byte>(4096, k requires 0 <= k => ImageByte(file, g, p + k))
  }

  function Fetch(file: File, o: nat, n: nat): seq<byte> { seq<byte>(n, k requires 0 <= k => ByteOf(file, o + k)) }

  /** The contents the loader gives it: zeroed, then the overlap with the file bytes copied in. */
  function CopiedPage(file: File, g: Segment, p: nat): seq<byte> {
    var lo := if p > g.vaddr then p else g.vaddr;
    var hi := if p + 4096 < FileEnd(g) then p + 4096 else FileEnd(g);
    if hi > lo then Zeros(lo - p) + Fetch(file, g.offset + (lo - g.vaddr), hi - lo) + Zeros(p + 4096 - hi)
    else Zeros(4096)
  }

  /** The copy gets every straddle right. */
  lemma CopyIsImage(file: File, g: Segment, p: nat)
    ensures CopiedPage(file, g, p) == PageBytes(file, g, p)
  {
    var page := CopiedPage(file, g, p);
    assert |page| == 4096;
    forall k | 0 <= k < 4096 ensures page[k] == ImageByte(file, g, p + k) { }
  }

  function LoadPages(m: Memory, root: nat, file: File, g: Segment, p: nat, end: nat): Option<Memory>
    decreases end - p
  {
    if p >= end then Some(m)
    else match MapFresh(m, root, p, PageBytes(file, g, p), g.write, g.exec)
      case Done(m') => LoadPages(m', root, file, g, p + 4096, end)
      case NoPage => None
      case Panic => None
  }

  /** The loop over the program headers; None where the source panics. */
  function LoadSegments(m: Memory, root: nat, file: File, segs: seq<Segment>): Option<Memory>
    decreases |segs|
  {
    if segs == [] then Some(m)
    else if !segs[0].load then LoadSegments(m, root, file, segs[1..])
    else if !Accepts(file, segs[0]) then None
    else match LoadPages(m, root, file, segs[0], First(segs[0]), End(segs[0]))
      case None => None
      case Some(m') => LoadSegments(m', root, file, segs[1..])
  }

  /** The frame behind a mapped page is overwritten with `data`, as the blob writer does. */
  function WriteData(m: Memory, f: nat, data: seq<byte>): Memory {
    m.(ram := m.ram[f := Bytes(data)])
  }

  function StackBytes(argv: seq<seq<byte>>): (r: seq<byte>)
    requires ArgvBlob.Accepted(argv)
    ensures |r| == 4096
  {
    if argv == [] then Zeros(4096) else ArgvBlob.PageAfter(argv, |argv|)
  }

  function Load(m: Memory, root: nat, file: File, segs: seq<Segment>, argv: seq<seq<byte>>): Option<Memory> {
    match LoadSegments(m, root, file, segs)
    case None => None
    case Some(m1) =>
      match MapFresh(m1, root, STACK_PAGE, Zeros(4096), true, false)
      case Done(m2) =>
        if ArgvBlob.Accepted(argv) then Some(WriteData(m2, Pick(m1.pool).value, StackBytes(argv))) else None
      case NoPage => None
      case Panic => None
  }

  /** elf_load_user_program(): the header checks, then the load. */
  function LoadElf(m: Memory, root: nat, file: File, argv: seq<seq<byte>>): Option<Memory> {
    if HeaderOk(file) then Load(m, root, file, Segments(file), argv) else None
  }

  // ---------------------------------------------------------------- confinement

  lemma {:induction false} LoadPagesKeeps(m: Memory, place: Places, root: nat, file: File, g: Segment, p: nat, end: nat)
    returns (place': Places)
    requires Tree(m, place) && IsRoot(place, root) && LoadPages(m, root, file, g, p, end).Some?
    ensures var m' := LoadPages(m, root, file, g, p, end).value;
            Tree(m', place') && IsRoot(place', root) && Confined(m, place, m', place', root)
    decreases end - p
  {
    place' := place;
    ConfinedSelf(m, place, root);
    if p < end {
      var m1 := MapFresh(m, root, p, PageBytes(file, g, p), g.write, g.exec).m;
      var place1 := FreshConfined(m, place, root, p, PageBytes(file, g, p), g.write, g.exec);
      place' := LoadPagesKeeps(m1, place1, root, file, g, p + 4096, end);
      ConfinedTrans(m, place, m1, place1, LoadPages(m, root, file, g, p, end).value, place', root);
    }
  }

  lemma {:induction false} LoadSegmentsKeeps(m: Memory, place: Places, root: nat, file: File, segs: seq<Segment>)
    returns (place': Places)
    requires Tree(m, place) && IsRoot(place, root) && LoadSegments(m, root, file, segs).Some?
    ensures var m' := LoadSegments(m, root, file, segs).value;
            Tree(m', place') && IsRoot(place', root) && Confined(m, place, m', place', root)
    decreases |segs|
  {
    place' := place;
    ConfinedSelf(m, place, root);
    if segs != [] {
      if segs[0].load {
        var m1 := LoadPages(m, root, file, segs[0], First(segs[0]), End(segs[0])).value;
        var place1 := LoadPagesKeeps(m, place, root, file, segs[0], First(segs[0]), End(segs[0]));
        place' := LoadSegmentsKeeps(m1, place1, root, file, segs[1..]);
        ConfinedTrans(m, place, m1, place1, LoadSegments(m, root, file, segs).value, place', root);
      } else {
        place' := LoadSegmentsKeeps(m, place, root, file, segs[1..]);
      }
    }
  }

  /** Overwriting a data page of `root` changes its bytes and nothing else. */
  lemma WriteDataKeeps(m: Memory, place: Places, f: nat, data: seq<byte>)
    requires Tree(m, place) && f in place && |place[f].path| == 4 && |data| == 4096
    ensures Tree(WriteData(m, f, data), place)
    ensures Confined(m, place, WriteData(m, f, data), place, place[f].root)
    ensures SameLookups(m, place, WriteData(m, f, data))
  {
    var m' := WriteData(m, f, data);
    assert FrameOk(m, place, f);
    forall u | u in place ensures FrameOk(m', place, u) {
      assert FrameOk(m, place, u);
    }
    forall u, j | u in place && |place[u].path| <= 3 && 0 <= j < 512 ensures EntryOk(m', place, u, j) {
      assert EntryOk(m, place, u, j);
    }
    forall u, p | Below(place, u, p) ensures Lookup(m', u, p) == Lookup(m, u, p) {
      LookupUntouched(m, m', place, u, p);
    }
    forall r, p | IsRoot(place, r) && FullPath(p) ensures Lookup(m', r, p) == Lookup(m, r, p) {
      assert Below(place, r, p);
    }
  }

  lemma LoadKeeps(m: Memory, place: Places, root: nat, file: File, segs: seq<Segment>, argv: seq<seq<byte>>)
    returns (place': Places)
    requires Tree(m, place) && IsRoot(place, root) && Load(m, root, file, segs, argv).Some?
    ensures var m' := Load(m, root, file, segs, argv).value;
            Tree(m', place') && IsRoot(place', root) && Confined(m, place, m', place', root)
  {
    var m1 := LoadSegments(m, root, file, segs).value;
    var place1 := LoadSegmentsKeeps(m, place, root, file, segs);
    var m2 := MapFresh(m1, root, STACK_PAGE, Zeros(4096), true, false).m;
    var place2 := FreshConfined(m1, place1, root, STACK_PAGE, Zeros(4096), true, false);
    ConfinedTrans(m, place, m1, place1, m2, place2, root);
    place' := MapFreshKeeps(m1, place1, root, STACK_PAGE, Zeros(4096), true, false);
    var f := Pick(m1.pool).value;
    ConfinedFresh(m1, place1, root, place', m2);
    ConfinedTrans(m, place, m1, place1, m2, place', root);
    WriteDataKeeps(m2, place', f, StackBytes(argv));
    ConfinedTrans(m, place, m2, place', WriteData(m2, f, StackBytes(argv)), place', root);
  }

  lemma StackPageIsPrivate()
    ensures Path(STACK_PAGE)[0] == 1
  {
    PathBits(STACK_PAGE);
  }

  lemma ConfinedFresh(m: Memory, place: Places, root: nat, place': Places, m': Memory)
    requires Tree(m, place) && IsRoot(place, root) && Later(m, place, m', place')
    requires MapFresh(m, root, STACK_PAGE, Zeros(4096), true, false) == Done(m')
    ensures Confined(m, place, m', place', root)
  {
    StackPageIsPrivate();
    forall r, p | IsRoot(place, r) && Outside(r, p, root) ensures Lookup(m', r, p) == Lookup(m, r, p) {
      MapFreshElsewhere(m, place, root, STACK_PAGE, Zeros(4096), true, false, r, p);
    }
  }

  // ---------------------------------------------------------------- the loaded image

  predicate Canonical(a: nat) { a < 0x8000_0000_0000 && Path(a)[0] != 0 }

  /** Process `root` has at a the given byte, with the rights of the segment. */
  ghost predicate Shows(m: Memory, root: nat, a: nat, b: byte, g: Segment) {
    && ByteAt(m, root, a) == Some(b)
    && Lookup(m, root, Path(a)) == Some(Leaf(Lookup(m, root, Path(a)).value.frame, g.write, g.exec))
  }

  ghost predicate SameAt(m: Memory, m': Memory, root: nat, a: nat) {
    ByteAt(m', root, a) == ByteAt(m, root, a) && Lookup(m', root, Path(a)) == Lookup(m, root, Path(a))
  }

  /** One page of a segment: the image bytes inside it, everything else as before. */
  lemma LoadPageAt(m: Memory, place: Places, root: nat, file: File, g: Segment, p: nat, a: nat)
    requires Tree(m, place) && IsRoot(place, root) && Canonical(a) && p % 4096 == 0
    requires p < 0x8000_0000_0000 && MapFresh(m, root, p, PageBytes(file, g, p), g.write, g.exec).Done?
    ensures var m' := MapFresh(m, root, p, PageBytes(file, g, p), g.write, g.exec).m;
            if p <= a < p + 4096 then Shows(m', root, a, ImageByte(file, g, a), g) else SameAt(m, m', root, a)
  {
    FreshBytes(m, place, root, p, PageBytes(file, g, p), g.write, g.exec, a);
    if p <= a < p + 4096 {
      SamePagePath(a, p);
      assert p + a % 4096 == a;
    } else if Path(a) == Path(p) {
      PathInjective(a, p);
    }
  }

  lemma PageBoundary(p: nat, end: nat)
    requires p % 4096 == 0 == end % 4096 && p < end
    ensures p + 4096 <= end && (p + 4096) % 4096 == 0
  {
  }

  /** What address a holds after pages p..end of the segment, when it was known before. */
  ghost predicate LoadedAt(m: Memory, m': Memory, root: nat, file: File, g: Segment, p: nat, end: nat, a: nat)
  {
    if p <= a < end then Shows(m', root, a, ImageByte(file, g, a), g) else SameAt(m, m', root, a)
  }

  /** The first page of a stretch is loaded; the rest of the stretch is still to come. */
  lemma LoadStep(m: Memory, place: Places, root: nat, file: File, g: Segment, p: nat, end: nat, a: nat)
    returns (m1: Memory, place1: Places)
    requires Tree(m, place) && IsRoot(place, root) && Canonical(a) && p % 4096 == 0
    requires p < end <= 0x8000_0000_0000 && LoadPages(m, root, file, g, p, end).Some?
    ensures Tree(m1, place1) && IsRoot(place1, root)
    ensures LoadPages(m, root, file, g, p, end) == LoadPages(m1, root, file, g, p + 4096, end)
    ensures LoadedAt(m, m1, root, file, g, p, p + 4096, a)
  {
    m1 := MapFresh(m, root, p, PageBytes(file, g, p), g.write, g.exec).m;
    place1 := FreshTree(m, place, root, p, PageBytes(file, g, p), g.write, g.exec);
    LoadPageAt(m, place, root, file, g, p, a);
  }

  lemma LoadedOneMore(m: Memory, m1: Memory, m2: Memory, root: nat, file: File, g: Segment, p: nat, end: nat, a: nat)
    requires p + 4096 <= end
    requires LoadedAt(m, m1, root, file, g, p, p + 4096, a) && LoadedAt(m1, m2, root, file, g, p + 4096, end, a)
    ensures LoadedAt(m, m2, root, file, g, p, end, a)
  {
  }

  lemma {:induction false} LoadPagesAt(m: Memory, place: Places, root: nat, file: File, g: Segment, p: nat, end: nat, a: nat)
    requires Tree(m, place) && IsRoot(place, root) && Canonical(a) && p % 4096 == 0 == end % 4096
    requires end <= 0x8000_0000_0000 && LoadPages(m, root, file, g, p, end).Some?
    ensures LoadedAt(m, LoadPages(m, root, file, g, p, end).value, root, file, g, p, end, a)
    decreases end - p
  {
    if p >= end {
      assert LoadPages(m, root, file, g, p, end).value == m;
    } else {
      PageBoundary(p, end);
      var m1, place1 := LoadStep(m, place, root, file, g, p, end, a);
      LoadPagesAt(m1, place1, root, file, g, p + 4096, end, a);
      LoadedOneMore(m, m1, LoadPages(m, root, file, g, p, end).value, root, file, g, p, end, a);
    }
  }

  predicate Covers(g: Segment, a: nat) { g.load && First(g) <= a < End(g) }

  /** Mapped pages lie in the canonical low half. */
  predicate Fit(segs: seq<Segment>) { forall i | 0 <= i < |segs| && segs[i].load :: End(segs[i]) <= 0x8000_0000_0000 }

  predicate Whole(g: Segment) { g.vaddr + g.memsz + 4095 < U64 }

  /** A segment's pages hold all of it exactly when its end, rounded up, does not wrap. */
  lemma CoveredWhenWhole(g: Segment)
    requires g.load && g.memsz > 0
    ensures (forall a | g.vaddr <= a < g.vaddr + g.memsz :: Covers(g, a)) <==> Whole(g)
  {
    if Whole(g) {
      WholeEnd(g);
    } else {
      EndIsLow(g);
      assert !Covers(g, g.vaddr + g.memsz - 1);
    }
  }

  lemma WholeEnd(g: Segment)
    requires Whole(g)
    ensures First(g) <= g.vaddr && g.vaddr + g.memsz <= End(g)
  {
    Rounding(g.vaddr);
    Rounding(g.vaddr + g.memsz);
  }

  lemma EndIsLow(g: Segment)
    ensures End(g) <= U64 - 4096 && End(g) % 4096 == 0
  {
    var x := Add(g.vaddr, g.memsz);
    assert RoundUp(x) % 4096 == 0;
  }

  lemma RoundedEnds(g: Segment)
    ensures First(g) % 4096 == 0 == End(g) % 4096
  {
    EndIsLow(g);
  }

  /** An address no segment page covers is left alone. */
  lemma {:induction false} LoadElsewhere(m: Memory, place: Places, root: nat, file: File, segs: seq<Segment>, a: nat)
    requires Tree(m, place) && IsRoot(place, root) && Canonical(a) && Fit(segs)
    requires LoadSegments(m, root, file, segs).Some? && forall i | 0 <= i < |segs| :: !Covers(segs[i], a)
    ensures SameAt(m, LoadSegments(m, root, file, segs).value, root, a)
    decreases |segs|
  {
    if segs != [] {
      var g := segs[0];
      if g.load {
        assert !Covers(g, a);
        RoundedEnds(g);
        var place1 := LoadPagesKeeps(m, place, root, file, g, First(g), End(g));
        LoadPagesAt(m, place, root, file, g, First(g), End(g), a);
        LoadElsewhere(LoadPages(m, root, file, g, First(g), End(g)).value, place1, root, file, segs[1..], a);
      } else {
        LoadElsewhere(m, place, root, file, segs[1..], a);
      }
    }
  }

  /** An address on a page of segment i, and of no other, holds that segment's image byte. */
  lemma {:induction false} LoadInside(m: Memory, place: Places, root: nat, file: File, segs: seq<Segment>, i: nat, a: nat)
    requires Tree(m, place) && IsRoot(place, root) && Canonical(a) && Fit(segs)
    requires LoadSegments(m, root, file, segs).Some? && i < |segs| && Covers(segs[i], a)
    requires forall j | 0 <= j < |segs| && j != i :: !Covers(segs[j], a)
    ensures Accepts(file, segs[i])
    ensures Shows(LoadSegments(m, root, file, segs).value, root, a, ImageByte(file, segs[i], a), segs[i])
    decreases |segs|
  {
    var g := segs[0];
    var m1, place1 := m, place;
    if g.load {
      RoundedEnds(g);
      m1 := LoadPages(m, root, file, g, First(g), End(g)).value;
      place1 := LoadPagesKeeps(m, place, root, file, g, First(g), End(g));
    }
    if i == 0 {
      LoadPagesAt(m, place, root, file, g, First(g), End(g), a);
      LoadElsewhere(m1, place1, root, file, segs[1..], a);
    } else {
      assert !Covers(g, a);
      LoadInside(m1, place1, root, file, segs[1..], i - 1, a);
    }
  }

  lemma StackPath(a: nat)
    requires Canonical(a)
    ensures Path(a) == Path(STACK_PAGE) <==> STACK_PAGE <= a < STACK_TOP
    ensures STACK_PAGE <= a < STACK_TOP ==> a % 4096 == a - STACK_PAGE
  {
    if STACK_PAGE <= a < STACK_TOP {
      SamePagePath(a, STACK_PAGE);
    } else if Path(a) == Path(STACK_PAGE) {
      PathInjective(a, STACK_PAGE);
    }
  }

  /** After a write to the data page behind path q, process `root` sees it there and nothing else new. */
  lemma WriteDataAt(m: Memory, place: Places, root: nat, q: seq<nat>, f: nat, data: seq<byte>, a: nat)
    requires Tree(m, place) && IsRoot(place, root) && |data| == 4096 && |q| == 4 && Path(a)[0] != 0
    requires At(place, f, root, q) && Lookup(m, root, q).Some? && Lookup(m, root, q).value.frame == f
    ensures var m' := WriteData(m, f, data);
            && Lookup(m', root, Path(a)) == Lookup(m, root, Path(a))
            && ByteAt(m', root, a) == if Path(a) == q then Some(data[a % 4096]) else ByteAt(m, root, a)
  {
    assert FrameOk(m, place, f);
    assert Below(place, root, Path(a)) && [] + Path(a) == Path(a);
    LookupUntouched(m, WriteData(m, f, data), place, root, Path(a));
    if Lookup(m, root, Path(a)).Some? {
      LookupPlace(m, place, root, Path(a));
    }
  }

  /** The stack page after the blob: its bytes there, everything else as before. */
  lemma StackAt(m1: Memory, place1: Places, root: nat, argv: seq<seq<byte>>, a: nat)
    requires Tree(m1, place1) && IsRoot(place1, root) && Canonical(a) && ArgvBlob.Accepted(argv)
    requires MapFresh(m1, root, STACK_PAGE, Zeros(4096), true, false).Done?
    ensures var m' := WriteData(MapFresh(m1, root, STACK_PAGE, Zeros(4096), true, false).m, Pick(m1.pool).value, StackBytes(argv));
            if STACK_PAGE <= a < STACK_TOP then ByteAt(m', root, a) == Some(StackBytes(argv)[a - STACK_PAGE])
            else SameAt(m1, m', root, a)
  {
    var f := Pick(m1.pool).value;
    var m2 := MapFresh(m1, root, STACK_PAGE, Zeros(4096), true, false).m;
    var place2 := MapFreshKeeps(m1, place1, root, STACK_PAGE, Zeros(4096), true, false);
    StackPath(a);
    FreshBytes(m1, place1, root, STACK_PAGE, Zeros(4096), true, false, a);
    WriteDataAt(m2, place2, root, Path(STACK_PAGE), f, StackBytes(argv), a);
  }

  /** The page ranges of PT_LOAD segments are disjoint from each other and from the stack page. */
  ghost predicate Apart(segs: seq<Segment>) {
    && (forall i, j, a | 0 <= i < j < |segs| && Covers(segs[i], a) :: !Covers(segs[j], a))
    && (forall i, a | 0 <= i < |segs| && STACK_PAGE <= a < STACK_TOP :: !Covers(segs[i], a))
  }

  /** A load that went through mapped nothing into the shared kernel slot. */
  lemma {:induction false} LoadPagesPrivate(m: Memory, root: nat, file: File, g: Segment, p: nat, end: nat, a: nat)
    requires LoadPages(m, root, file, g, p, end).Some? && p % 4096 == 0 && p <= a < end
    ensures Path(a)[0] != 0
    decreases end - p
  {
    if a < p + 4096 {
      SamePagePath(a, p);
    } else {
      LoadPagesPrivate(MapFresh(m, root, p, PageBytes(file, g, p), g.write, g.exec).m, root, file, g, p + 4096, end, a);
    }
  }

  lemma {:induction false} LoadSegmentsPrivate(m: Memory, root: nat, file: File, segs: seq<Segment>, i: nat, a: nat)
    requires LoadSegments(m, root, file, segs).Some? && i < |segs| && Covers(segs[i], a)
    ensures Path(a)[0] != 0
    decreases |segs|
  {
    var g := segs[0];
    RoundedEnds(g);
    if i == 0 {
      LoadPagesPrivate(m, root, file, g, First(g), End(g), a);
    } else {
      var m1 := if g.load then LoadPages(m, root, file, g, First(g), End(g)).value else m;
      LoadSegmentsPrivate(m1, root, file, segs[1..], i - 1, a);
    }
  }

  lemma SegmentCovers(g: Segment, k: nat)
    requires g.load && k < g.memsz && Whole(g)
    ensures Covers(g, g.vaddr + k)
  {
    WholeEnd(g);
  }

  lemma ShowsKept(m: Memory, m': Memory, root: nat, a: nat, b: byte, g: Segment)
    requires Shows(m, root, a, b, g) && SameAt(m, m', root, a)
    ensures Shows(m', root, a, b, g)
  {
  }

  /** After all segments and the stack, an address of segment i shows its image byte. */
  lemma LoadShows(m: Memory, place: Places, root: nat, file: File, segs: seq<Segment>, argv: seq<seq<byte>>, i: nat, a: nat)
    requires Tree(m, place) && IsRoot(place, root) && Load(m, root, file, segs, argv).Some?
    requires Fit(segs) && Apart(segs) && i < |segs| && Covers(segs[i], a)
    ensures Accepts(file, segs[i])
    ensures Shows(Load(m, root, file, segs, argv).value, root, a, ImageByte(file, segs[i], a), segs[i])
  {
    LoadSegmentsPrivate(m, root, file, segs, i, a);
    var m1 := LoadSegments(m, root, file, segs).value;
    var place1 := LoadSegmentsKeeps(m, place, root, file, segs);
    LoadInside(m, place, root, file, segs, i, a);
    StackAt(m1, place1, root, argv, a);
    ShowsKept(m1, Load(m, root, file, segs, argv).value, root, a, ImageByte(file, segs[i], a), segs[i]);
  }

  lemma LowSegment(g: Segment)
    requires g.load && 0 < g.memsz && Whole(g) && End(g) <= 0x8000_0000_0000
    ensures g.vaddr < 0x8000_0000_0000
  {
    SegmentCovers(g, 0);
  }

  /** Process `root` has the byte the loader copies for byte k of the segment. */
  ghost predicate ShowsCopied(m: Memory, root: nat, file: File, g: Segment, k: nat) {
    Accepts(file, g) && Shows(m, root, g.vaddr + k, ImageByte(file, g, g.vaddr + k), g)
  }

  /** A segment whose end does not wrap is copied whole. */
  lemma LoadedSegment(m: Memory, place: Places, root: nat, file: File, segs: seq<Segment>, argv: seq<seq<byte>>, i: nat)
    requires Tree(m, place) && IsRoot(place, root) && Load(m, root, file, segs, argv).Some?
    requires Fit(segs) && Apart(segs) && i < |segs| && segs[i].load && Whole(segs[i])
    ensures forall k: nat | k < segs[i].memsz :: ShowsCopied(Load(m, root, file, segs, argv).value, root, file, segs[i], k)
  {
    var g, m' := segs[i], Load(m, root, file, segs, argv).value;
    forall k: nat | k < g.memsz ensures ShowsCopied(m', root, file, g, k) {
      SegmentCovers(g, k);
      LoadShows(m, place, root, file, segs, argv, i, g.vaddr + k);
    }
  }

  /** Ring 3 of process `root` reads b at a, and the processor lets it write and execute there as the flags say. */
  ghost predicate Holds(m: Memory, root: nat, a: nat, b: byte, write: bool, exec: bool) {
    && ByteAt(m, root, a) == Some(b)
    && var h := Translate(m, root, Path(a));
    && h.Some? && h.value.user && h.value.write == write && h.value.exec == exec
  }

  lemma ShowsHolds(m: Memory, place: Places, root: nat, a: nat, b: byte, g: Segment)
    requires Tree(m, place) && IsRoot(place, root) && Shows(m, root, a, b, g)
    ensures Holds(m, root, a, b, g.write, g.exec)
  {
    HardwareAgrees(m, place, root, Path(a));
  }

  /** The bytes of a segment that wraps nowhere, as process `root` should see them. */
  ghost predicate ShowsSegment(m: Memory, root: nat, file: File, g: Segment, k: nat) {
    && InFile(file, g)
    && Holds(m, root, g.vaddr + k, if k < g.filesz then file.bytes[g.offset + k] else 0, g.write, g.exec)
  }

  /** The byte the loader copies is the one the file has. */
  lemma CopiedIsSegment(m: Memory, place: Places, root: nat, file: File, g: Segment, k: nat)
    requires Tree(m, place) && IsRoot(place, root)
    requires |file.bytes| < 0x1_0000_0000 && g.offset + g.filesz < U64 && g.vaddr < 0x8000_0000_0000
    requires ShowsCopied(m, root, file, g, k)
    ensures ShowsSegment(m, root, file, g, k)
  {
    AcceptedInFile(file, g);
    SegmentByte(file, g, k);
    ShowsHolds(m, place, root, g.vaddr + k, ImageByte(file, g, g.vaddr + k), g);
  }

  lemma AllCopied(m: Memory, place: Places, root: nat, file: File, g: Segment)
    requires Tree(m, place) && IsRoot(place, root)
    requires |file.bytes| < 0x1_0000_0000 && g.offset + g.filesz < U64 && (g.memsz > 0 ==> g.vaddr < 0x8000_0000_0000)
    ensures (forall k: nat | k < g.memsz :: ShowsCopied(m, root, file, g, k)) ==>
              forall k: nat | k < g.memsz :: ShowsSegment(m, root, file, g, k)
  {
    if forall k: nat | k < g.memsz :: ShowsCopied(m, root, file, g, k) {
      forall k: nat | k < g.memsz ensures ShowsSegment(m, root, file, g, k) { CopiedIsSegment(m, place, root, file, g, k); }
    }
  }

  /**
   Reading any byte of a PT_LOAD segment through the new page tables gives the file byte
   at the matching offset below p_filesz and zero from there to p_memsz, and the processor
   grants ring 3 the segment's rights there, whatever the alignment of the segment.
   */
  lemma LoadedImage(m: Memory, place: Places, root: nat, file: File, segs: seq<Segment>, argv: seq<seq<byte>>, i: nat)
    requires Tree(m, place) && IsRoot(place, root) && Load(m, root, file, segs, argv).Some?
    requires |file.bytes| < 0x1_0000_0000 && Fit(segs) && Apart(segs) && i < |segs| && segs[i].load
    requires Whole(segs[i]) && segs[i].offset + segs[i].filesz < U64
    ensures forall k: nat | k < segs[i].memsz :: ShowsSegment(Load(m, root, file, segs, argv).value, root, file, segs[i], k)
  {
    if segs[i].memsz > 0 { LowSegment(segs[i]); }
    LoadedSegment(m, place, root, file, segs, argv, i);
    var place' := LoadKeeps(m, place, root, file, segs, argv);
    AllCopied(Load(m, root, file, segs, argv).value, place', root, file, segs[i]);
  }

  /** Process `root` sees exactly `page` on its top stack page. */
  ghost predicate ShowsPage(m: Memory, root: nat, page: seq<byte>) {
    |page| == 4096 && forall a | STACK_PAGE <= a < STACK_TOP :: ByteAt(m, root, a) == Some(page[a - STACK_PAGE])
  }

  /** The child reads the argument blob through its own stack mapping. */
  lemma LoadedStack(m: Memory, place: Places, root: nat, file: File, segs: seq<Segment>, argv: seq<seq<byte>>)
    requires Tree(m, place) && IsRoot(place, root) && Load(m, root, file, segs, argv).Some?
    ensures ArgvBlob.Accepted(argv) && ShowsPage(Load(m, root, file, segs, argv).value, root, StackBytes(argv))
  {
    var m1 := LoadSegments(m, root, file, segs).value;
    var place1 := LoadSegmentsKeeps(m, place, root, file, segs);
    forall a | STACK_PAGE <= a < STACK_TOP
      ensures ByteAt(Load(m, root, file, segs, argv).value, root, a) == Some(StackBytes(argv)[a - STACK_PAGE])
    {
      PathBits(a);
      StackAt(m1, place1, root, argv, a);
    }
  }

  /** The pointer x stands at v, as process `root` sees its memory. */
  ghost predicate SeesPointer(m: Memory, root: nat, v: nat, x: nat) {
    forall k: nat | k < 8 :: ByteAt(m, root, v + k) == Some(ArgvBlob.Word(x)[k])
  }

  /** The C string s, with its terminator, stands at v. */
  ghost predicate SeesString(m: Memory, root: nat, v: nat, s: seq<byte>) {
    forall k: nat | k <= |s| :: ByteAt(m, root, v + k) == Some((s + [0])[k])
  }

  lemma ChildReadsPointer(m: Memory, root: nat, page: seq<byte>, v: nat, x: nat)
    requires ShowsPage(m, root, page) && ArgvBlob.Holds(page, v, x)
    ensures SeesPointer(m, root, v, x)
  {
    forall k: nat | k < 8 ensures ByteAt(m, root, v + k) == Some(ArgvBlob.Word(x)[k]) {
      ArgvBlob.PointerByte(page, v, x, k);
    }
  }

  lemma ChildReadsString(m: Memory, root: nat, page: seq<byte>, v: nat, s: seq<byte>)
    requires ShowsPage(m, root, page) && ArgvBlob.HasString(page, v, s)
    ensures SeesString(m, root, v, s)
  {
    forall k: nat | k <= |s| ensures ByteAt(m, root, v + k) == Some((s + [0])[k]) {
      ArgvBlob.StringByte(page, v, s, k);
    }
  }

  /**
   What the new process finds: argv[i] points at the caller's i-th string, NUL-terminated,
   and argv[argc] is null.
   */
  lemma ChildReadsArgv(m: Memory, place: Places, root: nat, file: File, segs: seq<Segment>, argv: seq<seq<byte>>, i: nat)
    requires Tree(m, place) && IsRoot(place, root) && Load(m, root, file, segs, argv).Some?
    requires ArgvBlob.AreCStrings(argv) && i < |argv|
    ensures ArgvBlob.Accepted(argv)
    ensures var m', p := Load(m, root, file, segs, argv).value, ArgvBlob.ArgvPointer(argv);
            var s := ArgvBlob.StackTop(argv) + ArgvBlob.Offset(argv, i);
            && SeesPointer(m', root, p + 8 * i, s) && SeesString(m', root, s, argv[i])
            && SeesPointer(m', root, p + 8 * |argv|, 0)
  {
    LoadedStack(m, place, root, file, segs, argv);
    ArgvBlob.ReadBack(argv, i);
    ChildReadsBlob(Load(m, root, file, segs, argv).value, root, StackBytes(argv), argv, i);
  }

  lemma ChildReadsBlob(m: Memory, root: nat, page: seq<byte>, argv: seq<seq<byte>>, i: nat)
    requires ArgvBlob.Accepted(argv) && i < |argv| && ShowsPage(m, root, page) && ArgvBlob.ReadsBack(argv, page, i)
    ensures var p, s := ArgvBlob.ArgvPointer(argv), ArgvBlob.StackTop(argv) + ArgvBlob.Offset(argv, i);
            && SeesPointer(m, root, p + 8 * i, s) && SeesString(m, root, s, argv[i])
            && SeesPointer(m, root, p + 8 * |argv|, 0)
  {
    var p, s := ArgvBlob.ArgvPointer(argv), ArgvBlob.StackTop(argv) + ArgvBlob.Offset(argv, i);
    ChildReadsPointer(m, root, page, p + 8 * i, s);
    ChildReadsString(m, root, page, s, argv[i]);
    ChildReadsPointer(m, root, page, p + 8 * |argv|, 0);
  }
}
