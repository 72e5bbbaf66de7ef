/**
 The kernel heap of kernel/src/heap.c as a list of blocks that tiles a fixed region:
 first fit with splitting, and forward-only coalescing on free.
 */
module HeapBlocks {
  import opened Common

  /** `size` usable bytes behind a 24-byte header. */
  datatype Block = Block(size: nat, free: bool)

  const BASE: nat := 0x1000000
  const SIZE: nat := 0x1000000

  /** The bytes a stretch of blocks covers, headers included. */
  function Extent(bs: seq<Block>): nat {
    if bs == [] then 0 else 24 + bs[0].size + Extent(bs[1..])
  }

  /** The address of block i's header. */
  function Addr(bs: seq<Block>, i: nat): nat
    requires i <= |bs|
  {
    BASE + Extent(bs[..i])
  }

  /** The blocks tile the region exactly, and every size keeps headers 8-byte aligned. */
  ghost predicate Tiles(bs: seq<Block>) {
    bs != [] && Extent(bs) == SIZE && forall i | 0 <= i < |bs| :: bs[i].size % 8 == 0
  }

  function Initial(): seq<Block> { [Block(SIZE - 24, true)] }

  /** kmalloc()'s rounding to 16 in 64-bit arithmetic: it wraps to 0 for the last 15 sizes. */
  function Rounded(size: nat): nat {
    var x := (size + 15) % 0x1_0000_0000_0000_0000;
    x - x % 16
  }

  predicate Fits(b: Block, s: nat) { b.free && b.size >= s }

  /** The first fitting block from index i on, or |bs|. */
  function FirstFit(bs: seq<Block>, s: nat, i: nat): (r: nat)
    requires i <= |bs|
    ensures i <= r <= |bs| && (r < |bs| ==> Fits(bs[r], s))
    ensures forall k | i <= k < r :: !Fits(bs[k], s)
    decreases |bs| - i
  {
    if i == |bs| || Fits(bs[i], s) then i else FirstFit(bs, s, i + 1)
  }

  predicate Splits(b: Block, s: nat) { b.size >= s + 24 + 16 }

  /** Block i given out for s bytes, split when the rest is worth a block of its own. */
  function Carve(bs: seq<Block>, i: nat, s: nat): seq<Block>
    requires i < |bs| && bs[i].size >= s
  {
    if Splits(bs[i], s) then
      bs[..i] + [Block(s, false), Block(bs[i].size - s - 24, true)] + bs[i + 1..]
    else bs[i := Block(bs[i].size, false)]
  }

  /** kmalloc(): the new list and the index of the block handed out, or None for NULL. */
  function Malloc(bs: seq<Block>, size: nat): (r: Option<(seq<Block>, nat)>)
    ensures r.Some? ==> r.value.1 < |r.value.0|
  {
    var i := FirstFit(bs, Rounded(size), 0);
    if size == 0 || i == |bs| then None else Some((Carve(bs, i, Rounded(size)), i))
  }

  /** kfree() of block i: free it, and swallow the next block if that is free too. */
  function Release(bs: seq<Block>, i: nat): seq<Block>
    requires i < |bs|
  {
    if i + 1 < |bs| && bs[i + 1].free
    then bs[..i] + [Block(bs[i].size + 24 + bs[i + 1].size, true)] + bs[i + 2..]
    else bs[i := Block(bs[i].size, true)]
  }

  /** heap_free_bytes() */
  function FreeBytes(bs: seq<Block>): nat {
    if bs == [] then 0 else FreeBytes(bs[..|bs| - 1]) + if bs[|bs| - 1].free then bs[|bs| - 1].size else 0
  }

  // ---------------------------------------------------------------- what is in use

  /** The (header address, size) pairs of the blocks in use, for a list that starts at address a. */
  function InUse(bs: seq<Block>, a: nat): set<(nat, nat)> {
    if bs == [] then {}
    else (if bs[0].free then {} else {(a, bs[0].size)}) + InUse(bs[1..], a + 24 + bs[0].size)
  }

  lemma {:induction false} ExtentSplit(x: seq<Block>, y: seq<Block>)
    ensures Extent(x + y) == Extent(x) + Extent(y)
  {
    if x == [] {
      assert x + y == y;
    } else {
      ExtentSplit(x[1..], y);
      assert (x + y)[1..] == x[1..] + y;
    }
  }

  lemma {:induction false} InUseSplit(x: seq<Block>, y: seq<Block>, a: nat)
    ensures InUse(x + y, a) == InUse(x, a) + InUse(y, a + Extent(x))
  {
    if x == [] {
      assert x + y == y;
    } else {
      InUseSplit(x[1..], y, a + 24 + x[0].size);
      assert (x + y)[1..] == x[1..] + y;
    }
  }

  lemma One(b: Block, a: nat)
    ensures Extent([b]) == 24 + b.size
    ensures InUse([b], a) == if b.free then {} else {(a, b.size)}
  {
    assert [b][1..] == [];
  }

  lemma Two(b: Block, c: Block, a: nat)
    ensures Extent([b, c]) == 48 + b.size + c.size
    ensures InUse([b, c], a)
            == (if b.free then {} else {(a, b.size)}) + if c.free then {} else {(a + 24 + b.size, c.size)}
  {
    assert [b, c] == [b] + [c];
    ExtentSplit([b], [c]);
    InUseSplit([b], [c], a);
    One(b, a);
    One(c, a + 24 + b.size);
  }

  /** A list in three parts. */
  lemma Parts(x: seq<Block>, y: seq<Block>, z: seq<Block>, a: nat)
    ensures Extent(x + y + z) == Extent(x) + Extent(y) + Extent(z)
    ensures InUse(x + y + z, a) == InUse(x, a) + InUse(y, a + Extent(x)) + InUse(z, a + Extent(x) + Extent(y))
  {
    ExtentSplit(x, y);
    ExtentSplit(x + y, z);
    InUseSplit(x, y, a);
    InUseSplit(x + y, z, a);
  }

  /** Where a block in use can lie: inside its list. */
  lemma {:induction false} InUseRange(bs: seq<Block>, a: nat, u: (nat, nat))
    requires u in InUse(bs, a)
    ensures a <= u.0 && u.0 + 24 + u.1 <= a + Extent(bs)
  {
    if u in InUse(bs[1..], a + 24 + bs[0].size) {
      InUseRange(bs[1..], a + 24 + bs[0].size, u);
    }
  }

  /** Two different blocks in use do not overlap, headers included. */
  lemma {:induction false} InUseDisjoint(bs: seq<Block>, a: nat, u: (nat, nat), w: (nat, nat))
    requires u in InUse(bs, a) && w in InUse(bs, a) && u != w
    ensures u.0 + 24 + u.1 <= w.0 || w.0 + 24 + w.1 <= u.0
  {
    var rest, b := bs[1..], a + 24 + bs[0].size;
    if u in InUse(rest, b) { InUseRange(rest, b, u); }
    if w in InUse(rest, b) { InUseRange(rest, b, w); }
    if u in InUse(rest, b) && w in InUse(rest, b) { InUseDisjoint(rest, b, u, w); }
  }

  lemma {:induction false} InUseAligned(bs: seq<Block>, a: nat, u: (nat, nat))
    requires u in InUse(bs, a) && a % 8 == 0 && forall i | 0 <= i < |bs| :: bs[i].size % 8 == 0
    ensures u.0 % 8 == 0
  {
    if u in InUse(bs[1..], a + 24 + bs[0].size) {
      InUseAligned(bs[1..], a + 24 + bs[0].size, u);
    }
  }

  lemma {:induction false} InUseAt(bs: seq<Block>, i: nat)
    requires i < |bs| && !bs[i].free
    ensures (Addr(bs, i), bs[i].size) in InUse(bs, BASE)
  {
    assert bs == bs[..i] + ([bs[i]] + bs[i + 1..]);
    InUseSplit(bs[..i], [bs[i]] + bs[i + 1..], BASE);
    InUseSplit([bs[i]], bs[i + 1..], Addr(bs, i));
    One(bs[i], Addr(bs, i));
  }

  // ---------------------------------------------------------------- kmalloc() and kfree()

  /** The stretch that takes the place of block i. */
  function Carved(b: Block, s: nat): seq<Block>
    requires b.size >= s
  {
    if Splits(b, s) then [Block(s, false), Block(b.size - s - 24, true)] else [Block(b.size, false)]
  }

  lemma CarvedEffect(b: Block, s: nat, a: nat)
    requires Fits(b, s)
    ensures Extent(Carved(b, s)) == 24 + b.size
    ensures InUse(Carved(b, s), a) == {(a, Carved(b, s)[0].size)}
  {
    if Splits(b, s) {
      Two(Block(s, false), Block(b.size - s - 24, true), a);
    } else {
      One(Block(b.size, false), a);
    }
  }

  lemma CarveParts(bs: seq<Block>, i: nat, s: nat)
    requires i < |bs| && Fits(bs[i], s)
    ensures bs == bs[..i] + [bs[i]] + bs[i + 1..]
    ensures Carve(bs, i, s) == bs[..i] + Carved(bs[i], s) + bs[i + 1..]
    ensures Carve(bs, i, s)[..i] == bs[..i] && Carve(bs, i, s)[i] == Carved(bs[i], s)[0]
  {
  }

  lemma CarveAligned(bs: seq<Block>, i: nat, s: nat)
    requires i < |bs| && Fits(bs[i], s) && s % 8 == 0 && forall k | 0 <= k < |bs| :: bs[k].size % 8 == 0
    ensures forall k | 0 <= k < |Carve(bs, i, s)| :: Carve(bs, i, s)[k].size % 8 == 0
  {
  }

  /** A free stretch gives way to one of the same extent with one block in use. */
  lemma Exchange(x: seq<Block>, y: seq<Block>, y': seq<Block>, z: seq<Block>, u: (nat, nat))
    requires Extent(y') == Extent(y) && InUse(y, BASE + Extent(x)) == {} && InUse(y', BASE + Extent(x)) == {u}
    ensures Extent(x + y' + z) == Extent(x + y + z) && InUse(x + y' + z, BASE) == InUse(x + y + z, BASE) + {u}
  {
    Parts(x, y, z, BASE);
    Parts(x, y', z, BASE);
  }

  lemma CarveInUse(bs: seq<Block>, i: nat, s: nat)
    requires i < |bs| && Fits(bs[i], s)
    ensures Extent(Carve(bs, i, s)) == Extent(bs)
    ensures InUse(Carve(bs, i, s), BASE) == InUse(bs, BASE) + {(Addr(bs, i), Carved(bs[i], s)[0].size)}
  {
    var x, y, y', z := bs[..i], [bs[i]], Carved(bs[i], s), bs[i + 1..];
    CarvedEffect(bs[i], s, Addr(bs, i));
    One(bs[i], Addr(bs, i));
    Exchange(x, y, y', z, (Addr(bs, i), y'[0].size));
    CarveParts(bs, i, s);
  }

  lemma CarveEffect(bs: seq<Block>, i: nat, s: nat)
    requires Tiles(bs) && i < |bs| && Fits(bs[i], s) && s % 8 == 0
    ensures var bs' := Carve(bs, i, s);
            && Tiles(bs') && i < |bs'| && !bs'[i].free && bs'[i].size >= s && Addr(bs', i) == Addr(bs, i)
            && InUse(bs', BASE) == InUse(bs, BASE) + {(Addr(bs, i), bs'[i].size)}
  {
    CarveParts(bs, i, s);
    CarveAligned(bs, i, s);
    CarveInUse(bs, i, s);
  }

  /**
   kmalloc() keeps the tiling and adds exactly one block to those in use, at an address
   in the region that was in nobody's hands.
   */
  lemma MallocKeeps(bs: seq<Block>, size: nat)
    requires Tiles(bs) && Malloc(bs, size).Some?
    ensures var (bs', i) := Malloc(bs, size).value;
            && Tiles(bs') && i < |bs'| && bs'[i].size >= Rounded(size)
            && InUse(bs', BASE) == InUse(bs, BASE) + {(Addr(bs', i), bs'[i].size)}
            && forall u | u in InUse(bs, BASE) :: u.0 != Addr(bs', i)
  {
    var s := Rounded(size);
    var i := FirstFit(bs, s, 0);
    RoundedBy8(size);
    CarveEffect(bs, i, s);
    var a := Addr(bs, i);
    forall u | u in InUse(bs, BASE) ensures u.0 != a {
      FreeIsUnused(bs, i, u);
    }
  }

  // ---------------------------------------------------------------- how much is taken and given back

  /** The next multiple of 16, or 0 for the last 15 sizes there are. */
  ghost predicate RoundsTo(size: nat, s: nat) {
    s % 16 == 0 && if size <= 0x1_0000_0000_0000_0000 - 16 then size <= s < size + 16 else s == 0
  }

  lemma RoundedIs(size: nat, s: nat)
    requires size < 0x1_0000_0000_0000_0000 && RoundsTo(size, s)
    ensures Rounded(size) == s
  {
    if size <= 0x1_0000_0000_0000_0000 - 16 {
      assert size + 15 - s < 16 && (size + 15) % 16 == size + 15 - s;
    }
  }

  lemma {:induction false} FreeSplit(x: seq<Block>, y: seq<Block>)
    ensures FreeBytes(x + y) == FreeBytes(x) + FreeBytes(y)
  {
    if y == [] {
      assert x + y == x;
    } else {
      var n := |y| - 1;
      assert (x + y)[..|x| + n] == x + y[..n];
      FreeSplit(x, y[..n]);
    }
  }

  lemma FreeOne(b: Block)
    ensures FreeBytes([b]) == if b.free then b.size else 0
  {
    assert [b][..0] == [];
  }

  lemma FreeParts(x: seq<Block>, y: seq<Block>, z: seq<Block>)
    ensures FreeBytes(x + y + z) == FreeBytes(x) + FreeBytes(y) + FreeBytes(z)
  {
    FreeSplit(x, y);
    FreeSplit(x + y, z);
  }

  lemma FreeTwo(b: Block, c: Block)
    ensures FreeBytes([b, c]) == (if b.free then b.size else 0) + if c.free then c.size else 0
  {
    assert [b, c] == [b] + [c];
    FreeSplit([b], [c]);
    FreeOne(b);
    FreeOne(c);
  }

  lemma CarveBytes(bs: seq<Block>, i: nat, s: nat)
    requires i < |bs| && Fits(bs[i], s)
    ensures var n := bs[i].size; var bs' := Carve(bs, i, s);
            && i < |bs'| && !bs'[i].free && bs'[i].size == (if n >= s + 40 then s else n)
            && FreeBytes(bs') + (if n >= s + 40 then s + 24 else n) == FreeBytes(bs)
  {
    var x, y, z := bs[..i], Carved(bs[i], s), bs[i + 1..];
    CarveParts(bs, i, s);
    FreeParts(x, [bs[i]], z);
    FreeParts(x, y, z);
    FreeOne(bs[i]);
    if bs[i].size >= s + 40 {
      FreeTwo(Block(s, false), Block(bs[i].size - s - 24, true));
    } else {
      FreeOne(Block(bs[i].size, false));
    }
  }

  /**
   kmalloc() takes the first free block of at least s bytes, s being the size rounded up to a multiple of 16, in
   numbers: a block of s + 40 bytes or more is cut to exactly s, and heap_free_bytes() falls by s + 24; a smaller one is
   handed out whole, and it falls by its size. So fewer than 40 bytes are wasted.
   */
  lemma MallocTakes(bs: seq<Block>, size: nat, s: nat)
    requires size < 0x1_0000_0000_0000_0000 && RoundsTo(size, s) && Malloc(bs, size).Some?
    ensures var (bs', i) := Malloc(bs, size).value;
            && i < |bs| && bs[i].free && bs[i].size >= s && (forall k | 0 <= k < i && bs[k].free :: bs[k].size < s)
            && i < |bs'| && s <= bs'[i].size < s + 40
            && bs'[i].size == (if bs[i].size >= s + 40 then s else bs[i].size)
            && FreeBytes(bs') == FreeBytes(bs) - bs'[i].size - (if bs[i].size >= s + 40 then 24 else 0)
  {
    RoundedIs(size, s);
    CarveBytes(bs, FirstFit(bs, s, 0), s);
  }

  /** kfree() gives back the block, and the header of the next block when that is free and merged. */
  lemma ReleaseGives(bs: seq<Block>, i: nat)
    requires i < |bs| && !bs[i].free
    ensures FreeBytes(Release(bs, i)) == FreeBytes(bs) + bs[i].size + if i + 1 < |bs| && bs[i + 1].free then 24 else 0
  {
    var x, y, b, z := bs[..i], Freed(bs, i), Release(bs, i)[i], bs[i + |Freed(bs, i)|..];
    ReleaseParts(bs, i);
    FreeParts(x, y, z);
    FreeParts(x, [b], z);
    FreeOne(b);
    if i + 1 < |bs| && bs[i + 1].free { FreeTwo(bs[i], bs[i + 1]); } else { FreeOne(bs[i]); }
  }

  lemma RoundedBy8(size: nat)
    ensures Rounded(size) % 8 == 0
  {
    MultipleOf8((size + 15) % 0x1_0000_0000_0000_0000);
  }

  lemma MultipleOf8(x: nat)
    ensures (x - x % 16) % 8 == 0
  {
    var q := x / 16;
    assert x - x % 16 == 16 * q;
    TimesSixteen(q);
  }

  lemma TimesSixteen(q: nat)
    ensures (16 * q) % 8 == 0
  {
  }

  lemma FreeIsUnused(bs: seq<Block>, i: nat, u: (nat, nat))
    requires i < |bs| && bs[i].free && u in InUse(bs, BASE)
    ensures u.0 != Addr(bs, i)
  {
    var x, z := bs[..i], bs[i + 1..];
    assert bs == x + ([bs[i]] + z);
    InUseSplit(x, [bs[i]] + z, BASE);
    InUseSplit([bs[i]], z, Addr(bs, i));
    One(bs[i], Addr(bs, i));
    if u in InUse(x, BASE) {
      InUseRange(x, BASE, u);
    } else {
      InUseRange(z, Addr(bs, i) + 24 + bs[i].size, u);
    }
  }

  /** NULL exactly for size 0 or when no free block is big enough for the rounded size. */
  lemma MallocFails(bs: seq<Block>, size: nat)
    ensures Malloc(bs, size).None? <==> size == 0 || forall i | 0 <= i < |bs| :: !Fits(bs[i], Rounded(size))
  {
  }

  /**
   The block handed out is as big as asked for exactly when the rounding does not wrap,
   that is for every size up to 2^64 - 16.
   */
  lemma MallocBigEnough(bs: seq<Block>, size: nat)
    requires Tiles(bs) && size < 0x1_0000_0000_0000_0000 && Malloc(bs, size).Some?
    ensures var (bs', i) := Malloc(bs, size).value;
            i < |bs'| && (bs'[i].size >= size <==> size <= 0x1_0000_0000_0000_0000 - 16)
  {
    MallocKeeps(bs, size);
    var (bs', i) := Malloc(bs, size).value;
    BlockBound(bs', i);
  }

  lemma BlockBound(bs: seq<Block>, i: nat)
    requires Tiles(bs) && i < |bs|
    ensures bs[i].size < SIZE
  {
    assert bs == bs[..i] + ([bs[i]] + bs[i + 1..]);
    ExtentSplit(bs[..i], [bs[i]] + bs[i + 1..]);
    ExtentSplit([bs[i]], bs[i + 1..]);
    One(bs[i], 0);
  }

  /** The stretch kfree() of block i replaces, and what takes its place. */
  function Freed(bs: seq<Block>, i: nat): seq<Block>
    requires i < |bs|
  {
    if i + 1 < |bs| && bs[i + 1].free then [bs[i], bs[i + 1]] else [bs[i]]
  }

  lemma FreedEffect(bs: seq<Block>, i: nat, a: nat)
    requires i < |bs| && !bs[i].free
    ensures Extent(Freed(bs, i)) == Extent([Release(bs, i)[i]])
    ensures InUse(Freed(bs, i), a) == {(a, bs[i].size)} && InUse([Release(bs, i)[i]], a) == {}
  {
    One(Release(bs, i)[i], a);
    if i + 1 < |bs| && bs[i + 1].free {
      Two(bs[i], bs[i + 1], a);
    } else {
      One(bs[i], a);
    }
  }

  lemma ReleaseParts(bs: seq<Block>, i: nat)
    requires i < |bs|
    ensures bs == bs[..i] + Freed(bs, i) + bs[i + |Freed(bs, i)|..]
    ensures Release(bs, i) == bs[..i] + [Release(bs, i)[i]] + bs[i + |Freed(bs, i)|..]
  {
  }

  lemma ReleaseAligned(bs: seq<Block>, i: nat)
    requires i < |bs| && forall k | 0 <= k < |bs| :: bs[k].size % 8 == 0
    ensures forall k | 0 <= k < |Release(bs, i)| :: Release(bs, i)[k].size % 8 == 0
  {
  }

  lemma ReleaseUse(x: seq<Block>, y: seq<Block>, y': seq<Block>, z: seq<Block>, n: nat)
    requires Extent(y') == Extent(y) && InUse(y', BASE + Extent(x)) == {}
    requires Extent(y) > 0 && InUse(y, BASE + Extent(x)) == {(BASE + Extent(x), n)}
    ensures InUse(x + y' + z, BASE) == InUse(x + y + z, BASE) - {(BASE + Extent(x), n)}
    ensures Extent(x + y' + z) == Extent(x + y + z)
  {
    Between(x, z, n, Extent(y));
    Parts(x, y, z, BASE);
    Parts(x, y', z, BASE);
    TakeOut(InUse(x, BASE), InUse(z, BASE + Extent(x) + Extent(y)), (BASE + Extent(x), n));
  }

  lemma TakeOut(a: set<(nat, nat)>, c: set<(nat, nat)>, u: (nat, nat))
    requires u !in a && u !in c
    ensures a + {} + c == (a + {u} + c) - {u}
  {
  }

  /** A block between two lists is in neither. */
  lemma Between(x: seq<Block>, z: seq<Block>, n: nat, gap: nat)
    requires gap > 0
    ensures (BASE + Extent(x), n) !in InUse(x, BASE) && (BASE + Extent(x), n) !in InUse(z, BASE + Extent(x) + gap)
  {
    var u, b := (BASE + Extent(x), n), BASE + Extent(x) + gap;
    if u in InUse(x, BASE) { InUseRange(x, BASE, u); }
    if u in InUse(z, b) { InUseRange(z, b, u); }
  }

  /** kfree() keeps the tiling and takes exactly the freed block out of use. */
  lemma ReleaseKeeps(bs: seq<Block>, i: nat)
    requires Tiles(bs) && i < |bs| && !bs[i].free
    ensures Tiles(Release(bs, i))
    ensures InUse(Release(bs, i), BASE) == InUse(bs, BASE) - {(Addr(bs, i), bs[i].size)}
  {
    ReleaseParts(bs, i);
    ReleaseAligned(bs, i);
    FreedEffect(bs, i, Addr(bs, i));
    ReleaseUse(bs[..i], Freed(bs, i), [Release(bs, i)[i]], bs[i + |Freed(bs, i)|..], bs[i].size);
  }

  // ---------------------------------------------------------------- whole runs

  /** The heap and, for every live pointer's header, the size its caller asked for. */
  datatype State = State(blocks: seq<Block>, asked: map<nat, nat>)

  datatype Call = Alloc(size: nat) | Free(i: nat)

  /** Callers free blocks that are in use. */
  predicate Allowed(s: State, c: Call) {
    c.Free? ==> c.i < |s.blocks| && !s.blocks[c.i].free
  }

  function After(s: State, c: Call): State
    requires Allowed(s, c)
  {
    match c
    case Alloc(size) =>
      (match Malloc(s.blocks, size)
       case None => s
       case Some((bs, i)) => State(bs, s.asked[Addr(bs, i) := size]))
    case Free(i) => State(Release(s.blocks, i), s.asked - {Addr(s.blocks, i)})
  }

  /** Every live pointer heads a block in use that is at least as big as its caller asked. */
  ghost predicate Honest(s: State) {
    && Tiles(s.blocks)
    && (forall u | u in InUse(s.blocks, BASE) :: u.0 in s.asked && s.asked[u.0] <= u.1)
    && (forall a | a in s.asked :: exists n :: (a, n) in InUse(s.blocks, BASE))
  }

  lemma AfterHonest(s: State, c: Call)
    requires Honest(s) && Allowed(s, c) && (c.Alloc? ==> c.size <= 0x1_0000_0000_0000_0000 - 16)
    ensures Honest(After(s, c))
  {
    match c
    case Alloc(size) =>
      if Malloc(s.blocks, size).Some? {
        MallocKeeps(s.blocks, size);
        MallocBigEnough(s.blocks, size);
        var (bs, i) := Malloc(s.blocks, size).value;
        forall a | a in After(s, c).asked ensures exists n :: (a, n) in InUse(bs, BASE) {
          if a == Addr(bs, i) {
            assert (a, bs[i].size) in InUse(bs, BASE);
          } else {
            var n :| (a, n) in InUse(s.blocks, BASE);
            assert (a, n) in InUse(bs, BASE);
          }
        }
      }
    case Free(i) =>
      var a, bs := Addr(s.blocks, i), Release(s.blocks, i);
      ReleaseKeeps(s.blocks, i);
      InUseAt(s.blocks, i);
      forall u | u in InUse(bs, BASE) ensures u.0 != a && u in InUse(s.blocks, BASE) {
        InUseDisjoint(s.blocks, BASE, u, (a, s.blocks[i].size));
      }
      forall b | b in After(s, c).asked ensures exists n :: (b, n) in InUse(bs, BASE) {
        var n :| (b, n) in InUse(s.blocks, BASE);
        assert (b, n) in InUse(bs, BASE);
      }
  }

  ghost predicate StepAt(run: seq<State>, calls: seq<Call>, i: nat)
    requires |run| == |calls| + 1 && i < |calls|
  {
    Allowed(run[i], calls[i]) && run[i + 1] == After(run[i], calls[i])
    && (calls[i].Alloc? ==> calls[i].size <= 0x1_0000_0000_0000_0000 - 16)
  }

  ghost predicate IsRun(run: seq<State>, calls: seq<Call>) {
    && |run| == |calls| + 1 && run[0] == State(Initial(), map[])
    && forall i | 0 <= i < |calls| :: StepAt(run, calls, i)
  }

  lemma {:induction false} RunHonest(run: seq<State>, calls: seq<Call>, i: nat)
    requires IsRun(run, calls) && i < |run|
    ensures Honest(run[i])
  {
    if i == 0 {
      One(Initial()[0], BASE);
    } else {
      RunHonest(run, calls, i - 1);
      assert StepAt(run, calls, i - 1);
      AfterHonest(run[i - 1], calls[i - 1]);
    }
  }

  /**
   After any sequence of kmalloc() and kfree() of live pointers the blocks tile the
   16 MiB region, and any two blocks in use are disjoint, in the region, 8-byte aligned
   and as big as their callers asked.
   */
  lemma HeapIsSafe(run: seq<State>, calls: seq<Call>, i: nat, u: (nat, nat), w: (nat, nat))
    requires IsRun(run, calls) && i < |run|
    requires u in InUse(run[i].blocks, BASE) && w in InUse(run[i].blocks, BASE)
    ensures Tiles(run[i].blocks)
    ensures 0x1000000 <= u.0 && u.0 + 24 + u.1 <= 0x2000000 && (u.0 + 24) % 8 == 0
    ensures FreeBytes(run[i].blocks) + UsedBytes(run[i].blocks) + 24 * |run[i].blocks| == 0x1000000
    ensures u.0 in run[i].asked && run[i].asked[u.0] <= u.1
    ensures u != w ==> u.0 + 24 + u.1 <= w.0 || w.0 + 24 + w.1 <= u.0
  {
    RunHonest(run, calls, i);
    InUseRange(run[i].blocks, BASE, u);
    InUseAligned(run[i].blocks, BASE, u);
    Conservation(run[i].blocks);
    if u != w { InUseDisjoint(run[i].blocks, BASE, u, w); }
  }

  // ---------------------------------------------------------------- last in, first out

  /** No two neighbouring blocks are both free. */
  ghost predicate Compact(bs: seq<Block>) {
    forall i | 0 <= i < |bs| - 1 :: Pair(bs, i)
  }

  predicate Pair(bs: seq<Block>, i: nat)
    requires i + 1 < |bs|
  {
    !(bs[i].free && bs[i + 1].free)
  }

  /** What kmalloc() then kfree() of the same block restores, and when. */
  lemma CarveThenRelease(bs: seq<Block>, i: nat, s: nat)
    requires i < |bs| && Fits(bs[i], s)
    ensures i < |Carve(bs, i, s)|
    ensures Release(Carve(bs, i, s), i) == bs <==> bs[i].size >= s + 40 || i + 1 == |bs| || !bs[i + 1].free
  {
    var bs' := Carve(bs, i, s);
    if Splits(bs[i], s) {
      assert Release(bs', i) == bs[..i] + [Block(bs[i].size, true)] + bs[i + 1..];
    } else if i + 1 < |bs| && bs[i + 1].free {
      assert |Release(bs', i)| == |bs| - 1;
    }
  }

  lemma CarveCompact(bs: seq<Block>, i: nat, s: nat)
    requires i < |bs| && Fits(bs[i], s) && Compact(bs)
    ensures Compact(Carve(bs, i, s))
  {
    var bs' := Carve(bs, i, s);
    if i + 1 < |bs| { assert Pair(bs, i); }
    forall k | 0 <= k < |bs'| - 1 ensures Pair(bs', k) {
      if k < i {
        assert Pair(bs, k);
      } else if k > i {
        if Splits(bs[i], s) {
          assert k > i + 1 ==> Pair(bs, k - 1);
        } else {
          assert Pair(bs, k);
        }
      }
    }
  }

  /**
   A well-nested program: allocate, do more well-nested work, free what was allocated,
   and go on. A failed allocation frees nothing, as kfree(NULL) does.
   */
  datatype Script = Stop | Nest(size: nat, inner: Script, rest: Script)

  function Perform(bs: seq<Block>, p: Script): seq<Block>
    decreases p
  {
    match p
    case Stop => bs
    case Nest(size, inner, rest) =>
      match Malloc(bs, size)
      case None => Perform(Perform(bs, inner), rest)
      case Some((bs1, i)) =>
        var bs2 := Perform(bs1, inner);
        Perform(if i < |bs2| then Release(bs2, i) else bs2, rest)
  }

  /**
   From any heap with no two neighbouring free blocks, every well-nested sequence of
   kmalloc() and kfree(), of any length and depth, restores the exact block list, although
   kfree() only ever coalesces forward.
   */
  lemma {:induction false} NestedRestores(bs: seq<Block>, p: Script)
    requires Compact(bs)
    ensures Perform(bs, p) == bs && FreeBytes(Perform(bs, p)) == FreeBytes(bs)
    decreases p
  {
    if p.Nest? {
      if Malloc(bs, p.size).None? {
        NestedRestores(bs, p.inner);
      } else {
        var s := Rounded(p.size);
        var i := FirstFit(bs, s, 0);
        CarveCompact(bs, i, s);
        NestedRestores(Carve(bs, i, s), p.inner);
        CarveThenRelease(bs, i, s);
        if i + 1 < |bs| { assert Pair(bs, i); }
      }
      NestedRestores(bs, p.rest);
    }
  }

  /**
   The nesting matters: kfree() merges forwards only, so it leaves no free neighbours
   exactly when there were none and the block in front is in use.
   */
  lemma ReleaseFragments(bs: seq<Block>, i: nat)
    requires i < |bs| && !bs[i].free
    ensures Compact(Release(bs, i)) <==> Compact(bs) && (i == 0 || !bs[i - 1].free)
  {
    var bs' := Release(bs, i);
    var merged := if i + 1 < |bs| && bs[i + 1].free then 1 else 0;
    if Compact(bs') {
      if i > 0 { assert Pair(bs', i - 1); }
      forall k | 0 <= k < |bs| - 1 ensures Pair(bs, k) {
        if k + 1 < i { assert Pair(bs', k); } else if k > i { assert Pair(bs', k - merged); }
      }
    }
    if Compact(bs) && (i == 0 || !bs[i - 1].free) {
      forall k | 0 <= k < |bs'| - 1 ensures Pair(bs', k) {
        if k + 1 != i { assert Pair(bs, if k < i then k else k + merged); }
      }
    }
  }

  /** Freeing two neighbours in the order they were allocated leaves both free side by side. */
  lemma OutOfOrderFragments()
    ensures var bs := [Block(16, false), Block(16, false), Block(16, false)];
            Compact(bs) && !Compact(Release(Release(bs, 0), 1))
  {
    var bs := [Block(16, false), Block(16, false), Block(16, false)];
    ReleaseFragments(Release(bs, 0), 1);
  }

  // ---------------------------------------------------------------- conservation

  function UsedBytes(bs: seq<Block>): nat {
    if bs == [] then 0 else UsedBytes(bs[..|bs| - 1]) + if bs[|bs| - 1].free then 0 else bs[|bs| - 1].size
  }

  /** Free bytes, used bytes and headers always add up to the whole region. */
  lemma {:induction false} Conservation(bs: seq<Block>)
    ensures FreeBytes(bs) + UsedBytes(bs) + 24 * |bs| == Extent(bs)
  {
    if bs != [] {
      var x, b := bs[..|bs| - 1], bs[|bs| - 1];
      Conservation(x);
      assert bs == x + [b];
      ExtentSplit(x, [b]);
      One(b, 0);
    }
  }
}
