/** The bitmap that implements the page pool: kernel/src/pmm.c on its bytes. */
module PageBitmap {
  import opened Common
  import opened PagePool

  // ---------------------------------------------------------------- bits

  predicate TestBit(b: bv8, k: nat)
    requires k < 8
  {
    (b >> k) & 1 == 1
  }

  function SetBit(b: bv8, k: nat): bv8
    requires k < 8
  {
    b | (1 << k)
  }

  function ClearBit(b: bv8, k: nat): bv8
    requires k < 8
  {
    b & !(1 << k)
  }

  /** Setting or clearing one bit leaves the other seven alone. */
  lemma BitUpdates(b: bv8, k: nat, j: nat)
    requires k < 8 && j < 8
    ensures TestBit(SetBit(b, k), j) <==> j == k || TestBit(b, j)
    ensures TestBit(ClearBit(b, k), j) <==> j != k && TestBit(b, j)
  {
    BitUpdatesAt(b, k, j);
  }

  lemma BitUpdatesAt(b: bv8, k: nat, j: nat)
    requires k < 8 && j < 8
    ensures ((b | (1 << k)) >> j) & 1 == 1 <==> j == k || (b >> j) & 1 == 1
    ensures ((b & !(1 << k)) >> j) & 1 == 1 <==> j != k && (b >> j) & 1 == 1
  {
    if k == 0 { } else if k == 1 { } else if k == 2 { } else if k == 3 { }
    else if k == 4 { } else if k == 5 { } else if k == 6 { } else { assert k == 7; }
  }

  predicate Used(s: seq<bv8>, p: nat)
    requires p / 8 < |s|
  {
    TestBit(s[p / 8], p % 8)
  }

  /** The bytes say exactly which pages are free. */
  ghost predicate Shows(s: seq<bv8>, bits: nat, free: set<nat>) {
    && bits <= 8 * |s|
    && (forall p | p in free :: p < bits)
    && forall p: nat {:trigger Used(s, p)} | p < bits :: Used(s, p) <==> p !in free
  }

  lemma MarkShows(s: seq<bv8>, bits: nat, free: set<nat>, p: nat)
    requires Shows(s, bits, free) && p < bits
    ensures Shows(s[p / 8 := SetBit(s[p / 8], p % 8)], bits, free - {p})
    ensures Shows(s[p / 8 := ClearBit(s[p / 8], p % 8)], bits, free + {p})
  {
    var set', clear' := s[p / 8 := SetBit(s[p / 8], p % 8)], s[p / 8 := ClearBit(s[p / 8], p % 8)];
    forall q: nat | q < bits
      ensures Used(set', q) <==> q !in free - {p}
      ensures Used(clear', q) <==> q !in free + {p}
    {
      BitUpdates(s[p / 8], p % 8, q % 8);
      assert Used(s, q) <==> q !in free;
    }
  }

  // ---------------------------------------------------------------- the memory map

  datatype Descriptor = Descriptor(kind: nat, start: nat, pages: nat)

  /** Boot services code and data (3, 4) and conventional memory (7). */
  predicate Usable(d: Descriptor) {
    d.kind == 7 || d.kind == 3 || d.kind == 4
  }

  function FirstPage(d: Descriptor): nat { d.start / 4096 }

  /** Page p belongs to the usable descriptor d. */
  predicate Covers(d: Descriptor, p: nat) {
    Usable(d) && FirstPage(d) <= p < FirstPage(d) + d.pages
  }

  /** Some usable descriptor covers page p. */
  predicate IsUsable(descs: seq<Descriptor>, p: nat) {
    exists i | 0 <= i < |descs| :: Covers(descs[i], p)
  }

  /** What the code relies on: usable descriptors are page-aligned and do not overlap. */
  ghost predicate Tidy(descs: seq<Descriptor>) {
    && (forall i | 0 <= i < |descs| :: Usable(descs[i]) ==> descs[i].start % 4096 == 0)
    && (forall i, j, p | 0 <= i < j < |descs| && Covers(descs[i], p) :: !Covers(descs[j], p))
  }

  predicate EndsAt(d: Descriptor, bits: nat) {
    Usable(d) && FirstPage(d) + d.pages == bits
  }

  predicate EndsBy(d: Descriptor, bits: nat) {
    Usable(d) ==> FirstPage(d) + d.pages <= bits
  }

  /** `bits` is the end of the highest usable descriptor, or zero if there is none. */
  ghost predicate IsTop(descs: seq<Descriptor>, bits: nat) {
    && (forall i | 0 <= i < |descs| :: EndsBy(descs[i], bits))
    && (bits == 0 || exists i | 0 <= i < |descs| :: EndsAt(descs[i], bits))
  }

  function BitmapBytes(bits: nat): nat { (bits + 7) / 8 }

  function BitmapPages(bits: nat): nat { (BitmapBytes(bits) + 4095) / 4096 }

  predicate CanHost(d: Descriptor, bits: nat) {
    d.kind == 7 && d.pages * 4096 >= BitmapBytes(bits)
  }

  /** `r` is the first descriptor able to hold the bitmap. */
  ghost predicate IsHost(descs: seq<Descriptor>, bits: nat, r: nat) {
    r < |descs| && CanHost(descs[r], bits) && forall i | 0 <= i < r :: !CanHost(descs[i], bits)
  }

  /** Page p holds a part of the bitmap itself. */
  predicate UnderBitmap(host: Descriptor, bits: nat, p: nat) {
    FirstPage(host) <= p < FirstPage(host) + BitmapPages(bits)
  }

  /** The pages left free by pmm_init(): usable, not under the bitmap, and never page 0. */
  function Granted(descs: seq<Descriptor>, bits: nat, host: Descriptor): set<nat> {
    set p | 0 <= p < bits && IsUsable(descs, p) && !UnderBitmap(host, bits, p) && p != 0
  }

  lemma UsableBelow(descs: seq<Descriptor>, bits: nat, p: nat)
    requires IsTop(descs, bits) && IsUsable(descs, p)
    ensures p < bits
  {
    var i :| 0 <= i < |descs| && Covers(descs[i], p);
    assert EndsBy(descs[i], bits);
  }

  lemma IsGrant(descs: seq<Descriptor>, bits: nat, host: Descriptor, free: set<nat>)
    requires IsTop(descs, bits)
    requires forall p: nat :: p in free <==> IsUsable(descs, p) && !UnderBitmap(host, bits, p) && p != 0
    ensures free == Granted(descs, bits, host)
  {
    forall p: nat ensures p in free <==> p in Granted(descs, bits, host) {
      if IsUsable(descs, p) { UsableBelow(descs, bits, p); }
    }
  }

  lemma UsableOneMore(descs: seq<Descriptor>, i: nat, p: nat)
    requires i < |descs|
    ensures IsUsable(descs[..i + 1], p) <==> IsUsable(descs[..i], p) || Covers(descs[i], p)
  {
    var ds, ds' := descs[..i], descs[..i + 1];
    if IsUsable(ds, p) {
      var k :| 0 <= k < |ds| && Covers(ds[k], p);
      assert Covers(ds'[k], p);
    }
    if IsUsable(ds', p) {
      var k :| 0 <= k < |ds'| && Covers(ds'[k], p);
      assert k < i ==> Covers(ds[k], p);
    }
    assert Covers(descs[i], p) ==> Covers(ds'[i], p);
  }

  lemma UsableOnce(descs: seq<Descriptor>, i: nat, p: nat)
    requires Tidy(descs) && i < |descs| && Covers(descs[i], p)
    ensures !IsUsable(descs[..i], p)
  {
    var ds := descs[..i];
    forall k | 0 <= k < |ds| ensures !Covers(ds[k], p) {
      assert ds[k] == descs[k];
    }
  }

  lemma OverlapsRegion(addr: nat, size: nat, p: nat)
    ensures addr / 4096 <= p < (addr + size + 4095) / 4096 <==> 4096 * p < addr + size && addr < 4096 * (p + 1)
  {
  }

  class Pmm {
    var bitmap: array<bv8>
    var bits: nat
    var freePages: nat
    var hint: nat
    ghost var free: set<nat>

    ghost predicate Valid()
      reads this, bitmap
    {
      Shows(bitmap[..], bits, free) && freePages == |free|
    }

    ghost function View(): Pool
      reads this
    {
      Pool(bits, free, hint)
    }

    constructor ()
      ensures Valid() && View() == Pool(0, {}, 0) && fresh(bitmap)
    {
      bitmap := new bv8[0];
      bits, freePages, hint, free := 0, 0, 0, {};
    }

    /** bitmap_set() and the counter decrement that goes with it. */
    method Mark(p: nat)
      requires Valid() && p in free
      modifies this`freePages, this`free, bitmap
      ensures Valid() && free == old(free) - {p}
    {
      MarkShows(bitmap[..], bits, free, p);
      bitmap[p / 8] := SetBit(bitmap[p / 8], p % 8);
      freePages := freePages - 1;
      free := free - {p};
    }

    /** bitmap_clear() and the counter increment that goes with it. */
    method Unmark(p: nat)
      requires Valid() && p < bits && p !in free
      modifies this`freePages, this`free, bitmap
      ensures Valid() && free == old(free) + {p}
    {
      MarkShows(bitmap[..], bits, free, p);
      bitmap[p / 8] := ClearBit(bitmap[p / 8], p % 8);
      freePages := freePages + 1;
      free := free + {p};
    }

    /** bitmap_test() */
    method Test(p: nat) returns (used: bool)
      requires Valid() && p < bits
      ensures used <==> p !in free
    {
      used := TestBit(bitmap[p / 8], p % 8);
      assert used == Used(bitmap[..], p);
    }

    /** pmm_alloc_page(); None is the NULL return. */
    method Alloc() returns (r: Option<nat>)
      requires Valid()
      modifies this`freePages, this`free, this`hint, bitmap
      ensures Valid()
      ensures r == old(Pick(View()))
      ensures View() == if r.Some? then Take(old(View()), r.value) else old(View())
      ensures r.Some? ==> free == old(free) - {r.value} && hint == r.value + 1
    {
      ghost var v := View();
      var i := 0;
      while i < bits
        invariant 0 <= i <= bits
        invariant Pick(v) == Probe(v, i)
        invariant View() == v && Valid()
      {
        var p := (hint + i) % bits;
        var used := Test(p);
        if !used {
          Mark(p);
          hint := p + 1;
          return Some(p);
        }
        i := i + 1;
      }
      return None;
    }

    /** pmm_free_page(); `ok` is false where the source panics: an untracked page or a double free. */
    method FreePage(addr: nat) returns (ok: bool)
      requires Valid()
      modifies this`freePages, this`free, bitmap
      ensures Valid()
      ensures ok <==> addr / 4096 < bits && addr / 4096 !in old(View()).free
      ensures View() == if ok then Release(old(View()), addr / 4096) else old(View())
      ensures free == if ok then old(free) + {addr / 4096} else old(free)
    {
      var p := addr / 4096;
      if p >= bits {
        return false;
      }
      var used := Test(p);
      if !used {
        return false;
      }
      Unmark(p);
      return true;
    }

    /**
     pmm_reserve_region(): rounds outward to whole pages and stops at the end of the bitmap, so exactly the pages
     that start before the region ends and end after it starts are withheld.
     */
    method ReserveRegion(addr: nat, size: nat)
      requires Valid()
      modifies this`freePages, this`free, bitmap
      ensures Valid()
      ensures View() == Withhold(old(View()), addr / 4096, (addr + size + 4095) / 4096)
      ensures forall p: nat :: p in free <==> p in old(free) && !(4096 * p < addr + size && addr < 4096 * (p + 1))
    {
      forall p: nat ensures addr / 4096 <= p < (addr + size + 4095) / 4096 <==> 4096 * p < addr + size && addr < 4096 * (p + 1) {
        OverlapsRegion(addr, size, p);
      }
      WithholdPages(addr / 4096, (addr + size + 4095) / 4096);
    }

    method WithholdPages(lo: nat, hi: nat)
      requires Valid()
      modifies this`freePages, this`free, bitmap
      ensures Valid()
      ensures View() == Withhold(old(View()), lo, hi)
    {
      ghost var v := View();
      var p := lo;
      while p < hi && p < bits
        invariant lo <= p && (p <= hi || p == lo)
        invariant Valid() && View() == Withhold(v, lo, p)
      {
        var used := Test(p);
        if !used {
          Mark(p);
        }
        p := p + 1;
      }
      assert View().free == Withhold(v, lo, hi).free;
    }

    /** The first pass of pmm_init(): the end of the highest usable descriptor. */
    method FindTop(descs: seq<Descriptor>) returns (top: nat)
      requires Tidy(descs)
      ensures IsTop(descs, top)
    {
      var highest: nat := 0;
      var i := 0;
      while i < |descs|
        invariant 0 <= i <= |descs| && highest % 4096 == 0
        invariant IsTop(descs[..i], highest / 4096)
      {
        var d := descs[i];
        if Usable(d) && d.start + d.pages * 4096 > highest {
          RaiseTop(descs, i, highest / 4096, (d.start + d.pages * 4096) / 4096);
          highest := d.start + d.pages * 4096;
        } else {
          KeepTop(descs, i, highest / 4096);
        }
        i := i + 1;
      }
      assert descs[..i] == descs;
      top := highest / 4096;
    }

    static lemma KeepTop(descs: seq<Descriptor>, i: nat, top: nat)
      requires i < |descs| && IsTop(descs[..i], top) && EndsBy(descs[i], top)
      ensures IsTop(descs[..i + 1], top)
    {
      var ds, ds' := descs[..i], descs[..i + 1];
      forall j | 0 <= j < |ds'| ensures EndsBy(ds'[j], top) {
        assert j < i ==> EndsBy(ds[j], top);
      }
      if top != 0 {
        var j :| 0 <= j < i && EndsAt(ds[j], top);
        assert EndsAt(ds'[j], top);
      }
    }

    static lemma RaiseTop(descs: seq<Descriptor>, i: nat, was: nat, top: nat)
      requires i < |descs| && IsTop(descs[..i], was) && was <= top && EndsAt(descs[i], top)
      ensures IsTop(descs[..i + 1], top)
    {
      var ds, ds' := descs[..i], descs[..i + 1];
      forall j | 0 <= j < |ds'| ensures EndsBy(ds'[j], top) {
        assert j < i ==> EndsBy(ds[j], was);
      }
      assert EndsAt(ds'[i], top);
    }

    /** The third pass of pmm_init(): clear the bit of every usable page, counting each one. */
    method ClearUsable(descs: seq<Descriptor>)
      requires Tidy(descs) && Valid() && IsTop(descs, bits) && free == {}
      modifies this`freePages, this`free, bitmap
      ensures Valid() && forall p: nat :: p in free <==> IsUsable(descs, p)
    {
      var i := 0;
      while i < |descs|
        invariant 0 <= i <= |descs|
        invariant Valid() && forall p: nat :: p in free <==> IsUsable(descs[..i], p)
      {
        var d := descs[i];
        forall p: nat ensures IsUsable(descs[..i + 1], p) <==> IsUsable(descs[..i], p) || Covers(d, p) {
          UsableOneMore(descs, i, p);
        }
        if Usable(d) {
          forall p: nat | Covers(d, p) ensures p !in free { UsableOnce(descs, i, p); }
          assert EndsBy(descs[i], bits);
          ClearSpan(d);
        }
        i := i + 1;
      }
      assert descs[..i] == descs;
    }

    method ClearSpan(d: Descriptor)
      requires Valid() && Usable(d) && FirstPage(d) + d.pages <= bits && forall p: nat | Covers(d, p) :: p !in free
      modifies this`freePages, this`free, bitmap
      ensures Valid() && forall p: nat :: p in free <==> p in old(free) || Covers(d, p)
    {
      var first, n := FirstPage(d), 0;
      while n < d.pages
        invariant 0 <= n <= d.pages
        invariant Valid() && forall p: nat :: p in free <==> p in old(free) || (Covers(d, p) && p < first + n)
      {
        assert Covers(d, first + n);
        Unmark(first + n);
        n := n + 1;
      }
    }

    /**
     pmm_init(): fails exactly when no conventional region can hold the bitmap, and
     otherwise leaves free the usable pages outside the bitmap and page 0.
     */
    method Init(descs: seq<Descriptor>) returns (ok: bool, ghost host: nat)
      requires Tidy(descs)
      modifies this
      ensures IsTop(descs, bits)
      ensures !ok <==> forall i | 0 <= i < |descs| :: !CanHost(descs[i], bits)
      ensures ok ==> IsHost(descs, bits, host) && Valid() && hint == 1
      ensures ok ==> free == Granted(descs, bits, descs[host])
    {
      bits := FindTop(descs);
      var r := FindHost(descs, bits);
      host := r;
      ok := r < |descs|;
      if ok {
        Populate(descs, descs[r]);
      }
    }

    /** The second pass of pmm_init(): first fit of a conventional region for the bitmap. */
    method FindHost(descs: seq<Descriptor>, top: nat) returns (r: nat)
      ensures r <= |descs| && (forall i | 0 <= i < r :: !CanHost(descs[i], top))
      ensures r < |descs| ==> CanHost(descs[r], top)
    {
      r := 0;
      while r < |descs| && !CanHost(descs[r], top)
        invariant 0 <= r <= |descs| && forall i | 0 <= i < r :: !CanHost(descs[i], top)
      {
        r := r + 1;
      }
    }

    method Populate(descs: seq<Descriptor>, host: Descriptor)
      requires Tidy(descs) && IsTop(descs, bits)
      modifies this`bitmap, this`freePages, this`free, this`hint
      ensures Valid() && hint == 1 && free == Granted(descs, bits, host) && fresh(bitmap)
    {
      BlankBitmap();
      ClearUsable(descs);
      WithholdPages(FirstPage(host), FirstPage(host) + BitmapPages(bits));
      DropZero();
      hint := 1;
      IsGrant(descs, bits, host, free);
    }

    method BlankBitmap()
      modifies this`bitmap, this`freePages, this`free
      ensures Valid() && free == {} && fresh(bitmap)
    {
      bitmap := new bv8[BitmapBytes(bits)](_ => 0xFF);
      freePages, free := 0, {};
      AllUsed(bitmap[..], bits);
    }

    /** Page 0 is never handed out: its address is the failure value. */
    method DropZero()
      requires Valid()
      modifies this`freePages, this`free, bitmap
      ensures Valid() && View().free == old(View()).free - {0}
    {
      if bits > 0 {
        var used := Test(0);
        if !used {
          Mark(0);
        }
      }
    }

    static lemma AllUsed(s: seq<bv8>, bits: nat)
      requires bits <= 8 * |s| && forall k | 0 <= k < |s| :: s[k] == 0xFF
      ensures Shows(s, bits, {})
    {
      forall p: nat | p < bits ensures Used(s, p) {
        FullByte(p % 8);
      }
    }

    static lemma FullByte(k: nat)
      requires k < 8
      ensures TestBit(0xFF, k)
    {
      if k == 0 { } else if k == 1 { } else if k == 2 { } else if k == 3 { }
      else if k == 4 { } else if k == 5 { } else if k == 6 { } else { assert k == 7; }
    }
  }

  // ---------------------------------------------------------------- what pmm_init() grants

  /** Page p lies in memory of type 3, 4 or 7. */
  ghost predicate InUsableMemory(descs: seq<Descriptor>, p: nat) {
    exists i | 0 <= i < |descs| :: HoldsPage(descs[i], p)
  }

  predicate HoldsPage(d: Descriptor, p: nat) {
    (d.kind == 3 || d.kind == 4 || d.kind == 7) && d.start <= 4096 * p < d.start + 4096 * d.pages
  }

  /** Page p has a byte of the bitmap in it: bit b is in byte b / 8 from the host's start on. */
  ghost predicate HasBitmapByte(host: Descriptor, bits: nat, p: nat) {
    exists b: nat | b < bits :: HoldsBit(host, b, p)
  }

  predicate HoldsBit(host: Descriptor, b: nat, p: nat) { (host.start + b / 8) / 4096 == p }

  lemma CoversMeans(d: Descriptor, p: nat)
    requires Usable(d) ==> d.start % 4096 == 0
    ensures Covers(d, p) <==> HoldsPage(d, p)
  {
  }

  lemma UsableMeans(descs: seq<Descriptor>, p: nat)
    requires Tidy(descs)
    ensures IsUsable(descs, p) <==> InUsableMemory(descs, p)
  {
    forall i | 0 <= i < |descs| ensures Covers(descs[i], p) <==> HoldsPage(descs[i], p) {
      CoversMeans(descs[i], p);
    }
  }

  lemma BitPage(start: nat, first: nat, k: nat)
    requires start == 4096 * first
    ensures (start + k) / 4096 == first + k / 4096
  {
  }

  lemma BitmapMeans(host: Descriptor, bits: nat, p: nat)
    requires host.start % 4096 == 0
    ensures UnderBitmap(host, bits, p) <==> HasBitmapByte(host, bits, p)
  {
    var first := FirstPage(host);
    if UnderBitmap(host, bits, p) {
      var b := 8 * 4096 * (p - first);
      BitPage(host.start, first, b / 8);
      FirstBit(bits, p - first);
      assert HoldsBit(host, b, p);
    }
    if HasBitmapByte(host, bits, p) {
      var b: nat :| b < bits && HoldsBit(host, b, p);
      BitPage(host.start, first, b / 8);
      LastBit(bits, b);
    }
  }

  lemma FirstBit(bits: nat, k: nat)
    requires k < BitmapPages(bits)
    ensures 8 * 4096 * k < bits && 8 * 4096 * k / 8 / 4096 == k
  {
    var n := BitmapBytes(bits);
    assert 4096 * k < n;
  }

  lemma LastBit(bits: nat, b: nat)
    requires b < bits
    ensures b / 8 / 4096 < BitmapPages(bits)
  {
    var n := BitmapBytes(bits);
    assert b / 8 < n;
  }

  /** The bitmap's home is the first descriptor of type 7 with room for the byte of its last bit. */
  lemma HostMeans(d: Descriptor, bits: nat)
    ensures CanHost(d, bits) <==> d.kind == 7 && (bits == 0 || (bits - 1) / 8 < 4096 * d.pages)
  {
  }

  /**
   pmm_init() leaves free exactly the pages other than page 0 that lie in memory of type 3, 4 or 7 and have no
   byte of the bitmap in them.
   */
  lemma GrantMeans(descs: seq<Descriptor>, bits: nat, host: nat, p: nat)
    requires Tidy(descs) && IsTop(descs, bits) && IsHost(descs, bits, host)
    ensures p in Granted(descs, bits, descs[host]) <==>
              p != 0 && InUsableMemory(descs, p) && !HasBitmapByte(descs[host], bits, p)
  {
    assert Usable(descs[host]);
    UsableMeans(descs, p);
    BitmapMeans(descs[host], bits, p);
    if IsUsable(descs, p) { UsableBelow(descs, bits, p); }
  }

  /**
   The pages pmm_init() grants start every run of PagePool well: with nothing held and
   nothing reserved, and page 0 and the bitmap's own pages are not among them.
   */
  lemma InitSettles(descs: seq<Descriptor>, bits: nat, host: nat)
    requires Tidy(descs) && IsTop(descs, bits) && IsHost(descs, bits, host)
    ensures var grant := Granted(descs, bits, descs[host]);
            && Settled(Books(Pool(bits, grant, 1), {}, {}), grant)
            && 0 !in grant
            && forall p | p in grant :: p < bits && IsUsable(descs, p) && !UnderBitmap(descs[host], bits, p)
  {
  }

  /**
   From pmm_init() on, over every run of allocations, frees of held pages and
   reservations, no page handed out is page 0, a page with a byte of the bitmap, outside the usable
   memory, or in somebody's hands already.
   */
  lemma HandedOutIsSafe(descs: seq<Descriptor>, bits: nat, host: nat, run: seq<Books>, calls: seq<Call>, j: nat)
    requires Tidy(descs) && IsTop(descs, bits) && IsHost(descs, bits, host)
    requires Runs(run, calls) && j < |calls|
    requires run[0] == Books(Pool(bits, Granted(descs, bits, descs[host]), 1), {}, {})
    ensures Served(run[j], calls[j]).Some? ==>
              var x := Served(run[j], calls[j]).value;
              x != 0 && InUsableMemory(descs, x) && !HasBitmapByte(descs[host], bits, x) && x !in run[j].held
  {
    InitSettles(descs, bits, host);
    AllocIsFresh(run, calls, Granted(descs, bits, descs[host]), j);
    if Served(run[j], calls[j]).Some? { GrantMeans(descs, bits, host, Served(run[j], calls[j]).value); }
  }
}
