/**
 The physical memory manager of kernel/src/pmm.c: a byte-packed bitmap with one bit
 per 4 KiB page (a set bit means "used"), a separate free counter, and a hint from
 which the next wrapping search starts. `Pool` is what the bitmap means; the class
 works on the bytes.
 */
module PagePool {
  import opened Common

  /** The abstract state: `bits` tracked pages, those free among them, and the search hint. */
  datatype Pool = Pool(bits: nat, free: set<nat>, hint: nat)

  ghost predicate Tracked(p: Pool) {
    forall x | x in p.free :: x < p.bits
  }

  /** The scan of pmm_alloc_page() from its i-th probe on. */
  function Probe(p: Pool, i: nat): (r: Option<nat>)
    ensures r.Some? ==> r.value in p.free && r.value < p.bits
    decreases p.bits - i
  {
    if i >= p.bits then None
    else if (p.hint + i) % p.bits in p.free then Some((p.hint + i) % p.bits)
    else Probe(p, i + 1)
  }

  /** The page pmm_alloc_page() hands out, or None when it returns NULL. */
  function Pick(p: Pool): (r: Option<nat>)
    ensures r.Some? ==> r.value in p.free && r.value < p.bits
  {
    Probe(p, 0)
  }

  function Take(p: Pool, x: nat): Pool {
    Pool(p.bits, p.free - {x}, x + 1)
  }

  /** How many probes the wrapping scan makes before it reaches page x. */
  function Probes(p: Pool, x: nat): nat
    requires x < p.bits
  {
    (x + p.bits - p.hint % p.bits) % p.bits
  }

  lemma ModAdd(a: nat, b: nat, n: nat)
    requires n > 0
    ensures (a + b) % n == (a % n + b) % n
  {
    assert a == n * (a / n) + a % n;
    ModShift(a % n + b, a / n, n);
  }

  lemma {:induction false} ModShift(x: nat, k: nat, n: nat)
    requires n > 0
    ensures (n * k + x) % n == x % n
    decreases k
  {
    if k > 0 {
      ModShift(x, k - 1, n);
      assert n * k + x == (n * (k - 1) + x) + n;
      ModDown(n * (k - 1) + x, n);
    }
  }

  lemma ModDown(x: nat, n: nat)
    requires n > 0
    ensures (x + n) % n == x % n
  {
    assert x == n * (x / n) + x % n;
    assert x + n == n * (x / n + 1) + x % n;
    DivUnique(x + n, x / n + 1, x % n, n);
  }

  lemma {:induction false} TimesMonotone(n: nat, a: nat, b: nat)
    requires a < b
    ensures n * a + n <= n * b
    decreases b
  {
    assert n * b == n * (b - 1) + n;
    if a < b - 1 { TimesMonotone(n, a, b - 1); }
  }

  lemma DivUnique(x: nat, q: nat, r: nat, n: nat)
    requires n > 0 && r < n && x == n * q + r
    ensures x % n == r
  {
    var q' := x / n;
    assert x == n * q' + x % n;
    if q < q' { TimesMonotone(n, q, q'); }
    if q' < q { TimesMonotone(n, q', q); }
  }

  /** Probe number Probes(p, x) is the one that looks at x. */
  lemma ProbeOf(p: Pool, x: nat)
    requires x < p.bits
    ensures (p.hint + Probes(p, x)) % p.bits == x
    ensures Probes(p, x) < p.bits
  {
    var h := p.hint % p.bits;
    var k := Probes(p, x);
    ModAdd(p.hint, k, p.bits);
    if x < h {
      SmallMod(x + p.bits - h, p.bits);
      ModDown(x, p.bits);
      SmallMod(x, p.bits);
    } else {
      ModDown(x - h, p.bits);
      SmallMod(x - h, p.bits);
      SmallMod(x, p.bits);
    }
  }

  lemma SmallMod(x: nat, n: nat)
    requires x < n
    ensures x % n == x
  {
  }

  lemma {:induction false} ProbeFinds(p: Pool, i: nat, x: nat)
    requires x in p.free && x < p.bits && i <= Probes(p, x)
    ensures Probe(p, i).Some?
    ensures Probes(p, Probe(p, i).value) <= Probes(p, x)
    decreases p.bits - i
  {
    ProbeOf(p, x);
    var y := (p.hint + i) % p.bits;
    if y in p.free {
      ProbeIndex(p, i);
    } else {
      ProbeFinds(p, i + 1, x);
    }
  }

  lemma ProbeIndex(p: Pool, i: nat)
    requires i < p.bits
    ensures Probes(p, (p.hint + i) % p.bits) == i
  {
    var h := p.hint % p.bits;
    ModAdd(p.hint, i, p.bits);
    if h + i < p.bits {
      SmallMod(h + i, p.bits);
      ModDown(i, p.bits);
      SmallMod(i, p.bits);
    } else {
      ModDown(h + i - p.bits, p.bits);
      SmallMod(h + i - p.bits, p.bits);
      SmallMod(i, p.bits);
    }
  }

  lemma ProbesIs(p: Pool, x: nat)
    requires x < p.bits
    ensures var h := p.hint % p.bits; Probes(p, x) == if x >= h then x - h else x + p.bits - h
  {
    var h := p.hint % p.bits;
    if x >= h {
      ModDown(x - h, p.bits);
      SmallMod(x - h, p.bits);
    } else {
      SmallMod(x + p.bits - h, p.bits);
    }
  }

  /** Page x is the lowest free page from the hint on or, when there is none from there on, the lowest of all. */
  ghost predicate Nearest(p: Pool, x: nat)
    requires p.bits > 0
  {
    var h := p.hint % p.bits;
    && x in p.free
    && (x >= h ==> forall y | y in p.free && y >= h :: x <= y)
    && (x < h ==> forall y | y in p.free :: x <= y < h)
  }

  /**
   The wrapping scan misses nothing, whatever the hint: it fails exactly when no page
   is free, and it returns the free page nearest after the hint.
   */
  lemma PickIsNearest(p: Pool)
    requires Tracked(p)
    ensures Pick(p).None? <==> p.free == {}
    ensures Pick(p).Some? ==> p.bits > 0 && Nearest(p, Pick(p).value)
  {
    forall x | x in p.free
      ensures Pick(p).Some? && Probes(p, Pick(p).value) <= Probes(p, x)
    {
      ProbeFinds(p, 0, x);
    }
    if Pick(p).Some? {
      ProbesIs(p, Pick(p).value);
      forall x | x in p.free
        ensures Probes(p, x) == if x >= p.hint % p.bits then x - p.hint % p.bits else x + p.bits - p.hint % p.bits
      {
        ProbesIs(p, x);
      }
    }
  }

  /** An allocation fails exactly when no page is free, and takes one page when it does not. */
  lemma TakesOne(p: Pool)
    requires Tracked(p)
    ensures Pick(p).None? <==> |p.free| == 0
    ensures Pick(p).Some? ==>
              var p' := Take(p, Pick(p).value);
              Tracked(p') && p'.bits == p.bits && |p'.free| == |p.free| - 1
  {
    PickIsNearest(p);
  }

  /** pmm_free_page() of a tracked, used page. */
  function Release(p: Pool, x: nat): Pool {
    p.(free := p.free + {x})
  }

  /** pmm_reserve_region() over the pages lo..hi. */
  function Withhold(p: Pool, lo: nat, hi: nat): Pool {
    p.(free := set x | x in p.free && !(lo <= x < hi))
  }

  // ---------------------------------------------------------------- whole runs

  /**
   What the callers hold: `held` are the pages handed out and not yet given back,
   `reserved` the pages withheld by pmm_reserve_region() while nobody held them.
   */
  datatype Books = Books(pool: Pool, held: set<nat>, reserved: set<nat>)

  datatype Call = AllocCall | FreeCall(page: nat) | ReserveCall(lo: nat, hi: nat)

  /** Callers free only what they hold; everything else is always allowed. */
  predicate Allowed(b: Books, c: Call) {
    c.FreeCall? ==> c.page in b.held
  }

  function Served(b: Books, c: Call): Option<nat> {
    if c.AllocCall? then Pick(b.pool) else None
  }

  function After(b: Books, c: Call): Books
    requires Allowed(b, c)
  {
    match c
    case AllocCall =>
      (match Pick(b.pool)
       case None => b
       case Some(x) => Books(Take(b.pool, x), b.held + {x}, b.reserved))
    case FreeCall(x) => Books(Release(b.pool, x), b.held - {x}, b.reserved)
    case ReserveCall(lo, hi) =>
      Books(Withhold(b.pool, lo, hi), b.held,
            b.reserved + set x | lo <= x < hi && x < b.pool.bits && x !in b.held)
  }

  /** The states of a run, from `b` through every call of `calls`. */
  ghost predicate Runs(run: seq<Books>, calls: seq<Call>) {
    && |run| == |calls| + 1
    && forall i | 0 <= i < |calls| :: RunStep(run, calls, i)
  }

  ghost predicate RunStep(run: seq<Books>, calls: seq<Call>, i: nat)
    requires |run| == |calls| + 1 && i < |calls|
  {
    Allowed(run[i], calls[i]) && run[i + 1] == After(run[i], calls[i])
  }

  /** `grant` are the pages pmm_init() left free. */
  ghost predicate Settled(b: Books, grant: set<nat>) {
    && Tracked(b.pool)
    && b.pool.free <= grant && b.held <= grant
    && b.pool.free !! b.held
    && b.reserved !! (b.pool.free + b.held)
  }

  lemma AfterSettled(b: Books, c: Call, grant: set<nat>)
    requires Settled(b, grant) && Allowed(b, c) && forall x | x in grant :: x < b.pool.bits
    ensures Settled(After(b, c), grant)
    ensures After(b, c).pool.bits == b.pool.bits && b.reserved <= After(b, c).reserved
  {
  }

  lemma {:induction false} RunSettled(run: seq<Books>, calls: seq<Call>, grant: set<nat>, i: nat)
    requires Runs(run, calls) && Settled(run[0], grant) && i < |run|
    requires forall x | x in grant :: x < run[0].pool.bits
    ensures Settled(run[i], grant) && run[i].pool.bits == run[0].pool.bits
  {
    if i > 0 {
      RunSettled(run, calls, grant, i - 1);
      assert RunStep(run, calls, i - 1);
      AfterSettled(run[i - 1], calls[i - 1], grant);
    }
  }

  lemma {:induction false} ReservedGrows(run: seq<Books>, calls: seq<Call>, i: nat, j: nat)
    requires Runs(run, calls) && i <= j < |run|
    ensures run[i].reserved <= run[j].reserved
    decreases j - i
  {
    if i < j {
      ReservedGrows(run, calls, i, j - 1);
      assert RunStep(run, calls, j - 1);
    }
  }

  /**
   Over every run of allocations, frees of held pages and reservations, a page handed
   out by call j is one pmm_init() granted, nobody holds it, and no earlier
   reservation (call i) of a page then unheld covers it.
   */
  lemma AllocIsFresh(run: seq<Books>, calls: seq<Call>, grant: set<nat>, j: nat)
    requires Runs(run, calls) && Settled(run[0], grant) && j < |calls|
    requires forall x | x in grant :: x < run[0].pool.bits
    ensures Served(run[j], calls[j]).Some? ==>
              var x := Served(run[j], calls[j]).value;
              && x in grant && x !in run[j].held && x in run[j + 1].held
              && forall i | 0 <= i <= j :: x !in run[i].reserved
    ensures calls[j].AllocCall? ==> (Served(run[j], calls[j]).None? <==> run[j].pool.free == {})
  {
    RunSettled(run, calls, grant, j);
    assert RunStep(run, calls, j);
    PickIsNearest(run[j].pool);
    forall i | 0 <= i <= j ensures run[i].reserved <= run[j].reserved {
      ReservedGrows(run, calls, i, j);
    }
  }
}
