/** The linked headers of kernel/src/heap.c, kept in step with the block list of HeapBlocks. */
module HeapDriver {
  import opened Common
  import opened HeapBlocks

  /** The header in front of a block; `next` is the address of the next header, 0 for NULL. */
  datatype Header = Header(size: nat, free: bool, next: nat)

  function NextOf(bs: seq<Block>, i: nat): nat
    requires i < |bs|
  {
    if i + 1 == |bs| then 0 else Addr(bs, i + 1)
  }

  ghost predicate Linked(hdr: map<nat, Header>, bs: seq<Block>, i: nat)
    requires i < |bs|
  {
    Addr(bs, i) in hdr && hdr[Addr(bs, i)] == Header(bs[i].size, bs[i].free, NextOf(bs, i))
  }

  ghost predicate AllLinked(hdr: map<nat, Header>, bs: seq<Block>) {
    forall i | 0 <= i < |bs| :: Linked(hdr, bs, i)
  }

  // ---------------------------------------------------------------- addresses

  lemma AddrNext(bs: seq<Block>, i: nat)
    requires i < |bs|
    ensures Addr(bs, i + 1) == Addr(bs, i) + 24 + bs[i].size
  {
    assert bs[..i + 1] == bs[..i] + [bs[i]];
    ExtentSplit(bs[..i], [bs[i]]);
    One(bs[i], 0);
  }

  lemma {:induction false} AddrGrows(bs: seq<Block>, i: nat, j: nat)
    requires i < j <= |bs|
    ensures Addr(bs, i) + 24 + bs[i].size <= Addr(bs, j)
    decreases j
  {
    AddrNext(bs, j - 1);
    if i < j - 1 { AddrGrows(bs, i, j - 1); }
  }

  /** Lists that agree up to k agree on the address of block k. */
  lemma AddrSame(bs: seq<Block>, bs': seq<Block>, k: nat)
    requires k <= |bs| && k <= |bs'| && bs[..k] == bs'[..k]
    ensures Addr(bs', k) == Addr(bs, k)
  {
  }

  /** Lists that agree in address at one point and block by block from there agree from there on. */
  lemma {:induction false} AddrShift(bs: seq<Block>, j: nat, bs': seq<Block>, j': nat, n: nat)
    requires j + n <= |bs| && j' + n <= |bs'| && Addr(bs, j) == Addr(bs', j')
    requires bs[j..j + n] == bs'[j'..j' + n]
    ensures Addr(bs', j' + n) == Addr(bs, j + n)
    decreases n
  {
    if n > 0 {
      var k := n - 1;
      assert bs[j..j + k] == bs[j..j + n][..k] && bs'[j'..j' + k] == bs'[j'..j' + n][..k];
      assert bs[j + k] == bs[j..j + n][k] && bs'[j' + k] == bs'[j'..j' + n][k];
      AddrShift(bs, j, bs', j', k);
      AddrNext(bs, j + k);
      AddrNext(bs', j' + k);
    }
  }

  // ---------------------------------------------------------------- splitting

  /** split_block() followed by clearing the free flag, on the headers. */
  function TakeHeaders(hdr: map<nat, Header>, b: nat, s: nat): map<nat, Header>
    requires b in hdr && hdr[b].size >= s
  {
    var h := hdr[b];
    if h.size < s + 24 + 16 then hdr[b := Header(h.size, false, h.next)]
    else hdr[b + 24 + s := Header(h.size - s - 24, true, h.next)][b := Header(s, false, b + 24 + s)]
  }

  lemma TakeUnsplit(hdr: map<nat, Header>, bs: seq<Block>, i: nat, s: nat, k: nat)
    requires AllLinked(hdr, bs) && i < |bs| && Fits(bs[i], s) && !Splits(bs[i], s) && k < |bs|
    ensures Addr(bs, i) in hdr && hdr[Addr(bs, i)].size == bs[i].size
    ensures Linked(TakeHeaders(hdr, Addr(bs, i), s), Carve(bs, i, s), k)
  {
    var bs' := Carve(bs, i, s);
    assert Linked(hdr, bs, i) && Linked(hdr, bs, k);
    UnsplitAddr(bs, i, s, k);
    if k + 1 < |bs| { UnsplitAddr(bs, i, s, k + 1); }
    if k < i { AddrGrows(bs, k, i); }
    if i < k { AddrGrows(bs, i, k); }
  }

  lemma {:induction false} UnsplitAddr(bs: seq<Block>, i: nat, s: nat, k: nat)
    requires i < |bs| && Fits(bs[i], s) && !Splits(bs[i], s) && k <= |bs|
    ensures Addr(Carve(bs, i, s), k) == Addr(bs, k)
    decreases k
  {
    if k > 0 {
      UnsplitAddr(bs, i, s, k - 1);
      AddrNext(bs, k - 1);
      AddrNext(Carve(bs, i, s), k - 1);
    }
  }

  lemma SplitAddr(bs: seq<Block>, i: nat, s: nat, k: nat)
    requires i < |bs| && Fits(bs[i], s) && Splits(bs[i], s) && k <= |bs| + 1
    ensures |Carve(bs, i, s)| == |bs| + 1
    ensures Addr(Carve(bs, i, s), k)
            == if k <= i then Addr(bs, k) else if k == i + 1 then Addr(bs, i) + 24 + s else Addr(bs, k - 1)
  {
    var bs' := Carve(bs, i, s);
    AddrSame(bs, bs', if k <= i then k else i);
    if k > i {
      AddrNext(bs', i);
      if k > i + 1 {
        AddrNext(bs', i + 1);
        AddrNext(bs, i);
        assert bs[i + 1..i + 1 + (k - i - 2)] == bs'[i + 2..i + 2 + (k - i - 2)];
        AddrShift(bs, i + 1, bs', i + 2, k - i - 2);
      }
    }
  }

  lemma TakeSplit(hdr: map<nat, Header>, bs: seq<Block>, i: nat, s: nat, k: nat)
    requires AllLinked(hdr, bs) && i < |bs| && Fits(bs[i], s) && Splits(bs[i], s) && k < |bs| + 1
    ensures Addr(bs, i) in hdr && hdr[Addr(bs, i)].size == bs[i].size && |Carve(bs, i, s)| == |bs| + 1
    ensures Linked(TakeHeaders(hdr, Addr(bs, i), s), Carve(bs, i, s), k)
  {
    assert Linked(hdr, bs, i);
    SplitAddr(bs, i, s, k);
    if k <= |bs| - 1 || k + 1 <= |bs| { SplitAddr(bs, i, s, k + 1); }
    if k < i {
      assert Linked(hdr, bs, k);
      AddrGrows(bs, k, i);
    } else if k > i + 1 {
      assert Linked(hdr, bs, k - 1);
      AddrGrows(bs, i, k - 1);
    }
  }

  lemma TakeKeeps(hdr: map<nat, Header>, bs: seq<Block>, i: nat, s: nat)
    requires AllLinked(hdr, bs) && i < |bs| && Fits(bs[i], s)
    ensures Addr(bs, i) in hdr && hdr[Addr(bs, i)].size == bs[i].size
    ensures AllLinked(TakeHeaders(hdr, Addr(bs, i), s), Carve(bs, i, s))
  {
    assert Linked(hdr, bs, i);
    var bs' := Carve(bs, i, s);
    forall k | 0 <= k < |bs'| ensures Linked(TakeHeaders(hdr, Addr(bs, i), s), bs', k) {
      if Splits(bs[i], s) { TakeSplit(hdr, bs, i, s, k); } else { TakeUnsplit(hdr, bs, i, s, k); }
    }
  }

  // ---------------------------------------------------------------- freeing

  /** kfree() on the headers. */
  function FreeHeaders(hdr: map<nat, Header>, b: nat): map<nat, Header>
    requires b in hdr && (hdr[b].next != 0 ==> hdr[b].next in hdr)
  {
    var h := hdr[b];
    if h.next != 0 && hdr[h.next].free
    then hdr[b := Header(h.size + 24 + hdr[h.next].size, true, hdr[h.next].next)]
    else hdr[b := Header(h.size, true, h.next)]
  }

  lemma ReleaseAddr(bs: seq<Block>, i: nat, k: nat)
    requires i < |bs| && k <= |Release(bs, i)|
    ensures Addr(Release(bs, i), k) == if k <= i || |Release(bs, i)| == |bs| then Addr(bs, k) else Addr(bs, k + 1)
  {
    var bs' := Release(bs, i);
    AddrSame(bs, bs', if k <= i then k else i);
    if k > i {
      var d := |bs| - |bs'|;
      AddrNext(bs', i);
      AddrNext(bs, i);
      if d == 1 { AddrNext(bs, i + 1); }
      var n := k - i - 1;
      var u, w := bs[i + 1 + d..i + 1 + d + n], bs'[i + 1..i + 1 + n];
      forall t | 0 <= t < n ensures u[t] == w[t] {
        assert bs[i + 1 + d + t] == bs'[i + 1 + t];
      }
      assert u == w;
      AddrShift(bs, i + 1 + d, bs', i + 1, n);
    }
  }

  lemma NextHeader(hdr: map<nat, Header>, bs: seq<Block>, i: nat)
    requires AllLinked(hdr, bs) && i < |bs|
    ensures Addr(bs, i) in hdr && (hdr[Addr(bs, i)].next != 0 <==> i + 1 < |bs|)
    ensures i + 1 < |bs| ==> hdr[Addr(bs, i)].next in hdr && hdr[hdr[Addr(bs, i)].next].free == bs[i + 1].free
  {
    assert Linked(hdr, bs, i);
    if i + 1 < |bs| { assert Linked(hdr, bs, i + 1); }
  }

  lemma FreeLinked(hdr: map<nat, Header>, bs: seq<Block>, i: nat, k: nat)
    requires AllLinked(hdr, bs) && i < |bs| && k < |Release(bs, i)|
    ensures Addr(bs, i) in hdr && (hdr[Addr(bs, i)].next != 0 ==> hdr[Addr(bs, i)].next in hdr)
    ensures Linked(FreeHeaders(hdr, Addr(bs, i)), Release(bs, i), k)
  {
    NextHeader(hdr, bs, i);
    var bs' := Release(bs, i);
    assert Linked(hdr, bs, i);
    if i + 1 < |bs| { assert Linked(hdr, bs, i + 1); }
    ReleaseAddr(bs, i, k);
    ReleaseAddr(bs, i, k + 1);
    if k < i {
      assert Linked(hdr, bs, k);
      AddrGrows(bs, k, i);
    } else if k > i {
      var j := k + (|bs| - |bs'|);
      assert Linked(hdr, bs, j);
      AddrGrows(bs, i, j);
    }
  }

  lemma FreeKeeps(hdr: map<nat, Header>, bs: seq<Block>, i: nat)
    requires AllLinked(hdr, bs) && i < |bs|
    ensures Addr(bs, i) in hdr && (hdr[Addr(bs, i)].next != 0 ==> hdr[Addr(bs, i)].next in hdr)
    ensures AllLinked(FreeHeaders(hdr, Addr(bs, i)), Release(bs, i))
  {
    NextHeader(hdr, bs, i);
    forall k | 0 <= k < |Release(bs, i)| ensures Linked(FreeHeaders(hdr, Addr(bs, i)), Release(bs, i), k) {
      FreeLinked(hdr, bs, i, k);
    }
  }

  class Heap {
    var head: nat
    var hdr: map<nat, Header>
    ghost var blocks: seq<Block>

    ghost predicate Valid()
      reads this
    {
      Tiles(blocks) && head == BASE && AllLinked(hdr, blocks)
    }

    /** heap_init() */
    constructor ()
      ensures Valid() && blocks == Initial()
    {
      head := BASE;
      hdr := map[BASE := Header(SIZE - 24, true, 0)];
      blocks := Initial();
      new;
      One(Initial()[0], 0);
      assert Initial()[..0] == [];
      assert Linked(hdr, blocks, 0);
    }

    /** kmalloc(): 0 is NULL, anything else the address behind the header of the block. */
    method Kmalloc(size: nat) returns (p: nat)
      requires Valid() && size < 0x1_0000_0000_0000_0000
      modifies this`hdr, this`blocks
      ensures Valid()
      ensures match Malloc(old(blocks), size)
              case None => p == 0 && blocks == old(blocks)
              case Some((bs, i)) => blocks == bs && p == Addr(bs, i) + 24
    {
      if size == 0 {
        return 0;
      }
      var s := (size + 15) % 0x1_0000_0000_0000_0000;
      s := s - s % 16;
      ghost var i;
      var b;
      b, i := FindFit(s);
      if b == 0 {
        return 0;
      }
      TakeKeeps(hdr, blocks, i, s);
      MallocKeeps(blocks, size);
      CarveParts(blocks, i, s);
      Take(b, s);
      blocks := Carve(blocks, i, s);
      return b + 24;
    }

    /** The walk over the headers: the first free block that is big enough, or 0. */
    method FindFit(s: nat) returns (b: nat, ghost i: nat)
      requires Valid()
      ensures i == FirstFit(blocks, s, 0) && b == if i < |blocks| then Addr(blocks, i) else 0
    {
      b, i := head, 0;
      assert blocks[..0] == [];
      while b != 0
        invariant 0 <= i <= |blocks| && b == (if i < |blocks| then Addr(blocks, i) else 0)
        invariant FirstFit(blocks, s, 0) == FirstFit(blocks, s, i)
        decreases |blocks| - i
      {
        assert Linked(hdr, blocks, i);
        if hdr[b].free && hdr[b].size >= s {
          return;
        }
        b := hdr[b].next;
        i := i + 1;
      }
    }

    /** split_block(), and the block marked as used. */
    method Take(b: nat, s: nat)
      requires b in hdr && hdr[b].size >= s
      modifies this`hdr
      ensures hdr == TakeHeaders(old(hdr), b, s)
    {
      var h := hdr[b];
      if h.size < s + 24 + 16 {
        hdr := hdr[b := Header(h.size, false, h.next)];
        return;
      }
      var remainder := b + 24 + s;
      hdr := hdr[remainder := Header(h.size - s - 24, true, h.next)];
      hdr := hdr[b := Header(s, false, remainder)];
    }

    /** kfree() of NULL or of the block with index i, which is in use. */
    method Kfree(p: nat, ghost i: nat)
      requires Valid()
      requires p != 0 ==> i < |blocks| && !blocks[i].free && p == Addr(blocks, i) + 24
      modifies this`hdr, this`blocks
      ensures Valid() && blocks == if p == 0 then old(blocks) else Release(old(blocks), i)
    {
      if p == 0 {
        return;
      }
      FreeKeeps(hdr, blocks, i);
      ReleaseKeeps(blocks, i);
      var b := p - 24;
      var h := hdr[b];
      if h.next != 0 && hdr[h.next].free {
        hdr := hdr[b := Header(h.size + 24 + hdr[h.next].size, true, hdr[h.next].next)];
      } else {
        hdr := hdr[b := Header(h.size, true, h.next)];
      }
      blocks := Release(blocks, i);
    }

    /** heap_free_bytes() */
    method HeapFreeBytes() returns (total: nat)
      requires Valid()
      ensures total == FreeBytes(blocks)
    {
      total := 0;
      var b := head;
      ghost var i := 0;
      assert blocks[..0] == [];
      while b != 0
        invariant 0 <= i <= |blocks| && b == (if i < |blocks| then Addr(blocks, i) else 0)
        invariant total == FreeBytes(blocks[..i])
        decreases |blocks| - i
      {
        assert Linked(hdr, blocks, i);
        assert blocks[..i + 1][..i] == blocks[..i];
        if hdr[b].free {
          total := total + hdr[b].size;
        }
        b := hdr[b].next;
        i := i + 1;
      }
      assert blocks[..i] == blocks;
    }
  }
}
