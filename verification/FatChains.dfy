/**
 Cluster chains of a FAT16 file allocation table (kernel/src/fat16.c): walking,
 freeing and building them, with no disk involved.
 */
module FatChains {
  type u16 = x: int | 0 <= x < 0x1_0000

  const EOC_MIN := 0xFFF8
  const EOC_MARK: u16 := 0xFFFF
  const FREE_MARK: u16 := 0

  /** A cluster number the walking loops follow: `c >= 2 && c < FAT16_EOC_MIN`. */
  predicate Followed(c: int) {
    2 <= c < EOC_MIN
  }

  /** `cs` is the chain of clusters from `c` to an end-of-chain mark. */
  predicate IsChain(fat: seq<u16>, c: int, cs: seq<nat>)
    decreases |cs|
  {
    if cs == [] then c >= EOC_MIN
    else cs[0] == c && Followed(c) && c < |fat| && IsChain(fat, fat[c], cs[1..])
  }

  /** The clusters a walk from `c` visits; `steps` bounds walks that never end. */
  function Walk(fat: seq<u16>, c: int, steps: nat): seq<nat>
    decreases steps
  {
    if steps == 0 || !Followed(c) || c >= |fat| then []
    else [c] + Walk(fat, fat[c], steps - 1)
  }

  function Chain(fat: seq<u16>, c: int): seq<nat> {
    Walk(fat, c, |fat|)
  }

  /** Clusters alloc_cluster() may hand out. */
  function FreeClusters(fat: seq<u16>): set<nat> {
    set c: nat | 2 <= c < |fat| && fat[c] == FREE_MARK
  }

  function Members(cs: seq<nat>): set<nat> {
    set c | c in cs
  }

  predicate Distinct(cs: seq<nat>) {
    forall i, j | 0 <= i < j < |cs| :: cs[i] != cs[j]
  }

  predicate Usable(fat: seq<u16>, cs: seq<nat>) {
    forall i | 0 <= i < |cs| :: 2 <= cs[i] < |fat|
  }

  /** Two tables agree on the clusters of `cs`. */
  predicate Agree(fat: seq<u16>, fat': seq<u16>, cs: seq<nat>) {
    |fat'| == |fat| && forall i | 0 <= i < |cs| :: cs[i] < |fat| && fat'[cs[i]] == fat[cs[i]]
  }

  /** The table with every cluster of `cs` free. */
  function Freed(fat: seq<u16>, cs: seq<nat>): (r: seq<u16>)
    ensures |r| == |fat|
  {
    seq(|fat|, i requires 0 <= i < |fat| => if i in cs then FREE_MARK else fat[i])
  }

  /** The table with `cs` linked in order and ended by an end-of-chain mark. */
  function Linked(fat: seq<u16>, cs: seq<nat>): (r: seq<u16>)
    requires Usable(fat, cs) && |fat| <= EOC_MIN
    ensures |r| == |fat|
    decreases |cs|
  {
    if cs == [] then fat
    else
      var last := cs[|cs| - 1];
      var before := Linked(fat, cs[..|cs| - 1])[last := EOC_MARK];
      if |cs| == 1 then before else before[cs[|cs| - 2] := last]
  }

  // ---- Walking ----

  lemma {:induction false} ChainUnique(fat: seq<u16>, c: int, cs: seq<nat>, ds: seq<nat>)
    requires IsChain(fat, c, cs) && IsChain(fat, c, ds)
    ensures cs == ds
    decreases |cs|
  {
    if cs != [] && ds != [] {
      ChainUnique(fat, fat[c], cs[1..], ds[1..]);
      assert cs == [c] + cs[1..] && ds == [c] + ds[1..];
    }
  }

  lemma {:induction false} ChainSuffix(fat: seq<u16>, c: int, cs: seq<nat>, i: nat)
    requires IsChain(fat, c, cs) && i < |cs|
    ensures IsChain(fat, cs[i], cs[i..]) && Followed(cs[i]) && cs[i] < |fat| && fat[cs[i]] != FREE_MARK
    decreases |cs|
  {
    if i == 0 {
      assert cs[0..] == cs;
    } else {
      ChainSuffix(fat, fat[c], cs[1..], i - 1);
      assert cs[1..][i - 1..] == cs[i..];
    }
  }

  /** `cs` starts at `c`, every entry names the next cluster, and the last entry is 0xFFF8 or above. */
  predicate LinksUp(fat: seq<u16>, c: int, cs: seq<nat>) {
    && (forall i | 0 <= i < |cs| :: 2 <= cs[i] < 0xFFF8 && cs[i] < |fat|)
    && (if cs == [] then c >= 0xFFF8 else c == cs[0] && fat[cs[|cs| - 1]] >= 0xFFF8)
    && forall i | 0 <= i < |cs| - 1 :: fat[cs[i]] == cs[i + 1]
  }

  /** A chain is exactly that. */
  lemma {:induction false} ChainMeans(fat: seq<u16>, c: int, cs: seq<nat>)
    ensures IsChain(fat, c, cs) <==> LinksUp(fat, c, cs)
    decreases |cs|
  {
    if cs != [] {
      var rest := cs[1..];
      if cs[0] == c && Followed(c) && c < |fat| {
        ChainMeans(fat, fat[c], rest);
        assert rest != [] ==> rest[|rest| - 1] == cs[|cs| - 1] && rest[0] == cs[1];
        if LinksUp(fat, c, cs) {
          forall i | 0 <= i < |rest| ensures 2 <= rest[i] < 0xFFF8 && rest[i] < |fat| { assert rest[i] == cs[i + 1]; }
          forall i | 0 <= i < |rest| - 1 ensures fat[rest[i]] == rest[i + 1] { assert rest[i] == cs[i + 1]; }
        }
        if LinksUp(fat, fat[c], rest) {
          forall i | 0 <= i < |cs| ensures 2 <= cs[i] < 0xFFF8 && cs[i] < |fat| { assert i > 0 ==> cs[i] == rest[i - 1]; }
          forall i | 0 <= i < |cs| - 1 ensures fat[cs[i]] == cs[i + 1] { assert i > 0 ==> cs[i] == rest[i - 1]; }
        }
      }
    }
  }

  /** A chain that ends visits no cluster twice, stays inside the table, and contains no free cluster. */
  lemma ChainIsSound(fat: seq<u16>, c: int, cs: seq<nat>)
    requires IsChain(fat, c, cs)
    ensures Distinct(cs) && Usable(fat, cs) && forall x | x in cs :: fat[x] != FREE_MARK
  {
    forall i, j | 0 <= i < j < |cs| ensures cs[i] != cs[j] {
      ChainSuffix(fat, c, cs, i);
      ChainSuffix(fat, c, cs, j);
      if cs[i] == cs[j] { ChainUnique(fat, cs[i], cs[i..], cs[j..]); }
    }
    forall i | 0 <= i < |cs| ensures 2 <= cs[i] < |fat| && fat[cs[i]] != FREE_MARK {
      ChainSuffix(fat, c, cs, i);
    }
  }

  lemma {:induction false} MembersSize(cs: seq<nat>)
    requires Distinct(cs)
    ensures |Members(cs)| == |cs|
  {
    if cs != [] {
      var n := |cs| - 1;
      MembersSize(cs[..n]);
      assert Members(cs) == Members(cs[..n]) + {cs[n]};
    }
  }

  lemma {:induction false} BelowSize(xs: set<nat>, n: nat)
    requires forall x | x in xs :: x < n
    ensures |xs| <= n
  {
    if n == 0 {
      assert xs == {};
    } else {
      BelowSize(xs - {n - 1}, n - 1);
      if n - 1 in xs { assert xs == (xs - {n - 1}) + {n - 1}; } else { assert xs - {n - 1} == xs; }
    }
  }

  lemma {:induction false} WalkFollows(fat: seq<u16>, c: int, cs: seq<nat>, steps: nat)
    requires IsChain(fat, c, cs) && |cs| <= steps
    ensures Walk(fat, c, steps) == cs
    decreases |cs|
  {
    if cs != [] {
      WalkFollows(fat, fat[c], cs[1..], steps - 1);
      assert cs == [c] + cs[1..];
    }
  }

  /** The bounded walk finds every chain that ends. */
  lemma ChainIsWalked(fat: seq<u16>, c: int, cs: seq<nat>)
    requires IsChain(fat, c, cs)
    ensures Chain(fat, c) == cs
  {
    ChainIsSound(fat, c, cs);
    MembersSize(cs);
    BelowSize(Members(cs), |fat|);
    WalkFollows(fat, c, cs, |fat|);
  }

  /** A chain survives any change outside its own clusters. */
  lemma {:induction false} ChainKept(fat: seq<u16>, fat': seq<u16>, c: int, cs: seq<nat>)
    requires IsChain(fat, c, cs) && Agree(fat, fat', cs)
    ensures IsChain(fat', c, cs)
    decreases |cs|
  {
    if cs != [] {
      ChainKept(fat, fat', fat[c], cs[1..]);
    }
  }

  // ---- Building ----

  lemma {:induction false} LinkedValue(fat: seq<u16>, cs: seq<nat>)
    requires Usable(fat, cs) && Distinct(cs) && |fat| <= EOC_MIN
    ensures forall i | 0 <= i < |cs| :: Linked(fat, cs)[cs[i]] == if i + 1 < |cs| then cs[i + 1] else EOC_MARK
    ensures forall x | 0 <= x < |fat| && x !in cs :: Linked(fat, cs)[x] == fat[x]
    decreases |cs|
  {
    if cs != [] {
      var n := |cs| - 1;
      var front := cs[..n];
      LinkedValue(fat, front);
      var base, all := Linked(fat, front), Linked(fat, cs);
      forall i | 0 <= i < |cs| ensures all[cs[i]] == if i + 1 < |cs| then cs[i + 1] else EOC_MARK {
        if i < n - 1 {
          assert cs[i] != cs[n] && cs[i] != cs[n - 1] && front[i] == cs[i];
          assert all[cs[i]] == base[front[i]];
        }
      }
      forall x | 0 <= x < |fat| && x !in cs ensures all[x] == fat[x] {
        assert x !in front && x != cs[n] && (n > 0 ==> x != cs[n - 1]);
      }
    }
  }

  lemma {:induction false} LinkedSuffix(fat: seq<u16>, cs: seq<nat>, i: nat)
    requires Usable(fat, cs) && Distinct(cs) && |fat| <= EOC_MIN && i < |cs|
    ensures IsChain(Linked(fat, cs), cs[i], cs[i..])
    decreases |cs| - i
  {
    LinkedValue(fat, cs);
    assert cs[i] in cs;
    if i + 1 < |cs| {
      LinkedSuffix(fat, cs, i + 1);
      assert cs[i..][1..] == cs[i + 1..];
    } else {
      assert cs[i..] == [cs[i]];
    }
  }

  /** Linking distinct clusters gives exactly that chain: each entry names the next cluster, the last is 0xFFFF, and no other changes. */
  lemma LinkedIsChain(fat: seq<u16>, cs: seq<nat>)
    requires Usable(fat, cs) && Distinct(cs) && |fat| <= EOC_MIN && cs != []
    ensures IsChain(Linked(fat, cs), cs[0], cs)
    ensures forall i | 0 <= i < |cs| :: Linked(fat, cs)[cs[i]] == if i + 1 < |cs| then cs[i + 1] else 0xFFFF
    ensures forall x | 0 <= x < |fat| && x !in cs :: Linked(fat, cs)[x] == fat[x]
  {
    LinkedValue(fat, cs);
    LinkedSuffix(fat, cs, 0);
    assert cs[0..] == cs;
  }

  lemma FreedFree(fat: seq<u16>, cs: seq<nat>)
    requires Usable(fat, cs)
    ensures FreeClusters(Freed(fat, cs)) == FreeClusters(fat) + Members(cs)
  {
    forall c: nat ensures c in FreeClusters(Freed(fat, cs)) <==> c in FreeClusters(fat) + Members(cs) {
    }
  }

  lemma LinkedFree(fat: seq<u16>, cs: seq<nat>)
    requires Usable(fat, cs) && Distinct(cs) && |fat| <= EOC_MIN
    ensures FreeClusters(Linked(fat, cs)) == FreeClusters(fat) - Members(cs)
  {
    LinkedValue(fat, cs);
    forall i | 0 <= i < |cs| ensures Linked(fat, cs)[cs[i]] != FREE_MARK {
      if i + 1 < |cs| { assert 2 <= cs[i + 1]; }
    }
    forall c: nat ensures c in FreeClusters(Linked(fat, cs)) <==> c in FreeClusters(fat) - Members(cs) {
    }
  }

  /**
   Freeing an old chain and linking a new one made of clusters free by then: the free clusters are exactly what was
   free or in the old chain, less the new chain.  Nothing leaks and nothing is taken twice.
   */
  lemma FreeClustersBalance(fat: seq<u16>, old_: seq<nat>, new_: seq<nat>)
    requires Usable(fat, old_) && Distinct(old_) && |fat| <= EOC_MIN
    requires forall i | 0 <= i < |old_| :: fat[old_[i]] != FREE_MARK
    requires Usable(fat, new_) && Distinct(new_) && Members(new_) <= FreeClusters(Freed(fat, old_))
    ensures FreeClusters(Linked(Freed(fat, old_), new_)) == FreeClusters(fat) + Members(old_) - Members(new_)
    ensures |FreeClusters(Linked(Freed(fat, old_), new_))| == |FreeClusters(fat)| + |old_| - |new_|
  {
    FreedFree(fat, old_);
    LinkedFree(Freed(fat, old_), new_);
    MembersSize(old_);
    MembersSize(new_);
    assert FreeClusters(fat) !! Members(old_);
  }
}
