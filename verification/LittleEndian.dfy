/** Numbers in memory: least significant byte first. */
module LittleEndian {
  import opened Common

  /** The n little-endian bytes of x. */
  function Le(x: nat, n: nat): (r: seq<byte>)
    ensures |r| == n
  {
    if n == 0 then [] else [(x % 256) as byte] + Le(x / 256, n - 1)
  }

  /** The number little-endian bytes stand for. */
  function Value(bs: seq<byte>): nat {
    if bs == [] then 0 else bs[0] + 256 * Value(bs[1..])
  }

  predicate Fits(x: nat, n: nat) {
    if n == 0 then x == 0 else Fits(x / 256, n - 1)
  }

  lemma {:induction false} LeRoundTrip(x: nat, n: nat)
    requires Fits(x, n)
    ensures Value(Le(x, n)) == x
  {
    if n > 0 {
      LeRoundTrip(x / 256, n - 1);
      assert Le(x, n)[1..] == Le(x / 256, n - 1);
    }
  }

  lemma FitsMore(x: nat, n: nat)
    requires Fits(x / 256, n)
    ensures Fits(x, n + 1)
  {
  }

  lemma {:induction false} ZeroFits(n: nat)
    ensures Fits(0, n)
  {
    if n > 0 { ZeroFits(n - 1); }
  }

  /** 256 to the power n: one more than the largest number n bytes hold. */
  function Scale(n: nat): nat {
    if n == 0 then 1 else 256 * Scale(n - 1)
  }

  lemma {:induction false} SmallFits(x: nat, n: nat)
    requires x < Scale(n)
    ensures Fits(x, n)
  {
    if n > 0 { SmallFits(x / 256, n - 1); }
  }

  /** Bytes written for a number read back as that number. */
  lemma LeReads(x: nat, n: nat)
    requires x < Scale(n)
    ensures Value(Le(x, n)) == x
  {
    SmallFits(x, n);
    LeRoundTrip(x, n);
  }

  lemma {:induction false} ValueSplit(a: seq<byte>, b: seq<byte>)
    ensures Value(a + b) == Value(a) + Scale(|a|) * Value(b)
  {
    if a == [] {
      assert a + b == b;
    } else {
      assert (a + b)[1..] == a[1..] + b;
      ValueSplit(a[1..], b);
      Distribute(Scale(|a| - 1), Value(b));
    }
  }

  lemma Distribute(x: nat, y: nat)
    ensures 256 * (x * y) == (256 * x) * y
  {
  }

  // The numbers of two, four and eight bytes.

  lemma Value1(b: seq<byte>)
    requires |b| == 1
    ensures Value(b) == b[0] as int
  {
    assert Value(b[1..]) == 0;
  }

  lemma Value2(b: seq<byte>)
    requires |b| == 2
    ensures Value(b) == b[0] as int + 0x100 * b[1] as int
  {
    Value1(b[1..]);
  }

  lemma Value4(b: seq<byte>)
    requires |b| == 4
    ensures Value(b) == Value(b[..2]) + 0x1_0000 * Value(b[2..])
  {
    assert b == b[..2] + b[2..];
    ValueSplit(b[..2], b[2..]);
  }

  lemma Value8(b: seq<byte>)
    requires |b| == 8
    ensures Value(b) == Value(b[..4]) + 0x1_0000_0000 * Value(b[4..])
  {
    assert b == b[..4] + b[4..];
    ValueSplit(b[..4], b[4..]);
  }

  // Fields of a packed structure.

  lemma SliceOfSlice(b: seq<byte>, lo: nat, hi: nat, i: nat, j: nat)
    requires lo <= hi <= |b| && i <= j <= hi - lo
    ensures b[lo..hi][i..j] == b[lo + i..lo + j]
  {
    var part := b[lo..hi];
    forall k | 0 <= k < j - i ensures part[i..j][k] == b[lo + i..lo + j][k] {
      assert part[i + k] == b[lo + (i + k)];
    }
  }

  /** Where the part x of a structure stands, when the structure stands at o. */
  lemma PartAt(b: seq<byte>, o: nat, pre: seq<byte>, x: seq<byte>, post: seq<byte>)
    requires o + |pre| + |x| + |post| <= |b|
    requires b[o..o + |pre| + |x| + |post|] == pre + x + post
    ensures b[o + |pre|..o + |pre| + |x|] == x
  {
    var s := b[o..o + |pre| + |x| + |post|];
    assert s[|pre|..|pre| + |x|] == x;
    SliceOfSlice(b, o, o + |pre| + |x| + |post|, |pre|, |pre| + |x|);
  }
}
