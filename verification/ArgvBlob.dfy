/**
 The argument blob that write_argv_blob() of kernel/src/elf_loader.c packs into the top
 of a new process's stack page: the strings, padding to 8 bytes, the pointer array with
 its closing null, and padding to 16 bytes.
 */
module ArgvBlob {
  import opened Common
  import opened LittleEndian

  predicate AreCStrings(argv: seq<seq<byte>>) { forall i | 0 <= i < |argv| :: 0 !in argv[i] }

  // ---------------------------------------------------------------- 64-bit pointers in memory

  const WORD: nat := 8

  /** A pointer as the eight bytes x86 stores for it. */
  function Word(x: nat): (r: seq<byte>)
    ensures |r| == 8
  {
    Le(x, WORD)
  }

  lemma WordRoundTrip(x: nat)
    requires x <= STACK_TOP
    ensures Value(Word(x)) == x
  {
    var a := x / 256;
    var b := a / 256;
    var c := b / 256;
    var d := c / 256;
    assert d / 256 == 0;
    ZeroFits(WORD - 5);
    FitsMore(d, WORD - 5);
    FitsMore(c, WORD - 4);
    FitsMore(b, WORD - 3);
    FitsMore(a, WORD - 2);
    FitsMore(x, WORD - 1);
    LeRoundTrip(x, WORD);
  }

  lemma {:induction false} ZeroBytes(n: nat)
    ensures Le(0, n) == Zeros(n) && Value(Zeros(n)) == 0
  {
    if n > 0 {
      ZeroBytes(n - 1);
      assert Zeros(n)[1..] == Zeros(n - 1);
    }
  }

  lemma NullPointer()
    ensures Word(0) == Zeros(8) && Value(Zeros(8)) == 0
  {
    ZeroBytes(WORD);
  }

  // ---------------------------------------------------------------- the layout

  /** All strings with their terminators, one after another. */
  function Strings(argv: seq<seq<byte>>): seq<byte> {
    if argv == [] then [] else Strings(argv[..|argv| - 1]) + argv[|argv| - 1] + [0]
  }

  function Offset(argv: seq<seq<byte>>, i: nat): nat
    requires i <= |argv|
  {
    |Strings(argv[..i])|
  }

  /** The least multiple of 8 that is not below x, searched from the multiple y on. */
  function Up8(x: nat, y: nat): (r: nat)
    requires y % 8 == 0 && y < x + 8
    ensures r % 8 == 0 && x <= r < x + 8
    decreases x + 8 - y
  {
    if y >= x then y else Up8(x, y + 8)
  }

  function Up16(x: nat, y: nat): (r: nat)
    requires y % 16 == 0 && y < x + 16
    ensures r % 16 == 0 && x <= r < x + 16
    decreases x + 16 - y
  {
    if y >= x then y else Up16(x, y + 16)
  }

  lemma RoundsUp8(x: nat)
    ensures (x + 7) / 8 * 8 == Up8(x, 0)
  {
    var a := (x + 7) / 8;
    assert a * 8 == 8 * a && x <= 8 * a < x + 8;
  }

  lemma RoundsUp16(x: nat)
    ensures (x + 15) / 16 * 16 == Up16(x, 0)
  {
    var b := (x + 15) / 16;
    assert b * 16 == 16 * b && x <= 16 * b < x + 16;
  }

  /** The mask arithmetic of the source computes them. */
  lemma RoundsUp(x: nat)
    ensures (x + 7) / 8 * 8 == Up8(x, 0) && (x + 15) / 16 * 16 == Up16(x, 0)
  {
    RoundsUp8(x);
    RoundsUp16(x);
  }

  function StringArea(argv: seq<seq<byte>>): nat { Up8(|Strings(argv)|, 0) }

  function Unpadded(argv: seq<seq<byte>>): nat { StringArea(argv) + (|argv| + 1) * 8 }

  function BlobSize(argv: seq<seq<byte>>): nat { Up16(Unpadded(argv), 0) }

  /** The limits beyond which the loader panics. */
  predicate Accepted(argv: seq<seq<byte>>) { |argv| <= 16 && Unpadded(argv) <= 3072 }

  function Base(argv: seq<seq<byte>>): nat
    requires Accepted(argv)
  {
    STACK_TOP - BlobSize(argv)
  }

  function StackTop(argv: seq<seq<byte>>): nat
    requires Accepted(argv)
  {
    if argv == [] then STACK_TOP else Base(argv)
  }

  function ArgvPointer(argv: seq<seq<byte>>): nat
    requires Accepted(argv)
  {
    if argv == [] then 0 else Base(argv) + StringArea(argv)
  }

  function Pointers(argv: seq<seq<byte>>, n: nat): (r: seq<byte>)
    requires Accepted(argv) && n <= |argv|
    ensures |r| == 8 * n
  {
    if n == 0 then [] else Pointers(argv, n - 1) + Word(Base(argv) + Offset(argv, n - 1))
  }

  /** A page whose last `size` bytes hold the strings, padded to `area` bytes, and then the pointers. */
  function Assemble(size: nat, strings: seq<byte>, area: nat, pointers: seq<byte>): (r: seq<byte>)
    requires |strings| <= area && area + |pointers| <= size <= 4096
    ensures |r| == 4096
  {
    Zeros(4096 - size) + strings + Zeros(area - |strings|) + pointers + Zeros(size - area - |pointers|)
  }

  /** The top stack page after the first n strings and pointers are in place. */
  function PageAfter(argv: seq<seq<byte>>, n: nat): (r: seq<byte>)
    requires Accepted(argv) && n <= |argv|
    ensures |r| == 4096
  {
    OffsetBound(argv, n);
    Layout(argv);
    Assemble(BlobSize(argv), Strings(argv[..n]), StringArea(argv), Pointers(argv, n))
  }

  lemma {:induction false} OffsetBound(argv: seq<seq<byte>>, n: nat)
    requires n <= |argv|
    ensures Offset(argv, n) <= Offset(argv, |argv|) == |Strings(argv)| <= StringArea(argv)
    decreases |argv| - n
  {
    assert argv[..|argv|] == argv;
    if n < |argv| {
      OffsetBound(argv, n + 1);
      assert argv[..n + 1][..n] == argv[..n];
    }
  }

  lemma {:induction false} OffsetStep(argv: seq<seq<byte>>, i: nat, j: nat)
    requires i < j <= |argv|
    ensures Offset(argv, i) + |argv[i]| + 1 <= Offset(argv, j)
    decreases j
  {
    assert argv[..j][..j - 1] == argv[..j - 1];
    if i < j - 1 { OffsetStep(argv, i, j - 1); }
  }

  // ---------------------------------------------------------------- reading it back

  lemma {:induction false} PointerAt(argv: seq<seq<byte>>, n: nat, i: nat)
    requires Accepted(argv) && i < n <= |argv|
    ensures Pointers(argv, n)[8 * i..8 * i + 8] == Word(Base(argv) + Offset(argv, i))
  {
    if i < n - 1 {
      PointerAt(argv, n - 1, i);
      assert Pointers(argv, n)[8 * i..8 * i + 8] == Pointers(argv, n - 1)[8 * i..8 * i + 8];
    }
  }

  lemma {:induction false} StringAt(argv: seq<seq<byte>>, n: nat, i: nat)
    requires i < n <= |argv|
    ensures Offset(argv, i) + |argv[i]| + 1 <= Offset(argv, n)
    ensures Strings(argv[..n])[Offset(argv, i)..Offset(argv, i) + |argv[i]| + 1] == argv[i] + [0]
  {
    assert argv[..n][..n - 1] == argv[..n - 1];
    OffsetStep(argv, i, n);
    var o := Offset(argv, i);
    if i < n - 1 {
      StringAt(argv, n - 1, i);
      assert Strings(argv[..n])[o..o + |argv[i]| + 1] == Strings(argv[..n - 1])[o..o + |argv[i]| + 1];
    }
  }

  /** The C string that starts at offset o of a page. */
  function ReadString(page: seq<byte>, o: nat): seq<byte>
    decreases |page| - o
  {
    if o >= |page| || page[o] == 0 then [] else [page[o]] + ReadString(page, o + 1)
  }

  lemma {:induction false} ReadsString(page: seq<byte>, o: nat, s: seq<byte>)
    requires o + |s| + 1 <= |page| && page[o..o + |s| + 1] == s + [0] && 0 !in s
    ensures ReadString(page, o) == s
    decreases |s|
  {
    assert page[o] == page[o..o + |s| + 1][0] == (s + [0])[0];
    if s != [] {
      var t := page[o..o + |s| + 1];
      assert page[o + 1..o + 1 + |s[1..]| + 1] == t[1..] == s[1..] + [0];
      ReadsString(page, o + 1, s[1..]);
      assert s == [s[0]] + s[1..];
    }
  }

  /** The eight bytes at virtual address v of the page are the pointer x (see WordRoundTrip). */
  predicate Holds(page: seq<byte>, v: nat, x: nat) {
    |page| == 4096 && STACK_PAGE <= v && v + 8 <= STACK_TOP && page[v - STACK_PAGE..v - STACK_PAGE + 8] == Word(x)
  }

  lemma Layout(argv: seq<seq<byte>>)
    requires Accepted(argv)
    ensures |Strings(argv)| <= StringArea(argv) && StringArea(argv) + 8 * (|argv| + 1) <= BlobSize(argv) <= 3072
    ensures StringArea(argv) % 8 == 0 && BlobSize(argv) % 16 == 0
  {
    assert 3072 % 16 == 0;
  }

  /** Where the parts of an assembled page lie. */
  lemma Parts(size: nat, strings: seq<byte>, area: nat, pointers: seq<byte>)
    requires |strings| <= area && area + |pointers| + 8 <= size <= 4096
    ensures var page, o := Assemble(size, strings, area, pointers), 4096 - size;
            && page[o..o + |strings|] == strings
            && page[o + area..o + area + |pointers|] == pointers
            && page[o + area + |pointers|..o + area + |pointers| + 8] == Zeros(8)
  {
    FiveParts(Zeros(4096 - size), strings, Zeros(area - |strings|), pointers, Zeros(size - area - |pointers|));
    var page, o := Assemble(size, strings, area, pointers), 4096 - size;
    assert page[o + area + |pointers|..][..8] == Zeros(8);
  }

  lemma FiveParts(a: seq<byte>, b: seq<byte>, c: seq<byte>, d: seq<byte>, e: seq<byte>)
    ensures (a + b + c + d + e)[|a|..|a| + |b|] == b
    ensures (a + b + c + d + e)[|a| + |b| + |c|..|a| + |b| + |c| + |d|] == d
    ensures (a + b + c + d + e)[|a| + |b| + |c| + |d|..] == e
  {
  }

  lemma SubSlice(page: seq<byte>, o: nat, part: seq<byte>, i: nat, n: nat)
    requires o + |part| <= |page| && page[o..o + |part|] == part && i + n <= |part|
    ensures page[o + i..o + i + n] == part[i..i + n]
  {
    var l, r := page[o + i..o + i + n], part[i..i + n];
    forall k | 0 <= k < n ensures l[k] == r[k] {
      assert l[k] == page[o + i + k] && r[k] == part[i + k];
      assert page[o..o + |part|][i + k] == page[o + i + k];
    }
  }

  /** Pointer i of a page that holds the pointer array at offset o. */
  lemma ReadOnePointer(argv: seq<seq<byte>>, i: nat, page: seq<byte>, o: nat, part: seq<byte>)
    requires Accepted(argv) && i < |argv| && part == Pointers(argv, |argv|)
    requires o + |part| <= |page| == 4096 && page[o..o + |part|] == part
    ensures Holds(page, STACK_PAGE + o + 8 * i, Base(argv) + Offset(argv, i))
  {
    PointerAt(argv, |argv|, i);
    SubSlice(page, o, part, 8 * i, 8);
  }

  /** String i of a page that holds the string area at offset o. */
  lemma ReadOneString(argv: seq<seq<byte>>, i: nat, page: seq<byte>, o: nat)
    requires i < |argv| && 0 !in argv[i]
    requires o + |Strings(argv)| <= |page| && page[o..o + |Strings(argv)|] == Strings(argv)
    ensures Offset(argv, i) + |argv[i]| + 1 <= |Strings(argv)|
    ensures ReadString(page, o + Offset(argv, i)) == argv[i]
    ensures page[o + Offset(argv, i)..o + Offset(argv, i) + |argv[i]| + 1] == argv[i] + [0]
  {
    assert argv[..|argv|] == argv;
    StringAt(argv, |argv|, i);
    var k := Offset(argv, i);
    SubSlice(page, o, Strings(argv), k, |argv[i]| + 1);
    ReadsString(page, o + k, argv[i]);
  }

  /** A page that holds the strings at offset o, the pointers at o + area, and a null pointer behind them. */
  ghost predicate IsBlob(argv: seq<seq<byte>>, page: seq<byte>, o: nat, area: nat)
    requires Accepted(argv)
  {
    && |Strings(argv)| <= area && o + area + 8 * |argv| + 8 <= 4096 == |page|
    && page[o..o + |Strings(argv)|] == Strings(argv)
    && page[o + area..o + area + 8 * |argv|] == Pointers(argv, |argv|)
    && page[o + area + 8 * |argv|..o + area + 8 * |argv| + 8] == Zeros(8)
    && Base(argv) == STACK_PAGE + o
  }

  lemma PageShape(argv: seq<seq<byte>>)
    requires Accepted(argv)
    ensures BlobSize(argv) <= 4096
    ensures IsBlob(argv, PageAfter(argv, |argv|), 4096 - BlobSize(argv), StringArea(argv))
  {
    Layout(argv);
    OffsetBound(argv, |argv|);
    assert argv[..|argv|] == argv;
    Parts(BlobSize(argv), Strings(argv), StringArea(argv), Pointers(argv, |argv|));
  }

  /** The C string s stands at virtual address v of the page, with its terminator. */
  ghost predicate HasString(page: seq<byte>, v: nat, s: seq<byte>) {
    && |page| == 4096 && STACK_PAGE <= v && v + |s| + 1 <= STACK_TOP
    && page[v - STACK_PAGE..v - STACK_PAGE + |s| + 1] == s + [0] && ReadString(page, v - STACK_PAGE) == s
  }

  /** The i-th entry of the array is the address of the i-th string, and the array ends with a null pointer. */
  lemma ArrayReadsBack(argv: seq<seq<byte>>, i: nat, page: seq<byte>, o: nat, area: nat)
    requires Accepted(argv) && i < |argv| && IsBlob(argv, page, o, area)
    ensures Holds(page, Base(argv) + area + 8 * i, Base(argv) + Offset(argv, i))
    ensures Holds(page, Base(argv) + area + 8 * |argv|, 0)
  {
    ReadOnePointer(argv, i, page, o + area, Pointers(argv, |argv|));
    NullPointer();
  }

  /** What that address leads to is exactly the caller's string. */
  lemma StringReadsBack(argv: seq<seq<byte>>, i: nat, page: seq<byte>, o: nat, area: nat)
    requires Accepted(argv) && AreCStrings(argv) && i < |argv| && IsBlob(argv, page, o, area)
    ensures HasString(page, Base(argv) + Offset(argv, i), argv[i])
    ensures Offset(argv, i) + |argv[i]| + 1 <= area
  {
    assert 0 !in argv[i];
    ReadOneString(argv, i, page, o);
  }

  /** Entry i of the array points at the i-th string, below the array, and the entry after the last is null. */
  ghost predicate ReadsBack(argv: seq<seq<byte>>, page: seq<byte>, i: nat)
    requires Accepted(argv) && i < |argv|
  {
    var s := StackTop(argv) + Offset(argv, i);
    && Holds(page, ArgvPointer(argv) + 8 * i, s) && HasString(page, s, argv[i])
    && s + |argv[i]| + 1 <= ArgvPointer(argv)
    && Holds(page, ArgvPointer(argv) + 8 * |argv|, 0)
  }

  /** The finished page reads back as exactly the caller's strings. */
  lemma ReadBack(argv: seq<seq<byte>>, i: nat)
    requires Accepted(argv) && AreCStrings(argv) && i < |argv|
    ensures ReadsBack(argv, PageAfter(argv, |argv|), i)
  {
    PageShape(argv);
    BlobReadsBack(argv, i, PageAfter(argv, |argv|), 4096 - BlobSize(argv), StringArea(argv));
  }

  lemma BlobReadsBack(argv: seq<seq<byte>>, i: nat, page: seq<byte>, o: nat, area: nat)
    requires Accepted(argv) && AreCStrings(argv) && i < |argv| && IsBlob(argv, page, o, area)
    requires area == StringArea(argv)
    ensures ReadsBack(argv, page, i)
  {
    ArrayReadsBack(argv, i, page, o, area);
    StringReadsBack(argv, i, page, o, area);
  }

  lemma SliceAt(page: seq<byte>, o: nat, part: seq<byte>, k: nat)
    requires o + |part| <= |page| && page[o..o + |part|] == part && k < |part|
    ensures page[o + k] == part[k]
  {
  }

  /** The same, byte by byte. */
  lemma PointerByte(page: seq<byte>, v: nat, x: nat, k: nat)
    requires Holds(page, v, x) && k < 8
    ensures STACK_PAGE <= v + k < STACK_TOP && page[v + k - STACK_PAGE] == Word(x)[k]
  {
    SliceAt(page, v - STACK_PAGE, Word(x), k);
  }

  lemma StringByte(page: seq<byte>, v: nat, s: seq<byte>, k: nat)
    requires HasString(page, v, s) && k <= |s|
    ensures STACK_PAGE <= v + k < STACK_TOP && page[v + k - STACK_PAGE] == (s + [0])[k]
  {
    SliceAt(page, v - STACK_PAGE, s + [0], k);
  }

  lemma Multiples(size: nat, area: nat)
    requires size % 16 == 0 && area % 8 == 0 && size <= 3072
    ensures (0x8010000000 - size) % 16 == 0 && (0x8010000000 - size + area) % 8 == 0
  {
  }

  /**
   The stack stays 16-byte aligned and the pointer array 8-byte aligned, inside the page, and
   no byte more than that takes is lost: the strings start at the stack top, the array is the first
   multiple of 8 after them, and its end is less than 16 bytes below ELF_USER_STACK_TOP.
   */
  lemma Aligned(argv: seq<seq<byte>>)
    requires Accepted(argv)
    ensures StackTop(argv) % 16 == 0 && ArgvPointer(argv) % 8 == 0
    ensures argv == [] ==> StackTop(argv) == 0x80_1000_0000 && ArgvPointer(argv) == 0
    ensures argv != [] ==>
              && 0x80_0FFF_F000 < StackTop(argv) && Offset(argv, 0) == 0
              && ArgvPointer(argv) - 8 < StackTop(argv) + |Strings(argv)| <= ArgvPointer(argv)
              && 0x80_1000_0000 - 16 < ArgvPointer(argv) + 8 * (|argv| + 1) <= 0x80_1000_0000
  {
    if argv != [] {
      Layout(argv);
      Multiples(BlobSize(argv), StringArea(argv));
    }
  }

  /** Every string lies between the new stack top and the pointer array. */
  lemma StringsInPlace(argv: seq<seq<byte>>, i: nat)
    requires Accepted(argv) && i < |argv|
    ensures StackTop(argv) + Offset(argv, i) + |argv[i]| + 1 <= ArgvPointer(argv)
  {
    Layout(argv);
    OffsetStep(argv, i, |argv|);
    OffsetBound(argv, |argv|);
  }

  /** Each string starts right after the terminator of the one before. */
  lemma StringsAdjoin(argv: seq<seq<byte>>, i: nat)
    requires i < |argv|
    ensures Offset(argv, i + 1) == Offset(argv, i) + |argv[i]| + 1
  {
    assert argv[..i + 1][..i] == argv[..i];
  }

  /** The loader takes at most 16 arguments whose strings, rounded up to 8, and pointers fill at most 3072 bytes. */
  lemma AcceptedWhen(argv: seq<seq<byte>>)
    ensures Accepted(argv) <==> |argv| <= 16 && (|Strings(argv)| + 7) / 8 * 8 + 8 * (|argv| + 1) <= 3072
  {
    RoundsUp8(|Strings(argv)|);
  }

  lemma StringsApart(argv: seq<seq<byte>>, i: nat, j: nat)
    requires Accepted(argv) && i < j < |argv|
    ensures StackTop(argv) + Offset(argv, i) + |argv[i]| + 1 <= StackTop(argv) + Offset(argv, j)
  {
    OffsetStep(argv, i, j);
  }

  // ---------------------------------------------------------------- write_argv_blob()

  lemma FillZeros(a: seq<byte>, n: nat, b: seq<byte>, x: seq<byte>)
    requires |x| <= n
    ensures Splice(a + Zeros(n) + b, |a|, x) == a + x + Zeros(n - |x|) + b
  {
  }

  /** Copying one more string behind the strings. */
  lemma AddString(size: nat, strings: seq<byte>, area: nat, pointers: seq<byte>, s: seq<byte>)
    requires |strings| + |s| <= area && area + |pointers| <= size <= 4096
    ensures Splice(Assemble(size, strings, area, pointers), 4096 - size + |strings|, s)
            == Assemble(size, strings + s, area, pointers)
  {
    var a, z, rest := Zeros(4096 - size) + strings, area - |strings|, pointers + Zeros(size - area - |pointers|);
    FillZeros(a, z, rest, s);
    assert Assemble(size, strings, area, pointers) == a + Zeros(z) + rest;
    assert Assemble(size, strings + s, area, pointers) == a + s + Zeros(z - |s|) + rest;
  }

  /** Copying one more pointer behind the pointers. */
  lemma AddPointer(size: nat, strings: seq<byte>, area: nat, pointers: seq<byte>, p: seq<byte>)
    requires |strings| <= area && area + |pointers| + |p| <= size <= 4096
    ensures Splice(Assemble(size, strings, area, pointers), 4096 - size + area + |pointers|, p)
            == Assemble(size, strings, area, pointers + p)
  {
    var a, z := Zeros(4096 - size) + strings + Zeros(area - |strings|) + pointers, size - area - |pointers|;
    FillZeros(a, z, [], p);
    assert Assemble(size, strings, area, pointers) == a + Zeros(z) + [];
    assert Assemble(size, strings, area, pointers + p) == a + p + Zeros(z - |p|) + [];
  }

  ghost predicate Assembled(page: seq<byte>, size: nat, strings: seq<byte>, area: nat, pointers: seq<byte>) {
    |strings| <= area && area + |pointers| <= size <= 4096 && page == Assemble(size, strings, area, pointers)
  }

  lemma NextBounds(argv: seq<seq<byte>>, n: nat)
    requires Accepted(argv) && n < |argv|
    ensures var o := 4096 - BlobSize(argv);
            o + Offset(argv, n) + |argv[n]| + 1 <= 4096 && o + StringArea(argv) + 8 * n + 8 <= 4096
    ensures Strings(argv[..n + 1]) == Strings(argv[..n]) + (argv[n] + [0])
    ensures Offset(argv, n + 1) == Offset(argv, n) + |argv[n]| + 1 <= StringArea(argv)
    ensures StringArea(argv) + 8 * (n + 1) <= BlobSize(argv)
  {
    Layout(argv);
    OffsetBound(argv, n + 1);
    assert argv[..n + 1][..n] == argv[..n];
  }

  /** The total of the first loop: the bytes all strings take with their terminators. */
  method TotalBytes(argv: seq<seq<byte>>) returns (total: nat)
    ensures total == |Strings(argv)|
  {
    total := 0;
    var i := 0;
    while i < |argv|
      invariant 0 <= i <= |argv| && total == Offset(argv, i)
    {
      assert argv[..i + 1][..i] == argv[..i];
      total := total + |argv[i]| + 1;
      i := i + 1;
    }
    assert argv[..i] == argv;
  }

  /** One round of the copying loop: a string and the pointer to it. */
  method PutArgument(page: array<byte>, ghost size: nat, ghost strings: seq<byte>, ghost area: nat, ghost pointers: seq<byte>,
                     s: seq<byte>, o: nat, p: seq<byte>, q: nat)
    requires page.Length == 4096 && Assembled(page[..], size, strings, area, pointers)
    requires |strings| + |s| <= area && area + |pointers| + |p| <= size
    requires o == 4096 - size + |strings| && q == 4096 - size + area + |pointers|
    modifies page
    ensures Assembled(page[..], size, strings + s, area, pointers + p)
  {
    Copy(page, o, s);
    AddString(size, strings, area, pointers, s);
    Copy(page, q, p);
    AddPointer(size, strings + s, area, pointers, p);
  }

  lemma PageStarts(argv: seq<seq<byte>>)
    requires Accepted(argv)
    ensures Assembled(Zeros(4096), BlobSize(argv), Strings(argv[..0]), StringArea(argv), Pointers(argv, 0))
  {
    Layout(argv);
    OffsetBound(argv, 0);
    assert argv[..0] == [];
  }

  lemma PageEnds(argv: seq<seq<byte>>, page: seq<byte>)
    requires Accepted(argv)
    ensures Assembled(page, BlobSize(argv), Strings(argv[..|argv|]), StringArea(argv), Pointers(argv, |argv|)) ==>
              page == PageAfter(argv, |argv|)
  {
  }

  /** The copying loop of write_argv_blob(), and the closing null pointer. */
  method FillBlob(page: array<byte>, argv: seq<seq<byte>>, base: nat, size: nat, area: nat)
    requires page.Length == 4096 && page[..] == Zeros(4096) && Accepted(argv)
    requires base == Base(argv) && size == BlobSize(argv) && area == StringArea(argv)
    modifies page
    ensures page[..] == PageAfter(argv, |argv|)
  {
    PageStarts(argv);
    var vaddr, offset, i := base, 4096 - size, 0;
    assert Offset(argv, 0) == 0 by { assert argv[..0] == []; }
    while i < |argv|
      invariant 0 <= i <= |argv|
      invariant vaddr == base + Offset(argv, i) && offset == 4096 - size + Offset(argv, i)
      invariant Assembled(page[..], size, Strings(argv[..i]), area, Pointers(argv, i))
    {
      NextBounds(argv, i);
      PutArgument(page, size, Strings(argv[..i]), area, Pointers(argv, i),
                  argv[i] + [0], offset, Word(vaddr), 4096 - size + area + 8 * i);
      vaddr, offset, i := vaddr + |argv[i]| + 1, offset + |argv[i]| + 1, i + 1;
    }
    PageEnds(argv, page[..]);
    FinalNull(argv);
    Copy(page, 4096 - size + area + 8 * |argv|, Word(0));
  }

  /**
   write_argv_blob() on a zeroed page; `ok` is false where the source panics. Without
   arguments nothing is written and the stack starts at the very top.
   */
  method WriteArgvBlob(page: array<byte>, argv: seq<seq<byte>>) returns (ok: bool, stackTop: nat, argvPtr: nat)
    requires page.Length == 4096 && page[..] == Zeros(4096)
    modifies page
    ensures ok <==> Accepted(argv)
    ensures ok ==> stackTop == StackTop(argv) && argvPtr == ArgvPointer(argv)
    ensures ok ==> page[..] == if argv == [] then Zeros(4096) else PageAfter(argv, |argv|)
  {
    stackTop, argvPtr := STACK_TOP, 0;
    if |argv| == 0 {
      assert argv == [] && Strings(argv) == [];
      return true, STACK_TOP, 0;
    }
    if |argv| > 16 {
      return false, 0, 0;
    }
    var total := TotalBytes(argv);
    RoundsUp(total);
    var area := (total + 7) / 8 * 8;
    var unpadded := area + (|argv| + 1) * 8;
    if unpadded > 3072 {
      return false, 0, 0;
    }
    RoundsUp(unpadded);
    var size := (unpadded + 15) / 16 * 16;
    Layout(argv);
    FillBlob(page, argv, STACK_TOP - size, size, area);
    return true, STACK_TOP - size, STACK_TOP - size + area;
  }

  /** The closing null pointer is already there: the page was zeroed. */
  lemma FinalNull(argv: seq<seq<byte>>)
    requires Accepted(argv)
    ensures var o := 4096 - BlobSize(argv) + StringArea(argv) + 8 * |argv|;
            o + 8 <= 4096 && Splice(PageAfter(argv, |argv|), o, Word(0)) == PageAfter(argv, |argv|)
  {
    var page, o := PageAfter(argv, |argv|), 4096 - BlobSize(argv) + StringArea(argv) + 8 * |argv|;
    PageShape(argv);
    NullPointer();
    assert page == page[..o] + page[o..o + 8] + page[o + 8..];
  }
}
