/**
 Listings from the reader's side: the text of fat16_list_dir() (kernel/src/fat16.c) is a C
 string, and its lines are what lies between newlines. A stored name may hold both bytes.
 */
module FatLines {
  import opened Common
  import opened FatNames
  import opened FatVolume
  import opened FatListing

  /** The lines of a text; what follows the last newline is a line if there is any. */
  function SplitLines(text: CString): seq<CString>
    decreases |text|
  {
    if text == [] then []
    else
      var k := IndexOf(text, 10);
      if k == |text| then [text] else [text[..k]] + SplitLines(text[k + 1..])
  }

  lemma {:induction false} LineBytes(text: CString, k: nat)
    requires k < |SplitLines(text)|
    ensures var l := SplitLines(text)[k];
            && NEWLINE !in l && |l| <= |text| && (NEWLINE in text ==> |l| < |text|)
            && forall b | b in l :: b in text
    decreases |text|
  {
    var i := IndexOf(text, NEWLINE);
    if i < |text| {
      var rest := text[i + 1..];
      if k > 0 {
        assert SplitLines(text)[k] == SplitLines(rest)[k - 1];
        LineBytes(rest, k - 1);
      }
    }
  }

  /** A clean line in front of a text is its first line. */
  lemma SplitFirst(line: CString, rest: CString)
    requires NEWLINE !in line
    ensures SplitLines(line + [NEWLINE] + rest) == [line] + SplitLines(rest)
  {
    var text: CString := line + [NEWLINE] + rest;
    assert text[|line|] == 10 && forall i | 0 <= i < |line| :: text[i] == line[i];
    IndexIs(text, 10, |line|);
    assert text[..|line|] == line && text[|line| + 1..] == rest;
    assert SplitLines(text) == [text[..|line|]] + SplitLines(text[|line| + 1..]);
  }

  lemma CTextWhole(text: seq<byte>)
    requires 0 !in text
    ensures CText(text) == text
  {
    IndexIs(text, 0, |text|);
  }

  // ---------------------------------------------------------------- a whole listing

  /** The names of the entries `es`, as they are printed. */
  function Names(dir: seq<Dirent>, es: seq<nat>): (r: seq<seq<byte>>)
    requires forall k | 0 <= k < |es| :: es[k] < |dir|
    ensures |r| == |es| && forall k | 0 <= k < |es| :: r[k] == Render(dir[es[k]].name)
  {
    if es == [] then [] else [Render(dir[es[0]].name)] + Names(dir, es[1..])
  }

  /** A name that prints as exactly one line of a C string. */
  predicate Legible(raw: Name83) { NEWLINE !in Render(raw) && 0 !in Render(raw) }

  lemma OneMoreName(name: seq<byte>, rest: seq<byte>, names: seq<seq<byte>>)
    requires NEWLINE !in name && 0 !in name && 0 !in rest && SplitLines(rest) == names
    ensures 0 !in name + [NEWLINE] + rest && SplitLines(name + [NEWLINE] + rest) == [name] + names
  {
    SplitFirst(name, rest);
  }

  /** Legible names come back from the text. */
  lemma {:induction false} LinesReadBack(dir: seq<Dirent>, es: seq<nat>)
    requires forall k | 0 <= k < |es| :: es[k] < |dir| && Legible(dir[es[k]].name)
    ensures 0 !in Lines(dir, es) && SplitLines(Lines(dir, es)) == Names(dir, es)
  {
    if es != [] {
      var name, rest := Render(dir[es[0]].name), es[1..];
      LinesReadBack(dir, rest);
      assert Legible(dir[es[0]].name);
      OneMoreName(name, Lines(dir, rest), Names(dir, rest));
    }
  }

  predicate AllLegible(dir: seq<Dirent>, es: seq<nat>)
    requires forall k | 0 <= k < |es| :: es[k] < |dir|
  {
    forall k | 0 <= k < |es| :: Legible(dir[es[k]].name)
  }

  /** Names that come back from some text are legible. */
  lemma ReadBackIsLegible(dir: seq<Dirent>, es: seq<nat>, text: CString)
    requires (forall k | 0 <= k < |es| :: es[k] < |dir|) && SplitLines(text) == Names(dir, es)
    ensures AllLegible(dir, es)
  {
    forall k | 0 <= k < |es| ensures Legible(dir[es[k]].name) {
      LineBytes(text, k);
      assert SplitLines(text)[k] == Render(dir[es[k]].name);
    }
  }

  lemma TextReadsBack(dir: seq<Dirent>, es: seq<nat>, text: seq<byte>)
    requires (forall k | 0 <= k < |es| :: es[k] < |dir|) && text == Lines(dir, es)
    ensures SplitLines(CText(text)) == Names(dir, es) <==> AllLegible(dir, es)
  {
    if SplitLines(CText(text)) == Names(dir, es) { ReadBackIsLegible(dir, es, CText(text)); }
    if AllLegible(dir, es) {
      LinesReadBack(dir, es);
      CTextWhole(text);
    }
  }

  /**
   The lines of the text fat16_list_dir() leaves in the buffer are exactly the names of the
   entries it printed, in order, if and only if none of those names has a newline or a NUL
   in it.
   */
  lemma ListingReadsBack(dir: seq<Dirent>, max: nat) returns (es: seq<nat>)
    ensures es <= LiveFrom(dir, 0) && (forall k | 0 <= k < |es| :: es[k] < |dir|) && Maximal(dir, 0, 0, max, |es|)
    ensures SplitLines(CText(Listing(dir, 0, 0, max))) == Names(dir, es) <==> AllLegible(dir, es)
  {
    LiveInRange(dir, 0);
    var n := ListingIsMaximal(dir, 0, 0, max);
    es := LiveFrom(dir, 0)[..n];
    TextReadsBack(dir, es, Listing(dir, 0, 0, max));
  }

  // ---------------------------------------------------------------- one entry

  /** The lines a reader gets from what is printed for a stored name. */
  function EntryLines(raw: Name83): seq<CString> { SplitLines(CText(Render(raw) + [NEWLINE])) }

  /** One of these lines, joined to the path of the directory, opens the entry. */
  ghost predicate OpenedByLine(v: Volume, path: CString, d: nat, e: nat)
    requires Sane(v) && e < |Directory(v, d)|
  {
    var ls := EntryLines(Directory(v, d)[e].name);
    exists k :: 0 <= k < |ls| && Picks(v, Join(path, ls[k]), d, e)
  }

  lemma LegibleLines(raw: Name83)
    requires Legible(raw)
    ensures EntryLines(raw) == [Render(raw)] && Printed(raw) == Render(raw)
  {
    var text := Render(raw) + [NEWLINE];
    CTextWhole(text);
    CTextWhole(Render(raw));
    SplitFirst(Render(raw), []);
    assert Render(raw) + [NEWLINE] + [] == text;
  }

  /** Of a name with a newline in it, only an empty line can pick the entry, and then the path alone does. */
  lemma PieceOfName(v: Volume, path: CString, d: nat, e: nat, k: nat)
    requires Sane(v) && (path != [] ==> path[0] != SLASH) && ResolveDirectory(v, path, 0) == Some(d)
    requires e < |Directory(v, d)|
    requires var name := Directory(v, d)[e].name; NEWLINE in Render(name) && Unbroken(name) && k < |EntryLines(name)|
    ensures var l := EntryLines(Directory(v, d)[e].name)[k];
            Picks(v, Join(path, l), d, e) <==> l == [] && Picks(v, path, d, e)
  {
    var name := Directory(v, d)[e].name;
    var text := Render(name) + [NEWLINE];
    CTextWhole(text);
    LineBytes(text, k);
    RenderShape(name);
    var l := EntryLines(name)[k];
    if l == [] {
      JoinNothing(v, path);
    } else {
      assert SLASH in l ==> SLASH in text;
      OpenJoined(v, path, l, d);
      FormatAdds(l, NEWLINE);
    }
  }

  lemma BrokenNotOpened(v: Volume, path: CString, d: nat, e: nat)
    requires Sane(v) && e < |Directory(v, d)| && !Unbroken(Directory(v, d)[e].name)
    ensures !OpenedByLine(v, path, d, e) && !Picks(v, path, d, e)
  {
    forall p: CString ensures !Picks(v, p, d, e) { BrokenIsNeverPicked(v, p, d, e); }
  }

  lemma SeveralLines(v: Volume, path: CString, d: nat, e: nat)
    requires Sane(v) && (path != [] ==> path[0] != SLASH) && ResolveDirectory(v, path, 0) == Some(d)
    requires e < |Directory(v, d)|
    requires var name := Directory(v, d)[e].name; NEWLINE in Render(name) && Unbroken(name)
    ensures OpenedByLine(v, path, d, e) <==> [] in EntryLines(Directory(v, d)[e].name) && Picks(v, path, d, e)
  {
    var ls := EntryLines(Directory(v, d)[e].name);
    forall k | 0 <= k < |ls| ensures Picks(v, Join(path, ls[k]), d, e) <==> ls[k] == [] && Picks(v, path, d, e) {
      PieceOfName(v, path, d, e, k);
    }
  }

  lemma OneLine(v: Volume, path: CString, d: nat, e: nat)
    requires Sane(v) && e < |Directory(v, d)| && Legible(Directory(v, d)[e].name)
    ensures var name := Directory(v, d)[e].name;
            && (OpenedByLine(v, path, d, e) <==> Picks(v, Join(path, Printed(name)), d, e))
            && (Blank(name) ==> [] in EntryLines(name))
  {
    var name := Directory(v, d)[e].name;
    LegibleLines(name);
    RenderShape(name);
    assert EntryLines(name)[0] == Printed(name);
  }

  /**
   A line printed for live entry e of the directory `path` names, joined to that path, opens
   entry e itself. For a name that prints as something and has no newline in it this is so
   exactly when the name has no slash or NUL either, is canonical, and is the first of its
   kind. A name that prints as nothing, or on several lines, is opened exactly when one of
   its lines is empty and `path` alone opens it.
   */
  lemma LineOpensItsEntry(v: Volume, path: CString, d: nat, e: nat)
    requires Sane(v) && (path != [] ==> path[0] != SLASH) && ResolveDirectory(v, path, 0) == Some(d)
    requires Live(Directory(v, d), e)
    ensures var dir := Directory(v, d); var name := dir[e].name;
            OpenedByLine(v, path, d, e) <==>
              if !Blank(name) && NEWLINE !in Render(name) then Unbroken(name) && Canonical(name) && FirstOfName(dir, e)
              else [] in EntryLines(name) && Picks(v, path, d, e)
  {
    var name := Directory(v, d)[e].name;
    RenderShape(name);
    if !Unbroken(name) {
      BrokenNotOpened(v, path, d, e);
    } else if NEWLINE in Render(name) {
      SeveralLines(v, path, d, e);
    } else {
      OneLine(v, path, d, e);
      NameOpensItsEntry(v, path, d, e);
    }
  }

  const NEWLINE_NAME: Name83 := [65, NEWLINE, 66, SPACE, SPACE, SPACE, SPACE, SPACE, 84, 88, 84]

  lemma NewlineNameShape()
    ensures Canonical(NEWLINE_NAME) && !Blank(NEWLINE_NAME)
    ensures Render(NEWLINE_NAME) == [65, NEWLINE, 66, DOT, 84, 88, 84]
  {
    var base, ext := NEWLINE_NAME[..8], NEWLINE_NAME[8..];
    assert base == [65, NEWLINE, 66, SPACE, SPACE, SPACE, SPACE, SPACE] && ext == [84, 88, 84];
    IndexIs(base, SPACE, 3);
    IndexIs(ext, SPACE, 3);
    assert Trim(base) == [65, NEWLINE, 66] && Trim(ext) == [84, 88, 84];
  }

  lemma NewlineNameLines()
    ensures EntryLines(NEWLINE_NAME) == [[65], [66, DOT, 84, 88, 84]]
  {
    NewlineNameShape();
    var a: CString, b: CString := [65], [66, DOT, 84, 88, 84];
    var text := Render(NEWLINE_NAME) + [NEWLINE];
    assert text == a + [NEWLINE] + (b + [NEWLINE] + []);
    CTextWhole(text);
    SplitFirst(a, b + [NEWLINE] + []);
    SplitFirst(b, []);
  }

  /** Such a name opens the entry as one string, and no line of it does. */
  lemma NameButNoLine(v: Volume, path: CString, d: nat, e: nat)
    requires Sane(v) && (path != [] ==> path[0] != SLASH) && ResolveDirectory(v, path, 0) == Some(d)
    requires Live(Directory(v, d), e)
    requires var name := Directory(v, d)[e].name;
             Canonical(name) && Unbroken(name) && !Blank(name) && NEWLINE in Render(name) && [] !in EntryLines(name)
    ensures Picks(v, Join(path, Printed(Directory(v, d)[e].name)), d, e) <==> FirstOfName(Directory(v, d), e)
    ensures !OpenedByLine(v, path, d, e)
  {
    NameOpensItsEntry(v, path, d, e);
    SeveralLines(v, path, d, e);
  }

  lemma NewlineNameFacts(raw: Name83)
    requires raw == NEWLINE_NAME
    ensures Canonical(raw) && Unbroken(raw) && !Blank(raw) && NEWLINE in Render(raw) && [] !in EntryLines(raw)
  {
    NewlineNameShape();
    NewlineNameLines();
    assert Render(raw)[1] == NEWLINE;
  }

  /**
   Written under the name "A\nB.TXT", stored as `A\nB     TXT`: canonical, whole, and opened
   by that name when it is the first of it, but printed on two lines neither of which does.
   */
  lemma NewlineNameNotOpened(v: Volume, path: CString, d: nat, e: nat)
    requires Sane(v) && (path != [] ==> path[0] != SLASH) && ResolveDirectory(v, path, 0) == Some(d)
    requires Live(Directory(v, d), e) && Directory(v, d)[e].name == NEWLINE_NAME
    ensures Picks(v, Join(path, Printed(Directory(v, d)[e].name)), d, e) <==> FirstOfName(Directory(v, d), e)
    ensures !OpenedByLine(v, path, d, e)
  {
    NewlineNameFacts(Directory(v, d)[e].name);
    NameButNoLine(v, path, d, e);
  }

  /** fat16_write_file() of that name stores it so. */
  lemma NewlineNameIsStored()
    ensures Format83([65, NEWLINE, 66, DOT, 84, 88, 84]) == NEWLINE_NAME
  {
    NewlineNameShape();
    RenderThenFormat(NEWLINE_NAME);
  }
}
